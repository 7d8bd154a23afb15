/**
 * `CPU_Info`: the reader of the topology-query output. The text is split
 * into `key: value` lines, the lines become a dictionary, selected fields
 * are converted, and the CPU lists of the `NUMA node<N> CPU(s)` keys are
 * collected in sorted key order.
 */
module Lscpu {
  import opened Wrappers
  import opened Strings
  import opened Numerals
  import opened CpuRanges
  import opened LscpuLines
  import opened NodeKeys

  // ---------------------------------------------------------------------
  // The fields of CPU_Info

  /** The exceptions that escape `CPU_Info()`. */
  datatype Raised = KeyError(key: string) | ValueError(text: string)

  /** How `__init__` treats a field: kept as text, `int`, `__str2range` or `float`. */
  datatype Conversion = Kept | Integer | CpuList | Float

  /** The fields `__init__` reads before the NUMA lists, in the order it reads them. */
  const FieldsRead: seq<(string, Conversion)> := HeaderFields + CountFields + DescriptionFields

  /** The text fields read first. */
  const HeaderFields: seq<(string, Conversion)> := [
    ("Architecture", Kept), ("CPU op-mode(s)", Kept), ("Byte Order", Kept),
    ("Address sizes", Kept)
  ]

  /** The integer and CPU-list fields the topology comes from. */
  const CountFields: seq<(string, Conversion)> := [
    ("CPU(s)", Integer), ("On-line CPU(s) list", CpuList),
    ("Thread(s) per core", Integer), ("Core(s) per socket", Integer),
    ("Socket(s)", Integer), ("NUMA node(s)", Integer)
  ]

  /** The vendor, frequency and cache fields read after them. */
  const DescriptionFields: seq<(string, Conversion)> := [
    ("Vendor ID", Kept), ("CPU family", Kept), ("Model", Kept), ("Model name", Kept),
    ("Stepping", Kept), ("CPU MHz", Float), ("CPU max MHz", Float), ("CPU min MHz", Float),
    ("BogoMIPS", Float), ("Virtualization", Kept), ("L1d cache", Kept),
    ("L1i cache", Kept), ("L2 cache", Kept), ("L3 cache", Kept)
  ]

  /** The exception reading one field raises, if any. */
  function FieldFailure(d: map<string, string>, field: (string, Conversion)): (e: Option<Raised>)
    ensures e.None? <==>
      field.0 in d
      && (field.1 == Integer ==> ParseNat(d[field.0]).Some?)
      && (field.1 == CpuList ==> ExpandRanges(d[field.0]).Some?)
  {
    var (key, conversion) := field;
    if key !in d then Some(KeyError(key))
    else if conversion == Integer && ParseNat(d[key]).None? then Some(ValueError(d[key]))
    else if conversion == CpuList && ExpandRanges(d[key]).None? then Some(ValueError(d[key]))
    else None
  }

  /** The first exception in reading order. */
  function FirstFailure(d: map<string, string>, fields: seq<(string, Conversion)>): (e: Option<Raised>)
    ensures e.None? <==> forall i :: 0 <= i < |fields| ==> FieldFailure(d, fields[i]).None?
    ensures e.Some? ==>
      exists i :: 0 <= i < |fields| && e == FieldFailure(d, fields[i])
        && forall i' :: 0 <= i' < i ==> FieldFailure(d, fields[i']).None?
  {
    if fields == [] then None
    else if FieldFailure(d, fields[0]).Some? then FieldFailure(d, fields[0])
    else
      var rest := FirstFailure(d, fields[1..]);
      assert forall i :: 1 <= i < |fields| ==> fields[i] == fields[1..][i - 1];
      rest
  }

  /** Reading `a + b` fails nowhere exactly when reading `a` and reading `b` fail nowhere. */
  lemma FirstFailureConcat(d: map<string, string>, a: seq<(string, Conversion)>, b: seq<(string, Conversion)>)
    ensures FirstFailure(d, a + b).None? <==> FirstFailure(d, a).None? && FirstFailure(d, b).None?
  {
    assert forall i :: 0 <= i < |a| ==> (a + b)[i] == a[i];
    assert forall i :: 0 <= i < |b| ==> (a + b)[|a| + i] == b[i];
  }

  /** Once no field read fails, the integer and CPU-list fields have their values. */
  lemma FieldsConverted(d: map<string, string>)
    requires FirstFailure(d, FieldsRead).None?
    ensures "CPU(s)" in d && ParseNat(d["CPU(s)"]).Some?
    ensures "On-line CPU(s) list" in d && ExpandRanges(d["On-line CPU(s) list"]).Some?
    ensures "Thread(s) per core" in d && ParseNat(d["Thread(s) per core"]).Some?
    ensures "Core(s) per socket" in d && ParseNat(d["Core(s) per socket"]).Some?
    ensures "Socket(s)" in d && ParseNat(d["Socket(s)"]).Some?
    ensures "NUMA node(s)" in d && ParseNat(d["NUMA node(s)"]).Some?
  {
    FirstFailureConcat(d, HeaderFields + CountFields, DescriptionFields);
    FirstFailureConcat(d, HeaderFields, CountFields);
    assert FieldFailure(d, CountFields[0]).None? && FieldFailure(d, CountFields[1]).None?;
    assert FieldFailure(d, CountFields[2]).None? && FieldFailure(d, CountFields[3]).None?;
    assert FieldFailure(d, CountFields[4]).None? && FieldFailure(d, CountFields[5]).None?;
  }

  /** `__str2range` on one NUMA node's list, with the exception it raises. */
  function NodeList(text: string): (r: Result<seq<nat>, Raised>)
    ensures r.Success? <==> ExpandRanges(text).Some?
    ensures r.Success? ==> ExpandRanges(text) == Some(r.value)
    ensures r.Failure? ==> r.error == ValueError(text)
  {
    match ExpandRanges(text)
    case None => Failure(ValueError(text))
    case Some(cpus) => Success(cpus)
  }

  /**
   * A NUMA node's list raises `ValueError` with its text exactly when some
   * '-'-separated token of some ','-separated piece is not a number.
   */
  lemma NodeListFails(text: string)
    ensures NodeList(text).Failure? <==>
      exists k, j :: 0 <= k < |Split(text, ',')| && 0 <= j < |Split(Split(text, ',')[k], '-')|
        && ParseNat(Split(Split(text, ',')[k], '-')[j]).None?
    ensures NodeList(text).Failure? ==> NodeList(text).error == ValueError(text)
  {
    var pieces := Split(text, ',');
    ExpandRangesFails(text);
    forall k | 0 <= k < |pieces| {
      ParseTokensSpec(Split(pieces[k], '-'));
    }
  }

  /** The result of each key's list, in key order. */
  function NodeLists(d: map<string, string>, keys: seq<string>): (rs: seq<Result<seq<nat>, Raised>>)
    requires forall k :: 0 <= k < |keys| ==> keys[k] in d
    ensures |rs| == |keys|
  {
    seq(|keys|, k requires 0 <= k < |keys| => NodeList(d[keys[k]]))
  }

  lemma NodeListsAt(d: map<string, string>, keys: seq<string>, k: nat)
    requires forall k :: 0 <= k < |keys| ==> keys[k] in d
    requires k < |keys|
    ensures NodeLists(d, keys)[k] == NodeList(d[keys[k]])
  {
  }

  /** Appending the lists in order: the first failure is raised. */
  function Gather(rs: seq<Result<seq<nat>, Raised>>): Result<seq<seq<nat>>, Raised>
  {
    if rs == [] then Success([])
    else
      match Gather(rs[..|rs| - 1])
      case Failure(e) => Failure(e)
      case Success(lists) =>
        match rs[|rs| - 1]
        case Failure(e) => Failure(e)
        case Success(cpus) => Success(lists + [cpus])
  }

  /** The CPU lists of `keys`, in that order; a bad list raises `ValueError`. */
  function NumaLists(d: map<string, string>, keys: seq<string>): Result<seq<seq<nat>>, Raised>
    requires forall k :: 0 <= k < |keys| ==> keys[k] in d
  {
    Gather(NodeLists(d, keys))
  }

  lemma {:induction false} GatherFailureExtends(p: seq<Result<seq<nat>, Raised>>, q: seq<Result<seq<nat>, Raised>>)
    requires Gather(p).Failure?
    ensures Gather(p + q) == Gather(p)
    decreases |q|
  {
    if q == [] {
      assert p + q == p;
    } else {
      var q' := q[..|q| - 1];
      assert (p + q)[..|p + q| - 1] == p + q';
      GatherFailureExtends(p, q');
    }
  }

  lemma GatherStep(rs: seq<Result<seq<nat>, Raised>>, i: nat, lists: seq<seq<nat>>)
    requires i < |rs| && Gather(rs[..i]) == Success(lists) && rs[i].Success?
    ensures Gather(rs[..i + 1]) == Success(lists + [rs[i].value])
  {
    assert rs[..i + 1][..i] == rs[..i];
  }

  lemma GatherStop(rs: seq<Result<seq<nat>, Raised>>, i: nat)
    requires i < |rs| && Gather(rs[..i]).Success? && rs[i].Failure?
    ensures Gather(rs) == Failure(rs[i].error)
  {
    assert rs[..i + 1][..i] == rs[..i];
    GatherFailureExtends(rs[..i + 1], rs[i + 1..]);
    assert rs[..i + 1] + rs[i + 1..] == rs;
  }

  /** Success means every list succeeded, and the lists are theirs in order. */
  lemma {:induction false} GatherShape(rs: seq<Result<seq<nat>, Raised>>)
    requires Gather(rs).Success?
    ensures |Gather(rs).value| == |rs|
    ensures forall i :: 0 <= i < |rs| ==> rs[i] == Success(Gather(rs).value[i])
    decreases |rs|
  {
    if rs != [] {
      GatherShape(rs[..|rs| - 1]);
    }
  }

  /** When all lists parse there is one per key, each the expansion of that key's value. */
  lemma NumaListsShape(d: map<string, string>, keys: seq<string>)
    requires forall k :: 0 <= k < |keys| ==> keys[k] in d
    requires NumaLists(d, keys).Success?
    ensures |NumaLists(d, keys).value| == |keys|
    ensures forall i :: 0 <= i < |keys| ==> Some(NumaLists(d, keys).value[i]) == ExpandRanges(d[keys[i]])
  {
    GatherShape(NodeLists(d, keys));
    forall i | 0 <= i < |keys|
      ensures Some(NumaLists(d, keys).value[i]) == ExpandRanges(d[keys[i]])
    {
      NodeListsAt(d, keys, i);
    }
  }

  /** What `CPU_Info()` yields: `Error` set, or the converted fields. */
  datatype CpuInfo =
    | Unavailable
    | Info(cpus: nat, cpusOnline: seq<nat>, threadsPerCore: nat, coresPerSocket: nat,
           sockets: nat, numaNodes: nat, cpusNumaNodes: seq<seq<nat>>)
  {
    /** The source's `Error` flag. */
    predicate Error() {
      Unavailable?
    }
  }

  function IntField(d: map<string, string>, key: string): nat
    requires key in d && ParseNat(d[key]).Some?
  {
    ParseNat(d[key]).value
  }

  /**
   * `__init__` after `__lscpu()` returned: `Error` when no dictionary was
   * obtained, otherwise the fields, or the first exception their conversion
   * raises, in the order `__init__` reads them.
   */
  ghost function InfoOf(lscpu: Option<map<string, string>>): (r: Result<CpuInfo, Raised>)
    ensures (r.Success? && r.value.Error()) <==> lscpu.None?
  {
    if lscpu.None? then Success(Unavailable)
    else
      var d := lscpu.value;
      if FirstFailure(d, FieldsRead).Some? then Failure(FirstFailure(d, FieldsRead).value)
      else
        FieldsConverted(d);
        var keys := SortedKeys(NumaKeys(d));
        match NumaLists(d, keys)
        case Failure(e) => Failure(e)
        case Success(lists) =>
          if "Flags" !in d then Failure(KeyError("Flags"))
          else Success(Info(
            IntField(d, "CPU(s)"), ExpandRanges(d["On-line CPU(s) list"]).value,
            IntField(d, "Thread(s) per core"), IntField(d, "Core(s) per socket"),
            IntField(d, "Socket(s)"), IntField(d, "NUMA node(s)"), lists))
  }

  /**
   * `CPU_Info()` with the corrected `__lscpu`, on the query output given as
   * its lines (`None` when the command could not be run).
   */
  ghost function CpuInfoOf(output: Option<seq<string>>): (r: Result<CpuInfo, Raised>)
    ensures (r.Success? && r.value.Error()) <==> output.None? || LineMap(output.value).None?
  {
    InfoOf(if output.None? then None else LineMap(output.value))
  }

  /** A successful read was built from the table's fields and the sorted per-node lists. */
  lemma InfoBuilt(d: map<string, string>, info: CpuInfo)
    requires InfoOf(Some(d)) == Success(info)
    ensures FirstFailure(d, FieldsRead).None? && "Flags" in d
    ensures NumaLists(d, SortedKeys(NumaKeys(d))).Success?
    ensures info.Info? && info.cpusNumaNodes == NumaLists(d, SortedKeys(NumaKeys(d))).value
    ensures (FieldsConverted(d);
      info.cpus == IntField(d, "CPU(s)")
      && info.cpusOnline == ExpandRanges(d["On-line CPU(s) list"]).value
      && info.threadsPerCore == IntField(d, "Thread(s) per core")
      && info.coresPerSocket == IntField(d, "Core(s) per socket")
      && info.sockets == IntField(d, "Socket(s)")
      && info.numaNodes == IntField(d, "NUMA node(s)"))
  {
  }

  /** A successful read holds the converted integer and CPU-list fields. */
  lemma InfoFields(d: map<string, string>, info: CpuInfo)
    requires InfoOf(Some(d)) == Success(info)
    ensures info.Info?
    ensures "CPU(s)" in d && "On-line CPU(s) list" in d && "Thread(s) per core" in d
      && "Core(s) per socket" in d && "Socket(s)" in d && "NUMA node(s)" in d
    ensures Some(info.cpus) == ParseNat(d["CPU(s)"])
    ensures Some(info.cpusOnline) == ExpandRanges(d["On-line CPU(s) list"])
    ensures Some(info.threadsPerCore) == ParseNat(d["Thread(s) per core"])
    ensures Some(info.coresPerSocket) == ParseNat(d["Core(s) per socket"])
    ensures Some(info.sockets) == ParseNat(d["Socket(s)"])
    ensures Some(info.numaNodes) == ParseNat(d["NUMA node(s)"])
  {
    InfoBuilt(d, info);
    FieldsConverted(d);
  }

  /**
   * A successful read holds one CPU list per `NUMA node<N> CPU(s)` key, in
   * increasing byte order of the keys.
   */
  lemma InfoNodeLists(d: map<string, string>, info: CpuInfo)
    requires InfoOf(Some(d)) == Success(info)
    ensures info.Info? && StrictlySorted(SortedKeys(NumaKeys(d)))
    ensures |info.cpusNumaNodes| == |NumaKeys(d)|
    ensures forall i :: 0 <= i < |NumaKeys(d)| ==>
      Some(info.cpusNumaNodes[i]) == ExpandRanges(d[SortedKeys(NumaKeys(d))[i]])
  {
    InfoBuilt(d, info);
    SortedKeysSorted(NumaKeys(d));
    NumaListsShape(d, SortedKeys(NumaKeys(d)));
  }

  /** A field missing or malformed in reading order raises its exception. */
  lemma InfoFieldFailure(d: map<string, string>, i: nat)
    requires i < |FieldsRead| && FieldFailure(d, FieldsRead[i]).Some?
    requires forall i' :: 0 <= i' < i ==> FieldFailure(d, FieldsRead[i']).None?
    ensures InfoOf(Some(d)) == Failure(FieldFailure(d, FieldsRead[i]).value)
  {
    assert FirstFailure(d, FieldsRead).Some?;
    var j :| 0 <= j < |FieldsRead| && FirstFailure(d, FieldsRead) == FieldFailure(d, FieldsRead[j])
      && forall i' :: 0 <= i' < j ==> FieldFailure(d, FieldsRead[i']).None?;
  }

  /** Output with no lines at all gives an empty dictionary, so `CPU_Info()` raises `KeyError('Architecture')`. */
  lemma EmptyOutputRaises()
    ensures CpuInfoOf(Some([])) == Failure(KeyError("Architecture"))
  {
    assert LineMap([]) == Some(map[]);
    InfoFieldFailure(map[], 0);
  }

  /** `CPU_Info()` as written. */
  ghost function CpuInfoOfAsWritten(output: Option<seq<string>>): (r: Result<CpuInfo, Raised>)
    ensures output.Some? ==> !(r.Success? && r.value.Error())
  {
    InfoOf(if output.None? then None else Some(LineMapAsWritten(output.value)))
  }

  /**
   * Output of one line without ':' should leave `Error` set; as written the
   * empty dictionary comes back and `__init__` raises `KeyError`.
   */
  lemma MalformedOutputRaises()
    ensures CpuInfoOf(Some(["garbage"])) == Success(Unavailable)
    ensures CpuInfoOfAsWritten(Some(["garbage"])) == Failure(KeyError("Architecture"))
  {
    assert Count("garbage", ':') == 0;
    AsWrittenKeepsPrefix([], "garbage", []);
    assert [] + ["garbage"] + [] == ["garbage"];
    assert LineMap([]) == Some(map[]);
    InfoFieldFailure(map[], 0);
  }
}

