/**
 * `CPU_Info.__init__` as the source runs it: the dictionary is filled line
 * by line, the fields are converted, and the per-node lists are collected
 * in sorted key order.
 */
module LscpuReader {
  import opened Wrappers
  import opened Strings
  import opened Numerals
  import opened CpuRanges
  import opened LscpuLines
  import opened NodeKeys
  import opened Lscpu

  /** `sorted(...)` of the matching keys, taking the least key left each round. */
  method SortKeys(keys: set<string>) returns (sorted: seq<string>)
    ensures sorted == SortedKeys(keys)
  {
    var pending := keys;
    sorted := [];
    while pending != {}
      invariant sorted + SortedKeys(pending) == SortedKeys(keys)
      decreases pending
    {
      LeastExists(pending);
      var key :| IsLeast(key, pending);
      TakeLeast(sorted, pending, SortedKeys(keys), key);
      sorted := sorted + [key];
      pending := pending - {key};
    }
    assert sorted + [] == sorted;
  }

  /** The `for numa_node in ...` loop: one `__str2range` per key, in order. */
  method CollectNumaLists(d: map<string, string>, keys: seq<string>) returns (r: Result<seq<seq<nat>>, Raised>)
    requires forall k :: 0 <= k < |keys| ==> keys[k] in d
    ensures r == NumaLists(d, keys)
  {
    ghost var rs := NodeLists(d, keys);
    var cpusNumaNodes: seq<seq<nat>> := [];
    for i := 0 to |keys|
      invariant Gather(rs[..i]) == Success(cpusNumaNodes)
    {
      var cpus := Str2Range(d[keys[i]]);
      NodeListsAt(d, keys, i);
      if cpus.None? {
        GatherStop(rs, i);
        return Failure(ValueError(d[keys[i]]));
      }
      GatherStep(rs, i, cpusNumaNodes);
      cpusNumaNodes := cpusNumaNodes + [cpus.value];
    }
    assert rs[..|keys|] == rs;
    r := Success(cpusNumaNodes);
  }

  /** `CPU_Info()` with the corrected `__lscpu`: reads the lines, converts the fields and collects the NUMA lists. */
  method ReadCpuInfo(output: Option<seq<string>>) returns (r: Result<CpuInfo, Raised>)
    ensures r == CpuInfoOf(output)
  {
    if output.None? {
      return Success(Unavailable);
    }
    var lscpu := ReadLines(output.value);
    if lscpu.None? {
      return Success(Unavailable);
    }
    var d := lscpu.value;
    var failure := FirstFailure(d, FieldsRead);
    if failure.Some? {
      return Failure(failure.value);
    }
    FieldsConverted(d);
    var cpusOnline := Str2Range(d["On-line CPU(s) list"]);
    var numaKeys := SortKeys(NumaKeys(d));
    var cpusNumaNodes := CollectNumaLists(d, numaKeys);
    if cpusNumaNodes.Failure? {
      return Failure(cpusNumaNodes.error);
    }
    if "Flags" !in d {
      return Failure(KeyError("Flags"));
    }
    r := Success(Info(
      ParseNat(d["CPU(s)"]).value, cpusOnline.value,
      ParseNat(d["Thread(s) per core"]).value, ParseNat(d["Core(s) per socket"]).value,
      ParseNat(d["Socket(s)"]).value, ParseNat(d["NUMA node(s)"]).value, cpusNumaNodes.value));
  }
}
