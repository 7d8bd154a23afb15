/**
 * The keys `CPU_Info` reads the per-node CPU lists from, and the sorted
 * order it reads them in.
 */
module NodeKeys {
  import opened Strings
  import opened Numerals

  // ---------------------------------------------------------------------
  // The NUMA CPU-list keys and their sorted order

  const NumaPrefix: string := "NUMA node"
  const NumaSuffix: string := " CPU(s)"

  /** Length of the run of decimal digits at the start of `s`. */
  function DigitRun(s: string): (n: nat)
    ensures n <= |s| && AllDigits(s[..n]) && (n == |s| || !IsDigit(s[n]))
  {
    if s != [] && IsDigit(s[0]) then
      var n := 1 + DigitRun(s[1..]);
      assert forall k :: 1 <= k < n ==> s[..n][k] == s[1..][..n - 1][k - 1];
      n
    else 0
  }

  /**
   * `re.match(b'NUMA node\d+ CPU\(s\)', key)`: the key starts with
   * "NUMA node", one or more digits and " CPU(s)"; anything may follow,
   * since `re.match` anchors only at the start.
   */
  predicate IsNumaCpuKey(key: string) {
    |key| >= |NumaPrefix| && key[..|NumaPrefix|] == NumaPrefix
    && var rest := key[|NumaPrefix|..];
       var n := DigitRun(rest);
       n >= 1 && |rest| >= n + |NumaSuffix| && rest[n..n + |NumaSuffix|] == NumaSuffix
  }

  lemma {:induction false} DigitRunOf(digits: string, tail: string)
    requires AllDigits(digits)
    requires tail == [] || !IsDigit(tail[0])
    ensures DigitRun(digits + tail) == |digits|
  {
    if digits != [] {
      assert (digits + tail)[1..] == digits[1..] + tail;
      DigitRunOf(digits[1..], tail);
    } else {
      assert digits + tail == tail;
    }
  }

  /** A matching key is "NUMA node", its digits, " CPU(s)" and whatever follows. */
  lemma NumaCpuKeyParts(key: string) returns (digits: string, tail: string)
    requires IsNumaCpuKey(key)
    ensures digits != [] && AllDigits(digits) && key == NumaPrefix + digits + NumaSuffix + tail
  {
    var rest := key[|NumaPrefix|..];
    var n := DigitRun(rest);
    digits, tail := rest[..n], rest[n + |NumaSuffix|..];
    assert rest == digits + rest[n..n + |NumaSuffix|] + tail;
    assert key == key[..|NumaPrefix|] + rest;
  }

  /** "NUMA node", digits, " CPU(s)" and anything after it is a matching key. */
  lemma NumaCpuKeyOfParts(digits: string, tail: string)
    requires digits != [] && AllDigits(digits)
    ensures IsNumaCpuKey(NumaPrefix + digits + NumaSuffix + tail)
  {
    var key := NumaPrefix + digits + NumaSuffix + tail;
    var rest := key[|NumaPrefix|..];
    assert key[..|NumaPrefix|] == NumaPrefix;
    assert rest == digits + (NumaSuffix + tail);
    DigitRunOf(digits, NumaSuffix + tail);
    assert rest[|digits|..|digits| + |NumaSuffix|] == NumaSuffix;
  }

  /** The predicate accepts exactly the keys the pattern matches. */
  lemma NumaCpuKeyShape(key: string)
    ensures IsNumaCpuKey(key) <==>
      exists digits, tail :: digits != [] && AllDigits(digits)
        && key == NumaPrefix + digits + NumaSuffix + tail
  {
    if IsNumaCpuKey(key) {
      var digits, tail := NumaCpuKeyParts(key);
    }
    if exists digits, tail :: digits != [] && AllDigits(digits)
        && key == NumaPrefix + digits + NumaSuffix + tail {
      var digits, tail :| digits != [] && AllDigits(digits)
        && key == NumaPrefix + digits + NumaSuffix + tail;
      NumaCpuKeyOfParts(digits, tail);
    }
  }

  /** The keys whose CPU lists are collected. */
  function NumaKeys(d: map<string, string>): (keys: set<string>)
    ensures forall k :: k in keys <==> k in d && IsNumaCpuKey(k)
  {
    set k | k in d && IsNumaCpuKey(k)
  }

  /**
   * The selected keys are the keys of the map that read "NUMA node", one or
   * more decimal digits, " CPU(s)", and then anything.
   */
  lemma NumaKeysShape(d: map<string, string>, key: string)
    ensures key in NumaKeys(d) <==>
      key in d
      && exists digits, tail :: digits != [] && AllDigits(digits) && key == NumaPrefix + digits + NumaSuffix + tail
  {
    NumaCpuKeyShape(key);
  }

  predicate IsLeast(m: string, s: set<string>) {
    m in s && forall x :: x in s && x != m ==> Below(m, x)
  }

  ghost predicate StrictlySorted(q: seq<string>) {
    forall i, j :: 0 <= i < j < |q| ==> Below(q[i], q[j])
  }

  lemma {:induction false} LeastExists(s: set<string>)
    requires s != {}
    ensures exists m :: IsLeast(m, s)
    decreases |s|
  {
    var x :| x in s;
    if s != {x} {
      LeastExists(s - {x});
      var m :| IsLeast(m, s - {x});
      BelowTotal(m, x);
      if Below(x, m) {
        forall y | y in s && y != x
          ensures Below(x, y)
        {
          if y != m {
            BelowTransitive(x, m, y);
          }
        }
        assert IsLeast(x, s);
      } else {
        assert IsLeast(m, s);
      }
    } else {
      assert IsLeast(x, s);
    }
  }

  lemma LeastUnique(m: string, m': string, s: set<string>)
    requires IsLeast(m, s) && IsLeast(m', s)
    ensures m == m'
  {
    if m != m' {
      BelowAsymmetric(m, m');
    }
  }

  /** `sorted(keys)`: the keys, least first, each once. */
  ghost function SortedKeys(s: set<string>): (q: seq<string>)
    ensures |q| == |s| && forall x :: x in q <==> x in s
    decreases |s|
  {
    if s == {} then []
    else
      LeastExists(s);
      var m :| IsLeast(m, s);
      [m] + SortedKeys(s - {m})
  }

  lemma SortedKeysHead(s: set<string>, m: string)
    requires IsLeast(m, s)
    ensures SortedKeys(s) == [m] + SortedKeys(s - {m})
  {
    var q := SortedKeys(s);
    assert IsLeast(q[0], s) && q == [q[0]] + SortedKeys(s - {q[0]});
    LeastUnique(q[0], m, s);
  }

  /** A key below every key of a sorted listing can be put in front of it. */
  lemma ConsSorted(m: string, rest: seq<string>)
    requires StrictlySorted(rest)
    requires forall x :: x in rest ==> Below(m, x)
    ensures StrictlySorted([m] + rest)
  {
    var q := [m] + rest;
    forall i, j | 0 <= i < j < |q|
      ensures Below(q[i], q[j])
    {
      assert q[j] == rest[j - 1];
      if i > 0 {
        assert q[i] == rest[i - 1];
      }
    }
  }

  /** The listing is in strictly increasing byte order. */
  lemma {:induction false} SortedKeysSorted(s: set<string>)
    ensures StrictlySorted(SortedKeys(s))
    decreases |s|
  {
    if s != {} {
      var q := SortedKeys(s);
      var m := q[0];
      assert IsLeast(m, s) && q == [m] + SortedKeys(s - {m});
      SortedKeysSorted(s - {m});
      ConsSorted(m, SortedKeys(s - {m}));
    }
  }

  /** Taking the least pending key moves it from the sorted pending keys to the done ones. */
  lemma TakeLeast(done: seq<string>, pending: set<string>, all: seq<string>, key: string)
    requires done + SortedKeys(pending) == all
    requires IsLeast(key, pending)
    ensures (done + [key]) + SortedKeys(pending - {key}) == all
  {
    SortedKeysHead(pending, key);
    assert (done + [key]) + SortedKeys(pending - {key}) == done + ([key] + SortedKeys(pending - {key}));
  }

  /** A strictly sorted listing of the keys is the sorted order: it is unique. */
  lemma {:induction false} SortedKeysUnique(q: seq<string>, s: set<string>)
    requires StrictlySorted(q) && forall x :: x in q <==> x in s
    ensures SortedKeys(s) == q
    decreases |q|
  {
    if q == [] {
      assert s == {};
    } else {
      var m := q[0];
      forall x | x in s && x != m
        ensures Below(m, x)
      {
        var i :| 0 <= i < |q| && q[i] == x;
        assert i != 0;
      }
      SortedKeysHead(s, m);
      forall x
        ensures x in q[1..] <==> x in s - {m}
      {
        if x in q[1..] {
          var i :| 1 <= i < |q| && q[i] == x;
          assert Below(q[0], q[i]);
          BelowIrreflexive(m);
        }
        if x in s - {m} {
          var i :| 0 <= i < |q| && q[i] == x;
          assert i != 0;
          assert q[1..][i - 1] == x;
        }
      }
      SortedKeysUnique(q[1..], s - {m});
    }
  }

  /** Byte order: at the first differing byte the smaller byte comes first. */
  lemma {:induction false} BelowAt(a: string, b: string, i: nat)
    requires i < |a| && i < |b| && a[..i] == b[..i] && a[i] < b[i]
    ensures Below(a, b)
  {
    if i > 0 {
      assert a[0] == a[..i][0] == b[..i][0] == b[0];
      assert a[1..][..i - 1] == a[..i][1..] == b[..i][1..] == b[1..][..i - 1];
      BelowAt(a[1..], b[1..], i - 1);
    }
  }

  /** The per-node keys match; the node-count key does not. */
  lemma NumaKeyExamples()
    ensures IsNumaCpuKey("NUMA node10 CPU(s)") && IsNumaCpuKey("NUMA node2 CPU(s)")
    ensures !IsNumaCpuKey("NUMA node(s)")
  {
    NodeTenMatches();
    NodeTwoMatches();
    CountKeyDoesNotMatch();
  }

  lemma NodeTenMatches()
    ensures IsNumaCpuKey("NUMA node10 CPU(s)")
  {
    NumaCpuKeyOfParts("10", "");
    assert NumaPrefix + "10" + NumaSuffix + "" == "NUMA node10 CPU(s)";
  }

  lemma NodeTwoMatches()
    ensures IsNumaCpuKey("NUMA node2 CPU(s)")
  {
    NumaCpuKeyOfParts("2", "");
    assert NumaPrefix + "2" + NumaSuffix + "" == "NUMA node2 CPU(s)";
  }

  lemma CountKeyDoesNotMatch()
    ensures !IsNumaCpuKey("NUMA node(s)")
  {
    var count := "NUMA node(s)";
    assert count[|NumaPrefix|..] == "(s)";
    assert DigitRun("(s)") == 0;
  }

  /** Two keys are listed smaller first. */
  lemma SortedPair(a: string, b: string)
    requires Below(a, b)
    ensures SortedKeys({a, b}) == [a, b]
  {
    assert StrictlySorted([a, b]);
    SortedKeysUnique([a, b], {a, b});
  }

  /** Keys sort as bytes, not as numbers: node 10 is listed before node 2. */
  lemma SortedNotNumeric()
    ensures SortedKeys({"NUMA node10 CPU(s)", "NUMA node2 CPU(s)"}) ==
      ["NUMA node10 CPU(s)", "NUMA node2 CPU(s)"]
  {
    TenBelowTwo();
    SortedPair("NUMA node10 CPU(s)", "NUMA node2 CPU(s)");
  }

  lemma TenBelowTwo()
    ensures Below("NUMA node10 CPU(s)", "NUMA node2 CPU(s)")
  {
    var ten, two := "NUMA node10 CPU(s)", "NUMA node2 CPU(s)";
    assert ten[..9] == two[..9];
    BelowAt(ten, two, 9);
  }
}
