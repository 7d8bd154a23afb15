/**
 * `__lscpu`: the topology-query output, one `key: value` pair per line,
 * becomes a dictionary from stripped key to stripped value.
 */
module LscpuLines {
  import opened Wrappers
  import opened Strings

  // ---------------------------------------------------------------------
  // The `key: value` lines

  /** A line's stripped key and value, present exactly when it holds one ':'. */
  function SplitLine(line: string): (r: Option<(string, string)>)
    ensures r.Some? <==> Count(line, ':') == 1
  {
    SplitPieces(line, ':');
    var parts := Split(line, ':');
    if |parts| == 2 then Some((Strip(parts[0]), Strip(parts[1]))) else None
  }

  /** A line `a:b` with no other ':' gives the pair (strip(a), strip(b)). */
  lemma SplitLineOf(a: string, b: string)
    requires ':' !in a && ':' !in b
    ensures SplitLine(a + ":" + b) == Some((Strip(a), Strip(b)))
  {
    SplitPrepend(a, b, ':');
    SplitOfPlain(b, ':');
    assert Split(a + ":" + b, ':') == [a, b];
  }

  /** The pair of a line with one ':' is the stripped text before it and the stripped text after it. */
  lemma SplitLinePair(line: string)
    requires Count(line, ':') == 1
    ensures ':' in line
    ensures SplitLine(line) ==
      Some((Strip(line[..IndexOf(line, ':')]), Strip(line[IndexOf(line, ':') + 1..])))
  {
    var i := IndexOf(line, ':');
    CountAfterFirst(line, ':');
    Around(line, i);
    assert line == line[..i] + ":" + line[i + 1..];
    SplitLineOf(line[..i], line[i + 1..]);
  }

  /** Each line's key and value, or `None` for a malformed line. */
  function Parsed(lines: seq<string>): (kvs: seq<Option<(string, string)>>)
    ensures |kvs| == |lines| && forall k :: 0 <= k < |lines| ==> kvs[k] == SplitLine(lines[k])
  {
    seq(|lines|, k requires 0 <= k < |lines| => SplitLine(lines[k]))
  }

  /** Entering the pairs in order: later keys overwrite earlier ones; a gap aborts. */
  function Collect(kvs: seq<Option<(string, string)>>): Option<map<string, string>>
  {
    if kvs == [] then Some(map[])
    else
      var front := Collect(kvs[..|kvs| - 1]);
      var last := kvs[|kvs| - 1];
      if front.Some? && last.Some? then Some(front.value[last.value.0 := last.value.1]) else None
  }

  /**
   * The `for line` loop of `__lscpu` as a value: each line sets its key,
   * later lines overwriting earlier ones; a line without exactly one ':'
   * aborts the whole parse.
   */
  function LineMap(lines: seq<string>): Option<map<string, string>>
  {
    Collect(Parsed(lines))
  }

  lemma {:induction false} CollectNoneExtends(p: seq<Option<(string, string)>>, q: seq<Option<(string, string)>>)
    requires Collect(p).None?
    ensures Collect(p + q).None?
    decreases |q|
  {
    if q == [] {
      assert p + q == p;
    } else {
      CollectNoneExtends(p, q[..|q| - 1]);
      assert (p + q)[..|p + q| - 1] == p + q[..|q| - 1];
    }
  }

  /** `__lscpu`'s loop, filling the dictionary line by line. */
  method ReadLines(lines: seq<string>) returns (r: Option<map<string, string>>)
    ensures r == LineMap(lines)
  {
    var lscpuDict: map<string, string> := map[];
    for i := 0 to |lines|
      invariant Collect(Parsed(lines)[..i]) == Some(lscpuDict)
    {
      var kv := SplitLine(lines[i]);
      ReadStep(lines, i, lscpuDict);
      if kv.None? {
        return None;
      }
      var (key, value) := kv.value;
      lscpuDict := lscpuDict[key := value];
    }
    assert Parsed(lines)[..|lines|] == Parsed(lines);
    r := Some(lscpuDict);
  }

  /** Line `i` either aborts the parse or enters its pair into the dictionary so far. */
  lemma ReadStep(lines: seq<string>, i: nat, m: map<string, string>)
    requires i < |lines| && Collect(Parsed(lines)[..i]) == Some(m)
    ensures SplitLine(lines[i]).None? ==> LineMap(lines).None?
    ensures SplitLine(lines[i]).Some? ==>
      Collect(Parsed(lines)[..i + 1]) == Some(m[SplitLine(lines[i]).value.0 := SplitLine(lines[i]).value.1])
  {
    var kvs := Parsed(lines);
    CollectPrefixStep(kvs, i);
    if SplitLine(lines[i]).None? {
      CollectPrefixAborts(kvs, i + 1);
    }
  }

  /** One more pair on a prefix enters that pair, or aborts. */
  lemma CollectPrefixStep(kvs: seq<Option<(string, string)>>, i: nat)
    requires i < |kvs|
    ensures Collect(kvs[..i + 1]) ==
      if Collect(kvs[..i]).Some? && kvs[i].Some? then Some(Collect(kvs[..i]).value[kvs[i].value.0 := kvs[i].value.1])
      else None
  {
    assert kvs[..i + 1][..i] == kvs[..i];
  }

  /** A prefix that aborts makes the whole sequence abort. */
  lemma CollectPrefixAborts(kvs: seq<Option<(string, string)>>, i: nat)
    requires i <= |kvs| && Collect(kvs[..i]).None?
    ensures Collect(kvs).None?
  {
    CollectNoneExtends(kvs[..i], kvs[i..]);
    assert kvs[..i] + kvs[i..] == kvs;
  }

  lemma {:induction false} CollectDefined(kvs: seq<Option<(string, string)>>)
    ensures Collect(kvs).Some? <==> forall k :: 0 <= k < |kvs| ==> kvs[k].Some?
    decreases |kvs|
  {
    if kvs != [] {
      var front := kvs[..|kvs| - 1];
      CollectDefined(front);
      assert forall k :: 0 <= k < |front| ==> front[k] == kvs[k];
    }
  }

  /** Pair `k` is present and no later pair has its key. */
  predicate LastFor(kvs: seq<Option<(string, string)>>, k: int)
    requires 0 <= k < |kvs|
  {
    kvs[k].Some? && forall k' :: k < k' < |kvs| && kvs[k'].Some? ==> kvs[k'].value.0 != kvs[k].value.0
  }

  /** The keys of the dictionary are exactly the keys of the pairs. */
  lemma {:induction false} CollectKeys(kvs: seq<Option<(string, string)>>)
    requires Collect(kvs).Some?
    ensures forall key :: key in Collect(kvs).value <==>
      exists k :: 0 <= k < |kvs| && kvs[k].Some? && kvs[k].value.0 == key
    decreases |kvs|
  {
    if kvs != [] {
      var n := |kvs| - 1;
      var front := kvs[..n];
      CollectKeys(front);
      var d := Collect(kvs).value;
      forall key
        ensures key in d <==> exists k :: 0 <= k < |kvs| && kvs[k].Some? && kvs[k].value.0 == key
      {
        if key in d && key != kvs[n].value.0 {
          var k :| 0 <= k < |front| && front[k].Some? && front[k].value.0 == key;
          assert kvs[k] == front[k];
        }
        if exists k :: 0 <= k < |kvs| && kvs[k].Some? && kvs[k].value.0 == key {
          var k :| 0 <= k < |kvs| && kvs[k].Some? && kvs[k].value.0 == key;
          if k < n {
            assert front[k] == kvs[k];
          }
        }
      }
    }
  }

  /** Each key holds the value of its last pair: later lines overwrite earlier ones. */
  lemma {:induction false} CollectLastWins(kvs: seq<Option<(string, string)>>)
    requires Collect(kvs).Some?
    ensures forall k :: 0 <= k < |kvs| && LastFor(kvs, k) ==>
      kvs[k].value.0 in Collect(kvs).value && Collect(kvs).value[kvs[k].value.0] == kvs[k].value.1
    decreases |kvs|
  {
    if kvs != [] {
      var n := |kvs| - 1;
      var front := kvs[..n];
      CollectLastWins(front);
      forall k | 0 <= k < |kvs| && LastFor(kvs, k)
        ensures kvs[k].value.0 in Collect(kvs).value && Collect(kvs).value[kvs[k].value.0] == kvs[k].value.1
      {
        if k < n {
          assert front[k] == kvs[k];
          forall k' | k < k' < |front| && front[k'].Some?
            ensures front[k'].value.0 != front[k].value.0
          {
            assert front[k'] == kvs[k'];
          }
          assert LastFor(front, k);
        }
      }
    }
  }

  /** The parse succeeds exactly when every line holds exactly one ':'. */
  lemma LineMapDefined(lines: seq<string>)
    ensures LineMap(lines).Some? <==> forall k :: 0 <= k < |lines| ==> Count(lines[k], ':') == 1
  {
    CollectDefined(Parsed(lines));
  }

  /** The stripped text before the first ':' of a line. */
  function LineKey(line: string): string
    requires ':' in line
  {
    Strip(line[..IndexOf(line, ':')])
  }

  /** The stripped text after the first ':' of a line. */
  function LineValue(line: string): string
    requires ':' in line
  {
    Strip(line[IndexOf(line, ':') + 1..])
  }

  /**
   * The line map, when there is one, has as keys exactly the stripped texts
   * before the ':', and each key holds the stripped text after the ':' of
   * the last line with that key.
   */
  lemma LineMapEntries(lines: seq<string>)
    requires LineMap(lines).Some?
    ensures forall k :: 0 <= k < |lines| ==> ':' in lines[k]
    ensures forall key :: key in LineMap(lines).value <==>
      exists k :: 0 <= k < |lines| && LineKey(lines[k]) == key
    ensures forall k :: 0 <= k < |lines| && (forall k' :: k < k' < |lines| ==> LineKey(lines[k']) != LineKey(lines[k])) ==>
      LineKey(lines[k]) in LineMap(lines).value && LineMap(lines).value[LineKey(lines[k])] == LineValue(lines[k])
  {
    var kvs := Parsed(lines);
    LineMapDefined(lines);
    forall k | 0 <= k < |lines|
      ensures ':' in lines[k] && kvs[k] == Some((LineKey(lines[k]), LineValue(lines[k])))
    {
      SplitLinePair(lines[k]);
    }
    CollectKeys(kvs);
    CollectLastWins(kvs);
    forall k | 0 <= k < |lines| && (forall k' :: k < k' < |lines| ==> LineKey(lines[k']) != LineKey(lines[k]))
      ensures LastFor(kvs, k)
    {
    }
  }

  // ---------------------------------------------------------------------
  // `__lscpu` as written: the handler's own failure keeps the partial dictionary

  /** How many pairs from the start are present. */
  function PresentPrefix(kvs: seq<Option<(string, string)>>): (n: nat)
    ensures n <= |kvs|
    ensures forall k :: 0 <= k < n ==> kvs[k].Some?
    ensures n < |kvs| ==> kvs[n].None?
  {
    if kvs == [] || kvs[0].None? then 0
    else
      var n := 1 + PresentPrefix(kvs[1..]);
      assert forall k :: 1 <= k < n ==> kvs[k] == kvs[1..][k - 1];
      n
  }

  /**
   * The dictionary `__lscpu` returns as written. On a malformed line the
   * handler's message reads `err.args[1]` of a one-argument `ValueError`; that
   * raises again before `lscpu_dict = None` runs, and the `return` in
   * `finally` drops the new exception, so the entries of the lines before
   * the malformed one are returned.
   */
  function LineMapAsWritten(lines: seq<string>): (d: map<string, string>)
  {
    var kvs := Parsed(lines);
    var n := PresentPrefix(kvs);
    CollectDefined(kvs[..n]);
    Collect(kvs[..n]).value
  }

  lemma ParsedConcat(a: seq<string>, b: seq<string>)
    ensures Parsed(a + b) == Parsed(a) + Parsed(b)
  {
  }

  lemma {:induction false} CollectStopsAtGap(p: seq<Option<(string, string)>>, q: seq<Option<(string, string)>>)
    requires forall k :: 0 <= k < |p| ==> p[k].Some?
    requires q != [] && q[0].None?
    ensures Collect(p + q).None? && Collect(p).Some?
    ensures PresentPrefix(p + q) == |p| && (p + q)[..|p|] == p
  {
    CollectDefined(p);
    CollectDefined(p + q);
    assert (p + q)[|p|] == q[0];
    assert forall k :: 0 <= k < |p| ==> (p + q)[k] == p[k];
  }

  /** The two agree on well-formed output; on malformed output only the intended one gives up. */
  lemma AsWrittenKeepsPrefix(good: seq<string>, bad: string, rest: seq<string>)
    requires forall k :: 0 <= k < |good| ==> Count(good[k], ':') == 1
    requires Count(bad, ':') != 1
    ensures LineMap(good + [bad] + rest).None?
    ensures LineMap(good).Some? && LineMapAsWritten(good + [bad] + rest) == LineMap(good).value
  {
    ParsedConcat(good, [bad] + rest);
    assert good + [bad] + rest == good + ([bad] + rest);
    CollectStopsAtGap(Parsed(good), Parsed([bad] + rest));
  }

  lemma AsWrittenAgrees(lines: seq<string>)
    requires LineMap(lines).Some?
    ensures LineMapAsWritten(lines) == LineMap(lines).value
  {
    var kvs := Parsed(lines);
    CollectDefined(kvs);
    assert PresentPrefix(kvs) == |kvs|;
    assert kvs[..|kvs|] == kvs;
  }
}
