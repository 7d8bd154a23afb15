/**
 * The CPU-list parser `__str2range` of `CPU_Info`: a string such as
 * "0-3,8,10-11" is split on ',' and every piece on '-'; each piece
 * contributes the inclusive run from its first to its last number.
 */
module CpuRanges {
  import opened Wrappers
  import opened Strings
  import opened Numerals

  /** `[*range(a, b + 1)]`: a, a + 1, ..., b, and nothing when a > b. */
  function Interval(a: nat, b: nat): (r: seq<nat>)
    ensures |r| == if a <= b then b - a + 1 else 0
    ensures forall k :: 0 <= k < |r| ==> r[k] == a + k
    decreases b - a
  {
    if a > b then [] else [a] + Interval(a + 1, b)
  }

  /** `list(map(int, tokens))`: every token is converted, or `ValueError`. */
  function ParseTokens(tokens: seq<string>): (r: Option<seq<nat>>)
    ensures r.Some? ==> |r.value| == |tokens|
  {
    if tokens == [] then Some([])
    else
      match (ParseNat(tokens[0]), ParseTokens(tokens[1..]))
      case (Some(n), Some(ns)) => Some([n] + ns)
      case _ => None
  }

  /** Every token is converted, in order, or the conversion fails. */
  lemma {:induction false} ParseTokensSpec(tokens: seq<string>)
    ensures ParseTokens(tokens).Some? <==> forall k :: 0 <= k < |tokens| ==> ParseNat(tokens[k]).Some?
    ensures ParseTokens(tokens).Some? ==>
      forall k :: 0 <= k < |tokens| ==> Some(ParseTokens(tokens).value[k]) == ParseNat(tokens[k])
  {
    if tokens != [] {
      ParseTokensSpec(tokens[1..]);
      assert forall k :: 1 <= k < |tokens| ==> tokens[k] == tokens[1..][k - 1];
    }
  }

  /** One comma-separated piece: only its first and last numbers are used. */
  function ExpandPiece(piece: string): (r: Option<seq<nat>>)
    ensures r.Some? <==> ParseTokens(Split(piece, '-')).Some?
  {
    match ParseTokens(Split(piece, '-'))
    case None => None
    case Some(lr) => Some(Interval(lr[0], lr[|lr| - 1]))
  }

  /**
   * A piece whose numbers are `first`, ..., `last` contributes
   * max(0, last - first + 1) ids, counting up from `first`.
   */
  lemma ExpandPieceRun(piece: string)
    requires ParseTokens(Split(piece, '-')).Some?
    ensures
      var lr := ParseTokens(Split(piece, '-')).value;
      var first, last := lr[0], lr[|lr| - 1];
      var run := ExpandPiece(piece).value;
      |run| == (if first <= last then last - first + 1 else 0)
      && forall k :: 0 <= k < |run| ==> run[k] == first + k
  {
  }

  /** The expansion of each piece, in input order. */
  function Runs(pieces: seq<string>): (runs: seq<Option<seq<nat>>>)
    ensures |runs| == |pieces|
    ensures forall k :: 0 <= k < |pieces| ==> runs[k] == ExpandPiece(pieces[k])
  {
    seq(|pieces|, k requires 0 <= k < |pieces| => ExpandPiece(pieces[k]))
  }

  /** `ranges.extend(run)`, where a failure on either side propagates. */
  function Extend(front: Option<seq<nat>>, back: Option<seq<nat>>): Option<seq<nat>>
  {
    if front.Some? && back.Some? then Some(front.value + back.value) else None
  }

  /** The runs concatenated in order; any failed run fails the lot. */
  function Concat(runs: seq<Option<seq<nat>>>): Option<seq<nat>>
  {
    if runs == [] then Some([]) else Extend(Concat(runs[..|runs| - 1]), runs[|runs| - 1])
  }

  /** `__str2range(s)` as a value. */
  function ExpandRanges(s: string): Option<seq<nat>>
  {
    Concat(Runs(Split(s, ',')))
  }

  lemma {:induction false} ConcatAppend(p: seq<Option<seq<nat>>>, q: seq<Option<seq<nat>>>)
    ensures Concat(p + q) == Extend(Concat(p), Concat(q))
    decreases |q|
  {
    if q == [] {
      assert p + q == p;
      if Concat(p).Some? {
        assert Concat(p).value + [] == Concat(p).value;
      }
    } else {
      var q' := q[..|q| - 1];
      ConcatAppend(p, q');
      var pq := p + q;
      assert pq[..|pq| - 1] == p + q';
      assert pq[|pq| - 1] == q[|q| - 1];
      var a, b, c := Concat(p), Concat(q'), q[|q| - 1];
      if a.Some? && b.Some? && c.Some? {
        assert a.value + b.value + c.value == a.value + (b.value + c.value);
      }
    }
  }

  /** `__str2range`: the loop over the comma-separated pieces extends `ranges`. */
  method Str2Range(s: string) returns (r: Option<seq<nat>>)
    ensures r == ExpandRanges(s)
  {
    var rangesIn := Split(s, ',');
    ghost var runs := Runs(rangesIn);
    var ranges: seq<nat> := [];
    for i := 0 to |rangesIn|
      invariant Concat(runs[..i]) == Some(ranges)
    {
      assert runs[..i + 1][..i] == runs[..i];
      var lr := ParseTokens(Split(rangesIn[i], '-'));
      if lr.None? {
        ConcatAppend(runs[..i + 1], runs[i + 1..]);
        assert runs[..i + 1] + runs[i + 1..] == runs;
        return None;
      }
      ranges := ranges + Interval(lr.value[0], lr.value[|lr.value| - 1]);
    }
    assert runs[..|rangesIn|] == runs;
    r := Some(ranges);
  }

  /** Pieces are expanded independently and their runs concatenated in input order. */
  lemma ExpandRangesComma(s1: string, s2: string)
    ensures ExpandRanges(s1 + "," + s2) == Extend(ExpandRanges(s1), ExpandRanges(s2))
  {
    var p1, p2 := Split(s1, ','), Split(s2, ',');
    SplitConcat(s1, s2, ',');
    assert Runs(p1 + p2) == Runs(p1) + Runs(p2);
    ConcatAppend(Runs(p1), Runs(p2));
  }

  lemma {:induction false} ConcatFails(runs: seq<Option<seq<nat>>>)
    ensures Concat(runs).None? <==> exists k :: 0 <= k < |runs| && runs[k].None?
    decreases |runs|
  {
    if runs != [] {
      var front := runs[..|runs| - 1];
      ConcatFails(front);
      if Concat(front).None? {
        var k :| 0 <= k < |front| && front[k].None?;
        assert runs[k] == front[k];
      }
      if exists k :: 0 <= k < |runs| && runs[k].None? {
        var k :| 0 <= k < |runs| && runs[k].None?;
        if k < |front| {
          assert front[k] == runs[k];
        }
      }
    }
  }

  /**
   * A failure is all-or-nothing: there is no result exactly when some
   * token of some piece is not a number, so no partial list is returned.
   */
  lemma ExpandRangesFails(s: string)
    ensures ExpandRanges(s).None? <==>
      exists k :: 0 <= k < |Split(s, ',')| && ParseTokens(Split(Split(s, ',')[k], '-')).None?
  {
    ConcatFails(Runs(Split(s, ',')));
  }

  /** The total length is the sum of the run lengths of the pieces. */
  lemma {:induction false} ConcatLength(runs: seq<Option<seq<nat>>>)
    requires Concat(runs).Some?
    ensures forall k :: 0 <= k < |runs| ==> runs[k].Some?
    ensures |Concat(runs).value| == TotalLength(runs)
    decreases |runs|
  {
    ConcatFails(runs);
    if runs != [] {
      ConcatLength(runs[..|runs| - 1]);
    }
  }

  /** Sum of the lengths of runs that are all present. */
  function TotalLength(runs: seq<Option<seq<nat>>>): nat
    requires forall k :: 0 <= k < |runs| ==> runs[k].Some?
  {
    if runs == [] then 0 else TotalLength(runs[..|runs| - 1]) + |runs[|runs| - 1].value|
  }

  /** The decimal tokens of a list of numbers. */
  function Decimals(ns: seq<nat>): (tokens: seq<string>)
    ensures |tokens| == |ns|
  {
    if ns == [] then [] else [Decimal(ns[0])] + Decimals(ns[1..])
  }

  /** Tokens printed by `str` are read back by `int` to the same numbers. */
  lemma {:induction false} ParseDecimals(ns: seq<nat>)
    ensures ParseTokens(Decimals(ns)) == Some(ns)
  {
    if ns != [] {
      ParseDecimals(ns[1..]);
      ParseDecimal(ns[0]);
      var tokens := Decimals(ns);
      assert tokens[0] == Decimal(ns[0]) && tokens[1..] == Decimals(ns[1..]);
      assert [ns[0]] + ns[1..] == ns;
    }
  }

  /**
   * A piece "n0-n1-...-nk" expands to the inclusive run n0..nk: only the
   * first and the last number count, the ones between are parsed and dropped.
   */
  lemma ExpandNumbers(ns: seq<nat>)
    requires |ns| >= 1
    ensures ExpandPiece(Join(Decimals(ns), '-')) == Some(Interval(ns[0], ns[|ns| - 1]))
  {
    var tokens := Decimals(ns);
    forall k | 0 <= k < |tokens|
      ensures '-' !in tokens[k]
    {
      DecimalsAt(ns, k);
    }
    SplitJoin(tokens, '-');
    ParseDecimals(ns);
  }

  lemma {:induction false} DecimalsAt(ns: seq<nat>, k: nat)
    requires k < |ns|
    ensures Decimals(ns)[k] == Decimal(ns[k]) && '-' !in Decimals(ns)[k]
  {
    if k > 0 {
      DecimalsAt(ns[1..], k - 1);
    }
    assert !IsDigit('-');
  }

  /** A piece "a-b" expands to the inclusive run a..b (empty when a > b). */
  lemma ExpandRun(a: nat, b: nat)
    ensures ExpandPiece(Decimal(a) + "-" + Decimal(b)) == Some(Interval(a, b))
  {
    assert Decimals([a, b]) == [Decimal(a), Decimal(b)] by {
      assert [a, b][1..] == [b];
      assert [b][1..] == [];
    }
    assert Join([Decimal(a), Decimal(b)], '-') == Decimal(a) + "-" + Decimal(b);
    ExpandNumbers([a, b]);
  }

  /** A piece holding one number n expands to [n]. */
  lemma ExpandSingle(n: nat)
    ensures ExpandPiece(Decimal(n)) == Some([n])
  {
    assert Decimals([n]) == [Decimal(n)] by {
      assert [n][1..] == [];
    }
    assert Join([Decimal(n)], '-') == Decimal(n);
    ExpandNumbers([n]);
    assert Interval(n + 1, n) == [];
    assert Interval(n, n) == [n] + [] == [n];
  }

  /** A piece with an empty token, such as a leading '-', raises. */
  lemma LeadingDashFails(rest: string)
    ensures ExpandPiece("-" + rest).None?
  {
    SplitPrepend("", rest, '-');
    assert "" + "-" + rest == "-" + rest;
  }
}
