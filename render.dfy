/**
 * Rendering of a placement as the single output line: every CPU id becomes
 * a doubled hexadecimal mask, a plain hexadecimal mask or a decimal id, and
 * the entries are joined with commas.
 */
module Render {
  import opened Wrappers
  import opened Strings
  import opened Numerals

  /** The three output forms. */
  datatype Form = HyperthreadMask | CoreMask | IdList

  /**
   * The branch choice of `main`: the doubled mask only when neither flag is
   * set, the plain mask for `--no-hyperthreads` alone, and the decimal list
   * whenever `--cpu-list` is set, also in the case the warning calls ignored.
   */
  function SelectForm(noHyperthreads: bool, cpuList: bool): (f: Form)
    ensures f == HyperthreadMask <==> !noHyperthreads && !cpuList
    ensures f == CoreMask <==> noHyperthreads && !cpuList
    ensures f == IdList <==> cpuList
  {
    if !noHyperthreads && !cpuList then HyperthreadMask
    else if noHyperthreads && !cpuList then CoreMask
    else IdList
  }

  /** Field width of the package front end, `int(totCores / 4)` or 1 below four cores. */
  function HexWidth(totalCores: int): (w: int)
    ensures w >= 1
    ensures totalCores >= 4 ==> w * 4 <= totalCores < w * 4 + 4
    ensures totalCores < 4 ==> w == 1
  {
    if totalCores >= 4 then totalCores / 4 else 1
  }

  /** The fixed field width of the top-level script. */
  const LegacyWidth: int := 32

  /** `f"{v:#0x}"`: "0x" and the hexadecimal digits, unpadded. */
  function PrefixedHex(v: nat): string {
    "0x" + Hex(v)
  }

  /** `f"{v:0{width}x}"`: the hexadecimal digits left-padded with zeros to `width`. */
  function PaddedHex(v: nat, width: int): string {
    ZeroPad(Hex(v), width)
  }

  /** The rendering of one CPU id. */
  function Entry(form: Form, width: int, n: nat): string {
    match form
    case HyperthreadMask => PrefixedHex(Pow(2, n)) + PaddedHex(Pow(2, n), width)
    case CoreMask => PrefixedHex(Pow(2, n))
    case IdList => Decimal(n)
  }

  function Entries(form: Form, width: int, plan: seq<nat>): (es: seq<string>)
    ensures |es| == |plan|
    ensures forall k :: 0 <= k < |plan| ==> es[k] == Entry(form, width, plan[k])
  {
    seq(|plan|, k requires 0 <= k < |plan| => Entry(form, width, plan[k]))
  }

  /** The printed line (without its newline): the entries joined with ','. */
  function Line(form: Form, width: int, plan: seq<nat>): string {
    Join(Entries(form, width, plan), ',')
  }

  function Max(a: int, b: int): int {
    if a >= b then a else b
  }

  /** A padded field is the zeros needed to reach `width`, then the digits. */
  lemma PaddedShape(v: nat, width: int)
    ensures PaddedHex(v, width) == Zeros(Max(width, |Hex(v)|) - |Hex(v)|) + Hex(v)
  {
    if |Hex(v)| >= width {
      assert Zeros(0) + Hex(v) == Hex(v);
    }
  }

  /**
   * Closed form of the masks: with d the digit of 2^(n mod 4) and z the
   * n / 4 zeros after it, the plain mask is "0x" d z and the doubled mask
   * repeats d z after it, zero-padded to max(width, n / 4 + 1) digits.
   */
  lemma MaskClosedForm(n: nat, width: int)
    ensures Entry(CoreMask, width, n) == "0x" + ([Pow2Digit(n)] + Zeros(n / 4))
    ensures Entry(HyperthreadMask, width, n) ==
      "0x" + ([Pow2Digit(n)] + Zeros(n / 4))
      + (Zeros(Max(width, n / 4 + 1) - (n / 4 + 1)) + ([Pow2Digit(n)] + Zeros(n / 4)))
    ensures |PaddedHex(Pow(2, n), width)| == Max(width, n / 4 + 1)
  {
    HexPow2(n);
    PaddedShape(Pow(2, n), width);
  }

  /** `e` is "0x" and the hexadecimal form of `v`. */
  predicate MaskField(e: string, v: nat)
  {
    2 <= |e| && e[..2] == "0x" && AllHexDigits(e[2..]) && HexValue(e[2..]) == v
  }

  /**
   * `e` is "0x", a hexadecimal field of value `v` ending at `cut`, and a
   * second hexadecimal field of value `v` and `len` digits.
   */
  predicate DoubledField(e: string, cut: int, v: nat, len: int)
  {
    2 <= cut <= |e| && e[..2] == "0x"
    && AllHexDigits(e[2..cut]) && HexValue(e[2..cut]) == v
    && AllHexDigits(e[cut..]) && HexValue(e[cut..]) == v
    && |e[cut..]| == len
  }

  /** The two fields of "0x" + h + p, for hexadecimal fields h and p of the same value. */
  lemma TwoFields(h: string, p: string, v: nat)
    requires AllHexDigits(h) && HexValue(h) == v
    requires AllHexDigits(p) && HexValue(p) == v
    ensures DoubledField("0x" + h + p, 2 + |h|, v, |p|)
  {
    var e := "0x" + h + p;
    assert e[..2] == "0x";
    assert e[2..2 + |h|] == h;
    assert e[2 + |h|..] == p;
  }

  /** Both hexadecimal fields of a doubled mask denote 2^n; the padded one has max(width, n / 4 + 1) digits. */
  lemma MaskFieldValues(n: nat, width: int)
    ensures |Hex(Pow(2, n))| == n / 4 + 1
    ensures AllHexDigits(Hex(Pow(2, n))) && HexValue(Hex(Pow(2, n))) == Pow(2, n)
    ensures AllHexDigits(PaddedHex(Pow(2, n), width)) && HexValue(PaddedHex(Pow(2, n), width)) == Pow(2, n)
    ensures |PaddedHex(Pow(2, n), width)| == Max(width, n / 4 + 1)
  {
    HexPow2(n);
    HexRoundTrip(Pow(2, n));
    ZeroPadValue(Hex(Pow(2, n)), width);
  }

  /** Both fields of a doubled mask denote 2^n; the second is at least `width` digits. */
  lemma HyperthreadFields(n: nat, width: int)
    ensures DoubledField(Entry(HyperthreadMask, width, n), 2 + n / 4 + 1, Pow(2, n), Max(width, n / 4 + 1))
  {
    MaskFieldValues(n, width);
    TwoFields(Hex(Pow(2, n)), PaddedHex(Pow(2, n), width), Pow(2, n));
  }

  /** A plain mask is "0x" followed by the hexadecimal form of 2^n. */
  lemma CoreMaskField(n: nat, width: int)
    ensures MaskField(Entry(CoreMask, width, n), Pow(2, n))
  {
    var e := Entry(CoreMask, width, n);
    assert e[2..] == Hex(Pow(2, n));
    HexRoundTrip(Pow(2, n));
  }

  lemma NoCommaInHex(s: string)
    requires AllHexDigits(s)
    ensures ',' !in s
  {
    forall k | 0 <= k < |s|
      ensures s[k] != ','
    {
      assert IsHexDigit(s[k]);
    }
  }

  lemma NoCommaInConcat(a: string, b: string)
    requires ',' !in a && ',' !in b
    ensures ',' !in a + b
  {
    forall k | 0 <= k < |a + b|
      ensures (a + b)[k] != ','
    {
      if k < |a| {
        assert (a + b)[k] == a[k];
      } else {
        assert (a + b)[k] == b[k - |a|];
      }
    }
  }

  lemma NoCommaInEntry(form: Form, width: int, n: nat)
    ensures ',' !in Entry(form, width, n)
  {
    var h := Hex(Pow(2, n));
    NoCommaInHex(h);
    NoCommaInConcat("0x", h);
    match form
    case IdList =>
      NoCommaInHex(Decimal(n));
    case CoreMask =>
    case HyperthreadMask =>
      var p := PaddedHex(Pow(2, n), width);
      ZeroPadValue(h, width);
      NoCommaInHex(p);
      NoCommaInConcat("0x" + h, p);
  }

  /**
   * The printed line splits on ',' back into exactly one entry per placed
   * id, in placement order; an empty placement prints an empty line.
   */
  lemma LineSplits(form: Form, width: int, plan: seq<nat>)
    ensures plan == [] ==> Line(form, width, plan) == ""
    ensures plan != [] ==> Split(Line(form, width, plan), ',') == Entries(form, width, plan)
  {
    if plan != [] {
      var es := Entries(form, width, plan);
      forall k | 0 <= k < |es|
        ensures ',' !in es[k]
      {
        NoCommaInEntry(form, width, plan[k]);
      }
      SplitJoin(es, ',');
    }
  }

  /**
   * In mask form, field k of the line is "0x" and the hexadecimal 2^id of
   * the k-th id; the doubled mask repeats 2^id in a field padded to at
   * least `width` digits.
   */
  lemma LineMaskField(form: Form, width: int, plan: seq<nat>, k: nat)
    requires form != IdList && k < |plan|
    ensures |Split(Line(form, width, plan), ',')| == |plan|
    ensures form == CoreMask ==>
      MaskField(Split(Line(form, width, plan), ',')[k], Pow(2, plan[k]))
    ensures form == HyperthreadMask ==>
      DoubledField(Split(Line(form, width, plan), ',')[k], 2 + plan[k] / 4 + 1, Pow(2, plan[k]),
        Max(width, plan[k] / 4 + 1))
  {
    LineSplits(form, width, plan);
    if form == CoreMask {
      CoreMaskField(plan[k], width);
    } else {
      HyperthreadFields(plan[k], width);
    }
  }

  /** In id-list form every comma-separated field reads back as its CPU id. */
  lemma IdListReadsBack(plan: seq<nat>, width: int, k: nat)
    requires k < |plan|
    ensures |Split(Line(IdList, width, plan), ',')| == |plan|
    ensures ParseNat(Split(Line(IdList, width, plan), ',')[k]) == Some(plan[k])
  {
    LineSplits(IdList, width, plan);
    ParseDecimal(plan[k]);
  }

  /** Examples: id 5 as a plain mask, and id 0 as a doubled mask of width 2. */
  lemma ExampleMasks()
    ensures Entry(CoreMask, 1, 5) == "0x20"
    ensures Entry(HyperthreadMask, HexWidth(8), 0) == "0x101"
  {
    MaskClosedForm(5, 1);
    assert Pow(2, 1) == 2 && Pow2Digit(5) == '2';
    MaskClosedForm(0, 2);
    assert Pow2Digit(0) == '1';
  }
}
