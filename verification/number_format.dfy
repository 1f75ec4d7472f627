/**
 * The two Catalan-style number formatters of the overview pie and the
 * demographic chart: `Number(value).toFixed(decimals)`, split at its '.',
 * with a '.' inserted between every three digits of the integer part
 * (`/\B(?=(\d{3})+(?!\d))/g`) and ',' before the decimals.
 */
module NumberFormat {
  import opened Text

  /** 10^f as a natural number. */
  function Scale(f: nat): (p: nat)
    ensures p >= 1
  {
    if f == 0 then 1 else 10 * Scale(f - 1)
  }

  function Abs(x: real): (a: real)
    ensures a >= 0.0
  {
    if x < 0.0 then -x else x
  }

  /** |x| · 10^f, the quantity `toFixed(f)` rounds. */
  function Shifted(x: real, f: nat): (y: real)
    ensures y >= 0.0
  {
    var a := Abs(x);
    var s := Scale(f) as real;
    assert a * s >= 0.0 by {
      assert a * s == a * (s - 1.0) + a;
      assert a * (s - 1.0) >= 0.0;
    }
    a * s
  }

  /**
   * The integer `n` closest to `x`, the larger one when two are equally
   * close: the rounding `toFixed` applies to `x · 10^f`.
   */
  function RoundHalfUp(x: real): (n: nat)
    requires x >= 0.0
    ensures n as real - 0.5 <= x < n as real + 0.5
  {
    (x + 0.5).Floor
  }

  function Zeros(k: nat): (z: string)
    ensures |z| == k && AllDigits(z)
    ensures forall i :: 0 <= i < k ==> z[i] == '0'
  {
    if k == 0 then [] else Zeros(k - 1) + "0"
  }

  /** The result of `toFixed`, split at its '.': the sign, the integer digits and the fraction digits. */
  datatype Fixed = Fixed(negative: bool, intDigits: string, fracDigits: string)

  /** The largest magnitude `toFixed` writes without exponent notation. */
  const ToFixedLimit: real := 1000000000000000000000.0

  /**
   * `x.toFixed(f)` for |x| < 10^21: the integer nearest to |x|·10^f (ties
   * upwards) written with at least one integer digit and exactly `f`
   * fraction digits, and a '-' for a negative `x` even when that integer is 0.
   */
  function ToFixed(x: real, f: nat): (r: Fixed)
    requires -ToFixedLimit < x < ToFixedLimit
    ensures r.negative <==> x < 0.0
    ensures AllDigits(r.intDigits) && |r.intDigits| >= 1
    ensures AllDigits(r.fracDigits) && |r.fracDigits| == f
    ensures DigitsValue(r.intDigits) * Scale(f) + DigitsValue(r.fracDigits) == RoundHalfUp(Shifted(x, f))
  {
    var n := RoundHalfUp(Shifted(x, f));
    var padded := Padded(NatDigits(n), f);
    NatDigitsValue(n);
    var k := |padded| - f;
    SplitValue(padded, k);
    Fixed(x < 0.0, padded[..k], padded[k..])
  }

  /** The digits with leading zeros added up to `f + 1` of them (the `k <= f` step of `toFixed`). */
  function Padded(m: string, f: nat): (p: string)
    requires AllDigits(m)
    ensures AllDigits(p) && |p| >= f + 1 && |p| >= |m|
    ensures DigitsValue(p) == DigitsValue(m)
  {
    if |m| <= f then
      DigitsValueAppend(Zeros(f + 1 - |m|), m);
      ZerosValue(f + 1 - |m|);
      Zeros(f + 1 - |m|) + m
    else m
  }

  lemma SplitValue(p: string, k: nat)
    requires AllDigits(p) && k <= |p|
    ensures DigitsValue(p[..k]) * Scale(|p| - k) + DigitsValue(p[k..]) == DigitsValue(p)
  {
    assert p == p[..k] + p[k..];
    DigitsValueAppend(p[..k], p[k..]);
  }

  lemma {:induction false} DigitsValueAppend(a: string, b: string)
    requires AllDigits(a) && AllDigits(b)
    ensures AllDigits(a + b)
    ensures DigitsValue(a + b) == DigitsValue(a) * Scale(|b|) + DigitsValue(b)
  {
    AllDigitsAppend(a, b);
    if b == [] {
      assert a + b == a;
    } else {
      var init, c := b[..|b| - 1], b[|b| - 1];
      assert b == init + [c];
      assert AllDigits(init) && IsDigit(c);
      DigitsValueAppend(a, init);
      assert a + b == (a + init) + [c];
      DigitsSnoc(a + init, c);
      DigitsSnoc(init, c);
      Regroup(DigitsValue(a), DigitsValue(init), Scale(|init|), DigitValue(c));
    }
  }

  /** One more digit on the right multiplies by ten and adds it. */
  lemma DigitsSnoc(s: string, c: char)
    requires AllDigits(s) && IsDigit(c)
    ensures AllDigits(s + [c])
    ensures DigitsValue(s + [c]) == 10 * DigitsValue(s) + DigitValue(c)
  {
    assert (s + [c])[..|s|] == s;
  }

  lemma AllDigitsAppend(a: string, b: string)
    requires AllDigits(a) && AllDigits(b)
    ensures AllDigits(a + b)
  {
    var ab := a + b;
    forall i | 0 <= i < |ab| ensures IsDigit(ab[i]) {
      if i < |a| {
        assert ab[i] == a[i];
      } else {
        assert ab[i] == b[i - |a|];
      }
    }
  }

  lemma Regroup(a: nat, b: nat, s: nat, d: nat)
    ensures 10 * (a * s + b) + d == a * (10 * s) + (10 * b + d)
  {
    assert 10 * (a * s) == a * (10 * s);
  }

  lemma {:induction false} ZerosValue(k: nat)
    ensures DigitsValue(Zeros(k)) == 0
  {
    if k > 0 {
      ZerosValue(k - 1);
      assert Zeros(k)[..k - 1] == Zeros(k - 1);
    }
  }

  /**
   * `/\B(?=(\d{3})+(?!\d))/g` replaced by '.' on a run of digits: a '.'
   * before every group of three digits counted from the right, none in front.
   */
  function Group(ds: string): (t: string)
  {
    if |ds| <= 3 then ds else Group(ds[..|ds| - 3]) + "." + ds[|ds| - 3..]
  }

  /**
   * Digits in groups of three separated by '.', the first group holding one
   * to three digits: counted from the right, every fourth character is the
   * separator.
   */
  predicate Grouped(t: string) {
    && |t| % 4 != 0
    && (forall i :: 0 <= i < |t| ==> (t[i] == '.' <==> (|t| - i) % 4 == 0))
    && (forall i :: 0 <= i < |t| && t[i] != '.' ==> IsDigit(t[i]))
  }

  lemma {:induction false} GroupShape(ds: string)
    requires AllDigits(ds) && |ds| >= 1
    ensures Grouped(Group(ds))
    ensures |Group(ds)| == |ds| + (|ds| - 1) / 3
    decreases |ds|
  {
    if |ds| > 3 {
      var pre, post := ds[..|ds| - 3], ds[|ds| - 3..];
      GroupShape(pre);
      assert AllDigits(post) by {
        forall i | 0 <= i < |post| ensures IsDigit(post[i]) {
          assert post[i] == ds[|ds| - 3 + i];
        }
      }
      GroupedExtend(Group(pre), post);
    }
  }

  /** A grouped string stays grouped with '.' and three more digits appended. */
  lemma GroupedExtend(g: string, post: string)
    requires Grouped(g) && |post| == 3 && AllDigits(post)
    ensures Grouped(g + "." + post)
  {
    var t := g + "." + post;
    forall i | 0 <= i < |t| ensures (t[i] == '.' <==> (|t| - i) % 4 == 0) {
      if i < |g| {
        assert t[i] == g[i];
        assert |t| - i == (|g| - i) + 4;
      } else if i > |g| {
        assert t[i] == post[i - |g| - 1];
      }
    }
    forall i | 0 <= i < |t| && t[i] != '.' ensures IsDigit(t[i]) {
      if i < |g| {
        assert t[i] == g[i];
      } else if i > |g| {
        assert t[i] == post[i - |g| - 1];
      }
    }
  }

  /** The string with every '.' deleted. */
  function RemoveDots(s: string): (r: string)
  {
    if s == [] then []
    else
      var init := RemoveDots(s[..|s| - 1]);
      if s[|s| - 1] == '.' then init else init + [s[|s| - 1]]
  }

  lemma {:induction false} RemoveDotsAppend(a: string, b: string)
    ensures RemoveDots(a + b) == RemoveDots(a) + RemoveDots(b)
  {
    if b == [] {
      assert a + b == a;
    } else {
      var init := b[..|b| - 1];
      assert (a + b)[..|a + b| - 1] == a + init;
      RemoveDotsAppend(a, init);
    }
  }

  lemma {:induction false} RemoveDotsDigits(ds: string)
    requires AllDigits(ds)
    ensures RemoveDots(ds) == ds
  {
    if ds != [] {
      RemoveDotsDigits(ds[..|ds| - 1]);
      assert ds == ds[..|ds| - 1] + [ds[|ds| - 1]];
    }
  }

  /** Deleting the separators gives back the digits. */
  lemma {:induction false} UngroupGroup(ds: string)
    requires AllDigits(ds)
    ensures RemoveDots(Group(ds)) == ds
    decreases |ds|
  {
    if |ds| <= 3 {
      RemoveDotsDigits(ds);
    } else {
      var pre := ds[..|ds| - 3];
      var post := ds[|ds| - 3..];
      UngroupGroup(pre);
      RemoveDotsAppend(Group(pre) + ".", post);
      RemoveDotsAppend(Group(pre), ".");
      assert RemoveDots(".") == [] by {
        assert ".."[..0] == [];
      }
      RemoveDotsDigits(post);
      assert pre + post == ds;
    }
  }

  /** `withThousands`: the sign of `toFixed` followed by its grouped integer digits. */
  function WithThousands(fx: Fixed): string {
    (if fx.negative then "-" else "") + Group(fx.intDigits)
  }

  /**
   * The overview pie's `formatNumber(value, decimals = 2)`. It always
   * appends ',' and the second half of the split, which `toFixed(0)` does
   * not have, so `decimals = 0` would end in ",undefined".
   */
  function PieFormat(x: real, decimals: nat): string
    requires -ToFixedLimit < x < ToFixedLimit
  {
    var fx := ToFixed(x, decimals);
    WithThousands(fx) + "," + (if decimals > 0 then fx.fracDigits else "undefined")
  }

  /** The demographic chart's `formatNumber(value, decimals = 0)`: no ',' part without decimals. */
  function DemographicFormat(x: real, decimals: nat): string
    requires -ToFixedLimit < x < ToFixedLimit
  {
    var fx := ToFixed(x, decimals);
    if decimals > 0 then WithThousands(fx) + "," + fx.fracDigits else WithThousands(fx)
  }

  /**
   * The pie's text reads back as the rounded value: a sign for negative
   * values, digits grouped by three, ',' and exactly `decimals` digits that
   * together denote |x|·10^decimals rounded to the nearest integer.
   */
  lemma PieFormatReadsBack(x: real, decimals: nat)
    requires -ToFixedLimit < x < ToFixedLimit && decimals > 0
    ensures exists g, frac ::
      && PieFormat(x, decimals) == (if x < 0.0 then "-" else "") + g + "," + frac
      && Grouped(g) && |frac| == decimals && AllDigits(frac) && AllDigits(RemoveDots(g))
      && DigitsValue(RemoveDots(g)) * Scale(decimals) + DigitsValue(frac) == RoundHalfUp(Shifted(x, decimals))
  {
    var fx := ToFixed(x, decimals);
    GroupShape(fx.intDigits);
    UngroupGroup(fx.intDigits);
    var g := Group(fx.intDigits);
    assert PieFormat(x, decimals) == (if x < 0.0 then "-" else "") + g + "," + fx.fracDigits;
  }

  /**
   * Without decimals the demographic text is only the grouped integer part,
   * which reads back as |x| rounded to the nearest integer.
   */
  lemma DemographicFormatReadsBack(x: real)
    requires -ToFixedLimit < x < ToFixedLimit
    ensures ',' !in DemographicFormat(x, 0)
    ensures exists g ::
      && DemographicFormat(x, 0) == (if x < 0.0 then "-" else "") + g
      && Grouped(g) && AllDigits(RemoveDots(g))
      && DigitsValue(RemoveDots(g)) == RoundHalfUp(Abs(x))
  {
    var fx := ToFixed(x, 0);
    ToFixedWhole(x);
    GroupShape(fx.intDigits);
    UngroupGroup(fx.intDigits);
    var g := Group(fx.intDigits);
    var sign := if x < 0.0 then "-" else "";
    assert DemographicFormat(x, 0) == sign + g;
    GroupedNoComma(g);
    assert ',' !in sign;
  }

  /** `toFixed(0)`: no fraction digits, and the integer digits denote |x| rounded. */
  lemma ToFixedWhole(x: real)
    requires -ToFixedLimit < x < ToFixedLimit
    ensures ToFixed(x, 0).fracDigits == []
    ensures DigitsValue(ToFixed(x, 0).intDigits) == RoundHalfUp(Abs(x))
  {
    assert Shifted(x, 0) == Abs(x);
  }

  lemma GroupedNoComma(g: string)
    requires Grouped(g)
    ensures ',' !in g
  {
    forall i | 0 <= i < |g| ensures g[i] != ',' {
      if g[i] != '.' {
        assert IsDigit(g[i]);
      }
    }
  }

  /** With decimals the demographic formatter writes what the pie's does. */
  lemma FormattersAgree(x: real, decimals: nat)
    requires -ToFixedLimit < x < ToFixedLimit && decimals > 0
    ensures DemographicFormat(x, decimals) == PieFormat(x, decimals)
  {
  }
}
