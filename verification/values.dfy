/**
 * JavaScript numbers as the dashboard's charts see them, and the few d3-array
 * helpers (`d3.max`, `d3.min`, `d3.extent`, `d3.sum`) the charts call on them.
 *
 * A number is either a finite value or non-finite; NaN, `undefined` (a missing
 * column) and ±Infinity are one alternative, because every chart treats them
 * nearly alike: `Number.isFinite` rejects them and `x || 0` replaces NaN and
 * `undefined` by 0. d3's reducers skip NaN and `undefined` but keep ±Infinity;
 * the reducers here skip all of them.
 */
module Values {

  datatype Option<T> = None | Some(value: T)

  /** A JavaScript number: a finite real, or one of NaN, `undefined`, ±Infinity. */
  datatype Num = Fin(v: real) | NonFinite

  /** JavaScript truthiness of a number: 0, NaN and `undefined` are falsy. */
  predicate Truthy(x: Num) {
    x.Fin? && x.v != 0.0
  }

  /** `x || d`: a falsy number is replaced by the fallback `d`. */
  function Or(x: Num, d: real): real {
    if Truthy(x) then x.v else d
  }

  /** `a + b`; a non-finite operand makes the sum non-finite. */
  function Add(a: Num, b: Num): Num {
    if a.Fin? && b.Fin? then Fin(a.v + b.v) else NonFinite
  }

  /** `a * b`. */
  function Mul(a: Num, b: Num): Num {
    if a.Fin? && b.Fin? then Fin(a.v * b.v) else NonFinite
  }

  /** `a / b`; dividing by zero gives NaN or ±Infinity, both non-finite. */
  function Div(a: Num, b: Num): Num {
    if a.Fin? && b.Fin? && b.v != 0.0 then Fin(a.v / b.v) else NonFinite
  }

  /** `x > c` for a finite constant `c`: false whenever `x` is NaN or `undefined`. */
  predicate Greater(x: Num, c: real) {
    x.Fin? && x.v > c
  }

  /** `xs.filter(Number.isFinite)`, as plain values. */
  function Finite(xs: seq<Num>): (r: seq<real>)
    ensures |r| <= |xs|
    ensures forall v :: v in r <==> Fin(v) in xs
  {
    if xs == [] then []
    else (if xs[0].Fin? then [xs[0].v] else []) + Finite(xs[1..])
  }

  /** The filter keeps each finite value as often as it occurs. */
  lemma {:induction false} FiniteCount(xs: seq<Num>, v: real)
    ensures multiset(Finite(xs))[v] == multiset(xs)[Fin(v)]
  {
    if xs != [] {
      FiniteCount(xs[1..], v);
      assert xs == [xs[0]] + xs[1..];
    }
  }

  function Max(s: seq<real>): (m: real)
    requires s != []
    ensures m in s
    ensures forall x :: x in s ==> x <= m
  {
    if |s| == 1 then s[0]
    else
      assert forall x :: x in s ==> x == s[0] || x in s[1..];
      var rest := Max(s[1..]); if s[0] >= rest then s[0] else rest
  }

  function Min(s: seq<real>): (m: real)
    requires s != []
    ensures m in s
    ensures forall x :: x in s ==> m <= x
  {
    if |s| == 1 then s[0]
    else
      assert forall x :: x in s ==> x == s[0] || x in s[1..];
      var rest := Min(s[1..]); if s[0] <= rest then s[0] else rest
  }

  /** `d3.max(xs)`: the largest finite value, `undefined` (None) when there is none. */
  function D3Max(xs: seq<Num>): (r: Option<real>)
    ensures r.None? <==> forall x :: x in xs ==> x.NonFinite?
    ensures r.Some? ==> Fin(r.value) in xs && forall x :: x in xs && x.Fin? ==> x.v <= r.value
  {
    var f := Finite(xs);
    if f == [] then None
    else
      Some(Max(f))
  }

  /** `d3.min(xs)`: the smallest finite value, `undefined` (None) when there is none. */
  function D3Min(xs: seq<Num>): (r: Option<real>)
    ensures r.None? <==> forall x :: x in xs ==> x.NonFinite?
    ensures r.Some? ==> Fin(r.value) in xs && forall x :: x in xs && x.Fin? ==> r.value <= x.v
  {
    var f := Finite(xs);
    if f == [] then None
    else
      Some(Min(f))
  }

  /** `d3.max(...) || d`: no maximum, or a maximum of 0, falls back to `d`. */
  function OrDefault(o: Option<real>, d: real): real {
    if o.Some? && o.value != 0.0 then o.value else d
  }

  function Sum(s: seq<real>): real {
    if s == [] then 0.0 else Sum(s[..|s| - 1]) + s[|s| - 1]
  }

  /** `d3.sum(xs)`: the sum of the finite values; NaN and `undefined` are skipped. */
  function D3Sum(xs: seq<Num>): real {
    Sum(Finite(xs))
  }

  lemma {:induction false} SumAppend(s: seq<real>, t: seq<real>)
    ensures Sum(s + t) == Sum(s) + Sum(t)
  {
    if t == [] {
      assert s + t == s;
    } else {
      assert (s + t)[..|s + t| - 1] == s + t[..|t| - 1];
      SumAppend(s, t[..|t| - 1]);
    }
  }

  lemma {:induction false} SumCons(x: real, s: seq<real>)
    ensures Sum([x] + s) == x + Sum(s)
  {
    SumAppend([x], s);
    assert Sum([x]) == Sum([]) + x;
  }

  lemma {:induction false} SumNonNegative(s: seq<real>)
    requires forall i :: 0 <= i < |s| ==> s[i] >= 0.0
    ensures Sum(s) >= 0.0
  {
    if s != [] {
      SumNonNegative(s[..|s| - 1]);
    }
  }

  lemma DivBetween(t: real, s: real, lo: real, hi: real)
    requires s > 0.0 && lo * s <= t <= hi * s
    ensures lo <= t / s <= hi
  {
    var q := t / s;
    assert q * s == t;
    assert (q - lo) * s == t - lo * s;
    assert (hi - q) * s == hi * s - t;
  }

  lemma MulMono(a: real, b: real, w: real)
    requires a <= b && w >= 0.0
    ensures a * w <= b * w
  {
    assert (b - a) * w >= 0.0;
  }

  lemma MulStrictMono(a: real, b: real, w: real)
    requires a < b && w > 0.0
    ensures a * w < b * w
  {
    assert (b - a) * w > 0.0;
  }

  /** Adding a term v·w with lo ≤ v ≤ hi and w ≥ 0 keeps lo·Σw ≤ Σv·w ≤ hi·Σw. */
  lemma WeightedStep(lo: real, hi: real, a: real, b: real, v: real, w: real)
    requires lo * a <= b <= hi * a
    requires lo <= v <= hi && w >= 0.0
    ensures lo * (a + w) <= b + v * w <= hi * (a + w)
  {
    MulMono(lo, v, w);
    MulMono(v, hi, w);
  }
}
