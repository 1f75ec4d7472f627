/**
 * The statistics behind the province box plots: the year and positivity
 * filter, the four fixed province groups, type-7 quantiles of each sorted
 * group, Tukey whiskers clamped to the sample, outliers, and the y domain
 * (a power-of-ten log domain for population and density, a padded linear
 * one otherwise) with its log ticks.
 */
module Boxplot {
  import opened Values
  import opened Seqs
  import opened Sorting
  import opened Records

  /** The metrics of the selector. */
  datatype Metric = Poblacio | Densitat | Superficie | TonesSelectiva | TonesNoSelectiva

  /** `metrics[m].accessor`: density is population over surface, NaN or ±Infinity when that fails. */
  function Accessor(m: Metric, r: Record): Num {
    match m
    case Poblacio => r.poblacio
    case Densitat => Div(r.poblacio, r.superficieKm2)
    case Superficie => r.superficieKm2
    case TonesSelectiva => r.tonesSelectiva
    case TonesNoSelectiva => r.tonesNoSelectiva
  }

  predicate YearDependent(m: Metric) {
    m != Superficie
  }

  /** The surface does not change over time, so its plot always uses 2021. */
  function ChosenYear(m: Metric, slider: int): (year: int)
    ensures !YearDependent(m) ==> year == 2021
    ensures YearDependent(m) ==> year == slider
  {
    if YearDependent(m) then slider else 2021
  }

  /** The fixed groups, in drawing order. */
  const Provincies: seq<string> := ["Barcelona", "Girona", "Lleida", "Tarragona"]

  /** `d => d.any === year && accessor(d) > 0`. */
  function IncludedIn(m: Metric, year: int): Record -> bool {
    (r: Record) => r.any == year && Greater(Accessor(m, r), 0.0)
  }

  /** `data.filter(d => d.any === year && accessor(d) > 0)`. */
  function Included(data: seq<Record>, m: Metric, year: int): (rows: seq<Record>)
    ensures forall r :: r in rows <==> r in data && r.any == year && Greater(Accessor(m, r), 0.0)
  {
    Filter(data, IncludedIn(m, year))
  }

  /** `d => d.provincia === p`. */
  function InProvince(p: string): Record -> bool {
    (r: Record) => r.provincia == p
  }

  /** `metricInfo.accessor`. */
  function AccessorOf(m: Metric): Record -> Num {
    (r: Record) => Accessor(m, r)
  }

  /** A record of province `p` whose metric is the finite value `v`. */
  function Matching(m: Metric, p: string, v: real): Record -> bool {
    (r: Record) => r.provincia == p && Accessor(m, r) == Fin(v)
  }

  /** A record of the year and of province `p` whose metric is the positive value `v`. */
  function MatchingIn(m: Metric, year: int, p: string, v: real): Record -> bool {
    (r: Record) => r.any == year && r.provincia == p && Accessor(m, r) == Fin(v) && v > 0.0
  }

  /**
   * `rows.filter(d => d.provincia === p).map(accessor).filter(Number.isFinite)`:
   * every finite value of the province's rows, as often as rows carry it.
   */
  function GroupValues(rows: seq<Record>, m: Metric, p: string): (vs: seq<real>)
    ensures forall v :: v in vs <==> exists r :: r in rows && r.provincia == p && Accessor(m, r) == Fin(v)
    ensures forall v :: multiset(vs)[v] == |Filter(rows, Matching(m, p, v))|
  {
    var own := Filter(rows, InProvince(p));
    var xs := Map(own, AccessorOf(m));
    assert forall x :: x in xs <==> exists r :: r in own && AccessorOf(m)(r) == x by {
      forall x ensures x in xs <==> exists r :: r in own && AccessorOf(m)(r) == x {
        MapHas(own, AccessorOf(m), x);
      }
    }
    assert forall v :: multiset(Finite(xs))[v] == |Filter(rows, Matching(m, p, v))| by {
      forall v ensures multiset(Finite(xs))[v] == |Filter(rows, Matching(m, p, v))| {
        FiniteCount(xs, v);
        ProvinceValueCount(rows, m, p, v);
      }
    }
    Finite(xs)
  }

  /** The province's metric values hold `Fin(v)` once per matching row. */
  lemma {:induction false} ProvinceValueCount(rows: seq<Record>, m: Metric, p: string, v: real)
    ensures multiset(Map(Filter(rows, InProvince(p)), AccessorOf(m)))[Fin(v)] == |Filter(rows, Matching(m, p, v))|
  {
    if rows != [] {
      var init := rows[..|rows| - 1];
      var x := rows[|rows| - 1];
      assert rows == init + [x];
      ProvinceValueCount(init, m, p, v);
      FilterSnoc(init, x, InProvince(p));
      FilterSnoc(init, x, Matching(m, p, v));
      MapSnoc(Filter(init, InProvince(p)), x, AccessorOf(m));
    }
  }

  /** Counting matches among the included rows counts the matches of the year with a positive value. */
  lemma {:induction false} IncludedCount(data: seq<Record>, m: Metric, year: int, p: string, v: real)
    ensures |Filter(Included(data, m, year), Matching(m, p, v))| == |Filter(data, MatchingIn(m, year, p, v))|
  {
    if data != [] {
      var init := data[..|data| - 1];
      var x := data[|data| - 1];
      assert data == init + [x];
      IncludedCount(init, m, year, p, v);
      FilterSnoc(init, x, IncludedIn(m, year));
      FilterSnoc(Included(init, m, year), x, Matching(m, p, v));
      FilterSnoc(init, x, MatchingIn(m, year, p, v));
    }
  }

  datatype Group = Group(provincia: string, values: seq<real>)

  /**
   * `dataByProvincia`: one group per fixed province, in the fixed order, each
   * holding every positive finite value of its records of the year, as often
   * as records carry it.
   */
  function Groups(data: seq<Record>, m: Metric, slider: int): (gs: seq<Group>)
    ensures |gs| == |Provincies|
    ensures forall i :: 0 <= i < |gs| ==> gs[i].provincia == Provincies[i]
    ensures forall i, v :: 0 <= i < |gs| ==>
      (v in gs[i].values <==>
        exists r :: r in data && r.any == ChosenYear(m, slider) && r.provincia == Provincies[i]
          && Accessor(m, r) == Fin(v) && v > 0.0)
    ensures forall i, v :: 0 <= i < |gs| ==>
      multiset(gs[i].values)[v] == |Filter(data, MatchingIn(m, ChosenYear(m, slider), Provincies[i], v))|
  {
    var year := ChosenYear(m, slider);
    var rows := Included(data, m, year);
    var gs := Map(Provincies, p => Group(p, GroupValues(rows, m, p)));
    assert forall i, v :: 0 <= i < |gs| ==>
      multiset(gs[i].values)[v] == |Filter(data, MatchingIn(m, year, Provincies[i], v))| by {
      forall i, v | 0 <= i < |gs|
        ensures multiset(gs[i].values)[v] == |Filter(data, MatchingIn(m, year, Provincies[i], v))|
      {
        IncludedCount(data, m, year, Provincies[i], v);
      }
    }
    gs
  }

  /** Every plotted value is positive. */
  lemma GroupValuesPositive(data: seq<Record>, m: Metric, slider: int, g: Group, v: real)
    requires g in Groups(data, m, slider) && v in g.values
    ensures v > 0.0
  {
    var gs := Groups(data, m, slider);
    var i :| 0 <= i < |gs| && gs[i] == g;
  }

  ghost predicate Ascending(s: seq<real>) {
    forall i, j :: 0 <= i < j < |s| ==> s[i] <= s[j]
  }

  function Neg(x: real): real {
    -x
  }

  /** `values.slice().sort(d3.ascending)`: a sorted copy of the same values. */
  function SortedCopy(values: seq<real>): (s: seq<real>)
    ensures |s| == |values|
    ensures multiset(s) == multiset(values)
    ensures Ascending(s)
  {
    var s := SortDesc(values, Neg);
    SortDescMultiset(values, Neg);
    assert forall i, j :: 0 <= i < j < |s| ==> Neg(s[i]) >= Neg(s[j]);
    s
  }

  /**
   * `d3.quantile(sorted, p)`, the type-7 estimate: the value at fractional
   * rank (n-1)·p, interpolated linearly between its two neighbours.
   */
  function Quantile(s: seq<real>, p: real): (q: real)
    requires s != []
  {
    var n := |s|;
    if p <= 0.0 || n < 2 then Min(s)
    else if p >= 1.0 then Max(s)
    else
      var i0 := RankFloor(n, p);
      Lerp(s[i0], s[i0 + 1], Rank(n, p) - i0 as real)
  }

  /** The fractional rank `(n - 1) * p`. */
  function Rank(n: nat, p: real): real {
    (n - 1) as real * p
  }

  /** `value0 + (value1 - value0) * (i - i0)`. */
  function Lerp(a: real, b: real, f: real): real {
    a + (b - a) * f
  }

  /** `Math.floor((n - 1) * p)` for 0 < p < 1: a rank with a successor. */
  function RankFloor(n: nat, p: real): (i0: nat)
    requires n >= 2 && 0.0 < p < 1.0
    ensures i0 as real <= Rank(n, p) < i0 as real + 1.0
    ensures i0 + 1 < n
  {
    assert Rank(n, p) < (n - 1) as real by {
      assert (n - 1) as real * (1.0 - p) > 0.0;
    }
    Rank(n, p).Floor
  }

  lemma RankMonotone(n: nat, p: real, q: real)
    requires n >= 1 && p <= q
    ensures Rank(n, p) <= Rank(n, q)
  {
    MulMono(p, q, (n - 1) as real);
  }

  lemma LerpBetween(a: real, b: real, f: real)
    requires a <= b && 0.0 <= f <= 1.0
    ensures a <= Lerp(a, b, f) <= b
  {
    MulMono(0.0, f, b - a);
    MulMono(f, 1.0, b - a);
  }

  lemma LerpMonotone(a: real, b: real, f: real, g: real)
    requires a <= b && f <= g
    ensures Lerp(a, b, f) <= Lerp(a, b, g)
  {
    MulMono(f, g, b - a);
  }

  /** Between the two neighbours of its rank. */
  lemma QuantileNeighbours(s: seq<real>, p: real)
    requires Ascending(s) && |s| >= 2 && 0.0 < p < 1.0
    ensures s[RankFloor(|s|, p)] <= Quantile(s, p) <= s[RankFloor(|s|, p) + 1]
  {
    var i0 := RankFloor(|s|, p);
    LerpBetween(s[i0], s[i0 + 1], Rank(|s|, p) - i0 as real);
  }

  lemma AscendingMin(s: seq<real>)
    requires Ascending(s) && s != []
    ensures Min(s) == s[0] && Max(s) == s[|s| - 1]
  {
    assert s[0] in s && s[|s| - 1] in s;
  }

  /** Every quantile lies within the sample's range. */
  lemma QuantileInRange(s: seq<real>, p: real)
    requires Ascending(s) && s != []
    ensures s[0] <= Quantile(s, p) <= s[|s| - 1]
  {
    AscendingMin(s);
    if |s| >= 2 && 0.0 < p < 1.0 {
      QuantileNeighbours(s, p);
    }
  }

  /** A larger probability never gives a smaller quantile. */
  lemma QuantileMonotone(s: seq<real>, p: real, p': real)
    requires Ascending(s) && s != []
    requires p <= p'
    ensures Quantile(s, p) <= Quantile(s, p')
  {
    AscendingMin(s);
    QuantileInRange(s, p);
    QuantileInRange(s, p');
    if |s| >= 2 && 0.0 < p && p' < 1.0 {
      InteriorQuantileMonotone(s, p, p');
    }
  }

  /** Monotonicity between two interpolated quantiles. */
  lemma InteriorQuantileMonotone(s: seq<real>, p: real, p': real)
    requires Ascending(s) && |s| >= 2
    requires 0.0 < p <= p' < 1.0
    ensures Quantile(s, p) <= Quantile(s, p')
  {
    var n := |s|;
    var i0 := RankFloor(n, p);
    var j0 := RankFloor(n, p');
    RankMonotone(n, p, p');
    if i0 == j0 {
      LerpMonotone(s[i0], s[i0 + 1], Rank(n, p) - i0 as real, Rank(n, p') - i0 as real);
    } else {
      QuantileNeighbours(s, p);
      QuantileNeighbours(s, p');
      assert s[i0 + 1] <= s[j0];
    }
  }

  /** A one-value sample has that value as every quantile. */
  lemma QuantileSingle(v: real, p: real)
    ensures Quantile([v], p) == v
  {
  }

  datatype Box = Box(
    provincia: string,
    q1: real,
    median: real,
    q3: real,
    iqr: real,
    lowerWhisker: real,
    upperWhisker: real,
    outliers: seq<real>)

  /** `v < lowerWhisker || v > upperWhisker`. */
  predicate Outside(v: real, lo: real, hi: real) {
    v < lo || v > hi
  }

  /** `Math.max(a, b)`. */
  function MaxOf(a: real, b: real): real {
    if a >= b then a else b
  }

  /** `Math.min(a, b)`. */
  function MinOf(a: real, b: real): real {
    if a <= b then a else b
  }

  /** The statistics of one non-empty group. */
  function BoxOf(g: Group): (b: Box)
    requires g.values != []
    ensures b.provincia == g.provincia
  {
    var s := SortedCopy(g.values);
    var q1 := Quantile(s, 0.25);
    var q3 := Quantile(s, 0.75);
    var iqr := q3 - q1;
    var lw := MaxOf(Min(s), q1 - 1.5 * iqr);
    var uw := MinOf(Max(s), q3 + 1.5 * iqr);
    Box(g.provincia, q1, Quantile(s, 0.5), q3, iqr, lw, uw, Filter(s, v => Outside(v, lw, uw)))
  }

  /** q1 ≤ median ≤ q3, so the interquartile range is never negative. */
  lemma BoxQuartiles(g: Group)
    requires g.values != []
    ensures var b := BoxOf(g);
      b.q1 <= b.median <= b.q3 && b.iqr == b.q3 - b.q1 && b.iqr >= 0.0
  {
    var s := SortedCopy(g.values);
    QuantileMonotone(s, 0.25, 0.5);
    QuantileMonotone(s, 0.5, 0.75);
  }

  /**
   * The whiskers reach 1.5 interquartile ranges beyond the box, clamped to
   * the smallest and largest value: min ≤ lowerWhisker ≤ q1 and
   * q3 ≤ upperWhisker ≤ max.
   */
  lemma BoxWhiskers(g: Group)
    requires g.values != []
    ensures var b := BoxOf(g); var s := SortedCopy(g.values);
      && s[0] <= b.lowerWhisker <= b.q1
      && b.q3 <= b.upperWhisker <= s[|s| - 1]
      && b.lowerWhisker == MaxOf(s[0], b.q1 - 1.5 * b.iqr)
      && b.upperWhisker == MinOf(s[|s| - 1], b.q3 + 1.5 * b.iqr)
  {
    var s := SortedCopy(g.values);
    var b := BoxOf(g);
    BoxQuartiles(g);
    AscendingMin(s);
    QuantileInRange(s, 0.25);
    QuantileInRange(s, 0.75);
    Clamped(s[0], s[|s| - 1], b.q1, b.q3);
  }

  /** Fences 1.5 ranges out from [q1, q3], clamped to [lo, hi], stay between the two. */
  lemma Clamped(lo: real, hi: real, q1: real, q3: real)
    requires lo <= q1 <= q3 <= hi
    ensures lo <= MaxOf(lo, q1 - 1.5 * (q3 - q1)) <= q1
    ensures q3 <= MinOf(hi, q3 + 1.5 * (q3 - q1)) <= hi
  {
  }

  /**
   * The outliers are exactly the values beyond a whisker, as often as they
   * occur in the group, in ascending order.
   */
  lemma OutliersExactly(g: Group)
    requires g.values != []
    ensures var b := BoxOf(g);
      && (forall v :: multiset(b.outliers)[v] ==
            if Outside(v, b.lowerWhisker, b.upperWhisker) then multiset(g.values)[v] else 0)
      && Ascending(b.outliers)
  {
    var b := BoxOf(g);
    var s := SortedCopy(g.values);
    FilterMultiset(s, v => Outside(v, b.lowerWhisker, b.upperWhisker));
    FilterAscending(s, v => Outside(v, b.lowerWhisker, b.upperWhisker));
  }

  lemma {:induction false} FilterAscending(s: seq<real>, p: real -> bool)
    requires Ascending(s)
    ensures Ascending(Filter(s, p))
  {
    if s != [] {
      var init := s[..|s| - 1];
      var x := s[|s| - 1];
      assert s == init + [x];
      FilterAscending(init, p);
      if p(x) {
        var f := Filter(init, p);
        forall i | 0 <= i < |f| ensures f[i] <= x {
          assert f[i] in init;
        }
      }
    }
  }

  /** A one-value group is a flat box with no outliers. */
  lemma SingleValueBox(p: string, v: real)
    ensures var b := BoxOf(Group(p, [v]));
      && b.q1 == v && b.median == v && b.q3 == v && b.iqr == 0.0
      && b.lowerWhisker == v && b.upperWhisker == v && b.outliers == []
  {
    var s := SortedCopy([v]);
    assert s == [v] by {
      assert multiset(s)[v] == 1;
      assert s[0] in multiset(s);
    }
    assert Min(s) == v && Max(s) == v;
    var b := BoxOf(Group(p, [v]));
    assert !Outside(v, b.lowerWhisker, b.upperWhisker);
    assert Filter(s, x => Outside(x, b.lowerWhisker, b.upperWhisker)) == [];
  }

  /** `if (values.length === 0) return;`: only non-empty groups get a box, in group order. */
  function Boxes(gs: seq<Group>): (bs: seq<Box>)
    ensures |bs| <= |gs|
    ensures forall b :: b in bs ==> exists g :: g in gs && g.values != [] && b == BoxOf(g)
    ensures forall g :: g in gs && g.values != [] ==> BoxOf(g) in bs
  {
    if gs == [] then []
    else
      assert gs == [gs[0]] + gs[1..];
      (if gs[0].values == [] then [] else [BoxOf(gs[0])]) + Boxes(gs[1..])
  }

  // ---- The y domain ----

  /** `Math.pow(10, e)` for an integer exponent. */
  function Pow10(e: int): (r: real)
    ensures r > 0.0
    decreases if e < 0 then -e else e
  {
    if e == 0 then 1.0
    else if e > 0 then 10.0 * Pow10(e - 1)
    else Pow10(e + 1) / 10.0
  }

  lemma {:induction false} Pow10Step(e: int)
    ensures Pow10(e + 1) == 10.0 * Pow10(e)
    decreases if e < 0 then -e else e
  {
    if e < -1 {
      Pow10Step(e + 1);
    }
  }

  lemma {:induction false} Pow10Monotone(a: int, b: int)
    requires a <= b
    ensures Pow10(a) <= Pow10(b)
    decreases b - a
  {
    if a < b {
      Pow10Monotone(a, b - 1);
      Pow10Step(b - 1);
    }
  }

  lemma Pow10Reflects(a: int, b: int)
    ensures Pow10(a) < Pow10(b) ==> a < b
  {
    if b <= a {
      Pow10Monotone(b, a);
    }
  }

  lemma Pow10Strict(a: int, b: int)
    requires a < b
    ensures Pow10(a) < Pow10(b)
  {
    Pow10Monotone(a, b - 1);
    Pow10Step(b - 1);
  }

  /** The largest e ≥ start with 10^e ≤ v, for v ≥ 10^start. */
  function FloorExpFrom(v: real, start: nat): (e: nat)
    requires v >= Pow10(start)
    ensures start <= e && Pow10(e) <= v < Pow10(e + 1)
    decreases v.Floor - start
  {
    Pow10Step(start);
    if Pow10(start + 1) <= v then
      PowAtLeastExp(start + 1);
      FloorExpFrom(v, start + 1)
    else start
  }

  /** 10^e ≥ e + 1 for e ≥ 0, which makes the search above terminate. */
  lemma {:induction false} PowAtLeastExp(e: nat)
    ensures Pow10(e) >= (e + 1) as real
  {
    if e > 0 {
      PowAtLeastExp(e - 1);
    }
  }

  /** The smallest e ≥ start with v ≤ 10^e, for v > 10^(start-1). */
  function CeilExpFrom(v: real, start: nat): (e: nat)
    requires Pow10(start as int - 1) < v
    ensures start <= e && Pow10(e - 1) < v <= Pow10(e)
    decreases v.Floor - start
  {
    if v <= Pow10(start) then start
    else
      PowAtLeastExp(start);
      CeilExpFrom(v, start + 1)
  }

  /** `Math.floor(Math.log10(v))` for v > 0: the e with 10^e ≤ v < 10^(e+1). */
  function FloorLog10(v: real): (e: int)
    requires v > 0.0
    ensures Pow10(e) <= v < Pow10(e + 1)
  {
    if v >= 1.0 then FloorExpFrom(v, 0)
    else
      Pow10Step(-1);
      var c := CeilExpFrom(1.0 / v, 0);
      InverseBounds(v, c);
      -(c as int)
  }

  /** `Math.ceil(Math.log10(v))` for v > 0: the e with 10^(e-1) < v ≤ 10^e. */
  function CeilLog10(v: real): (e: int)
    requires v > 0.0
    ensures Pow10(e - 1) < v <= Pow10(e)
  {
    if v > 1.0 then
      Pow10Step(-1);
      CeilExpFrom(v, 1)
    else
      var f := FloorExpFrom(1.0 / v, 0);
      InverseBoundsFloor(v, f);
      -(f as int)
  }

  lemma {:induction false} Pow10Neg(e: int)
    ensures Pow10(-e) == 1.0 / Pow10(e)
    decreases if e < 0 then -e else e
  {
    if e > 0 {
      Pow10Neg(e - 1);
      Pow10Step(-e);
      Pow10Step(e - 1);
    } else if e < 0 {
      Pow10Neg(e + 1);
      Pow10Step(e);
      Pow10Step(-e - 1);
    }
  }

  lemma InverseBounds(v: real, c: int)
    requires 0.0 < v < 1.0
    requires Pow10(c - 1) < 1.0 / v <= Pow10(c)
    ensures Pow10(-c) <= v < Pow10(-c + 1)
  {
    Pow10Neg(c);
    Pow10Neg(c - 1);
    ReciprocalOrder(Pow10(c - 1), 1.0 / v);
    ReciprocalOrderLe(1.0 / v, Pow10(c));
    ReciprocalTwice(v);
  }

  lemma InverseBoundsFloor(v: real, f: int)
    requires 0.0 < v <= 1.0
    requires Pow10(f) <= 1.0 / v < Pow10(f + 1)
    ensures Pow10(-f - 1) < v <= Pow10(-f)
  {
    Pow10Neg(f);
    Pow10Neg(f + 1);
    ReciprocalOrderLe(Pow10(f), 1.0 / v);
    ReciprocalOrder(1.0 / v, Pow10(f + 1));
    ReciprocalTwice(v);
  }

  lemma ReciprocalTwice(v: real)
    requires v > 0.0
    ensures 1.0 / (1.0 / v) == v
  {
  }

  lemma ReciprocalOrder(a: real, b: real)
    requires 0.0 < a < b
    ensures 1.0 / b < 1.0 / a
  {
    assert 1.0 / b * b == 1.0;
    assert 1.0 / a * a == 1.0;
    assert (1.0 / a - 1.0 / b) * (a * b) == b - a;
  }

  lemma ReciprocalOrderLe(a: real, b: real)
    requires 0.0 < a <= b
    ensures 1.0 / b <= 1.0 / a
  {
    if a < b {
      ReciprocalOrder(a, b);
    }
  }

  /** The exponents of the log domain's two ends. */
  datatype LogDomain = LogDomain(lowerExp: int, upperExp: int)

  /** `(Number.isFinite(m) && m > 0) ? m : d` for the extent of the plotted values. */
  function PositiveOr(m: Option<real>, d: real): real {
    if m.Some? && m.value > 0.0 then m.value else d
  }

  /**
   * The log y domain `[lowerPow, upperPow]`: lowerPow is the power of ten at
   * or below the smallest value (1 when there is none), upperPow the power of
   * ten at or above the largest (10 when there is none), pushed one decade
   * above lowerPow when it is not above it.
   */
  function LogYDomain(yMin: Option<real>, yMax: Option<real>): (d: LogDomain)
    ensures Pow10(d.lowerExp) <= PositiveOr(yMin, 1.0) < Pow10(d.lowerExp + 1)
    ensures d.lowerExp < d.upperExp
    ensures PositiveOr(yMax, 10.0) <= Pow10(d.upperExp)
    ensures d.upperExp == d.lowerExp + 1 || Pow10(d.upperExp - 1) < PositiveOr(yMax, 10.0)
  {
    var minVal := PositiveOr(yMin, 1.0);
    var maxVal := PositiveOr(yMax, 10.0);
    var lo := FloorLog10(minVal);
    var hi := CeilLog10(maxVal);
    Pow10Reflects(lo, hi);
    if Pow10(hi) > Pow10(lo) then LogDomain(lo, hi)
    else
      Pow10Step(lo);
      Pow10Strict(lo, lo + 1);
      LogDomain(lo, lo + 1)
  }

  /** The ends of the log domain are the powers of ten of its exponents. */
  function LogDomainEnds(d: LogDomain): (ends: (real, real))
    requires d.lowerExp < d.upperExp
    ensures ends.0 < ends.1
  {
    Pow10Strict(d.lowerExp, d.upperExp);
    (Pow10(d.lowerExp), Pow10(d.upperExp))
  }

  /** Every value of the plot lies within the log domain. */
  lemma LogDomainCovers(values: seq<real>, v: real)
    requires values != [] && v in values
    requires forall x :: x in values ==> x > 0.0
    ensures var d := LogYDomain(Some(Min(values)), Some(Max(values)));
      Pow10(d.lowerExp) <= v <= Pow10(d.upperExp)
  {
    var d := LogYDomain(Some(Min(values)), Some(Max(values)));
    assert Min(values) in values && Max(values) in values;
  }

  /**
   * `d3.range(e0, e1 + 1).map(e => Math.pow(10, e))`: the tick values of the
   * log axis, one per decade from the lower end to the upper end.
   */
  function LogTicks(d: LogDomain): (ticks: seq<real>)
    requires d.lowerExp < d.upperExp
    ensures |ticks| == d.upperExp - d.lowerExp + 1
    ensures ticks[0] == Pow10(d.lowerExp) && ticks[|ticks| - 1] == Pow10(d.upperExp)
    ensures forall i :: 0 <= i < |ticks| ==> ticks[i] == Pow10(d.lowerExp + i)
    ensures forall i :: 0 < i < |ticks| ==> ticks[i] == 10.0 * ticks[i - 1]
  {
    var ticks := seq(d.upperExp - d.lowerExp + 1, i requires 0 <= i <= d.upperExp - d.lowerExp => Pow10(d.lowerExp + i));
    forall i | 0 < i < |ticks| ensures ticks[i] == 10.0 * ticks[i - 1] {
      Pow10Step(d.lowerExp + i - 1);
    }
    ticks
  }

  /**
   * The linear y domain `[y0 · 0.95, y1 · 1.05]`, with y0 falling back to 0
   * and y1 to 100 when the plot has no values.
   */
  function LinearYDomain(yMin: Option<real>, yMax: Option<real>): (d: (real, real))
    ensures d.0 == (if yMin.Some? then yMin.value else 0.0) * 0.95
    ensures d.1 == (if yMax.Some? then yMax.value else 100.0) * 1.05
  {
    var y0 := if yMin.Some? then yMin.value else 0.0;
    var y1 := if yMax.Some? then yMax.value else 100.0;
    (y0 * 0.95, y1 * 1.05)
  }

  /** With positive values the padded linear domain contains all of them. */
  lemma LinearDomainCovers(values: seq<real>, v: real)
    requires values != [] && v in values
    requires forall x :: x in values ==> x > 0.0
    ensures var d := LinearYDomain(Some(Min(values)), Some(Max(values)));
      d.0 <= v <= d.1
  {
    assert Min(values) in values && Max(values) in values;
  }

  /** `yMin`/`yMax`: `d3.min`/`d3.max` of all groups' values together. */
  function AllValues(gs: seq<Group>): (all: seq<real>)
    ensures forall v :: v in all <==> exists g :: g in gs && v in g.values
  {
    if gs == [] then []
    else
      assert gs == [gs[0]] + gs[1..];
      gs[0].values + AllValues(gs[1..])
  }

  function Extent(all: seq<real>): (Option<real>, Option<real>) {
    if all == [] then (None, None) else (Some(Min(all)), Some(Max(all)))
  }

  /** `useLogY`: population and density get a log axis, every other metric a linear one. */
  predicate UseLogY(m: Metric) {
    m == Poblacio || m == Densitat
  }

  /** The y scale: a log domain of powers of ten, or a linear domain. */
  datatype YScale = Log(dom: LogDomain) | Linear(lo: real, hi: real)

  /** The y scale of the plot, chosen by the metric and fitted to the values of all groups. */
  function YScaleOf(m: Metric, gs: seq<Group>): (y: YScale)
    ensures y.Log? <==> UseLogY(m)
    ensures y.Log? ==> y.dom.lowerExp < y.dom.upperExp
  {
    var ext := Extent(AllValues(gs));
    if UseLogY(m) then Log(LogYDomain(ext.0, ext.1))
    else
      var d := LinearYDomain(ext.0, ext.1);
      Linear(d.0, d.1)
  }

  /** Every value of every box lies inside the domain of the y scale the metric gets. */
  lemma YScaleCovers(data: seq<Record>, m: Metric, slider: int, g: Group, v: real)
    requires g in Groups(data, m, slider) && v in g.values
    ensures var y := YScaleOf(m, Groups(data, m, slider));
      if y.Log? then Pow10(y.dom.lowerExp) <= v <= Pow10(y.dom.upperExp) else y.lo <= v <= y.hi
  {
    var gs := Groups(data, m, slider);
    var all := AllValues(gs);
    assert v in all;
    forall x | x in all ensures x > 0.0 {
      var g :| g in gs && x in g.values;
      GroupValuesPositive(data, m, slider, g, x);
    }
    if UseLogY(m) {
      LogDomainCovers(all, v);
    } else {
      LinearDomainCovers(all, v);
    }
  }
}
