/**
 * The demographic slide: the population pyramid of one year and area, the
 * five "age share against waste metric" scatter plots, the point each scatter
 * labels, and the list the comarca selector offers.
 */
module AgePatterns {
  import opened Values
  import opened Seqs
  import opened Sorting
  import opened Records
  import opened Ranking

  /** `getAgeRanges()`: the five bands, youngest first. */
  function AgeRanges(): (bs: seq<Band>)
    ensures |bs| == 5 && Distinct(bs)
    ensures forall b :: BandIndex(b) < 5 && bs[BandIndex(b)] == b
    ensures bs[0] == Age0To15 && bs[4] == Age64Plus
  {
    [Age0To15, Age16To24, Age25To44, Age45To64, Age64Plus]
  }

  /** The position of a band in `getAgeRanges()`. */
  function BandIndex(b: Band): nat {
    match b
    case Age0To15 => 0
    case Age16To24 => 1
    case Age25To44 => 2
    case Age45To64 => 3
    case Age64Plus => 4
  }

  function Label(b: Band): string {
    match b
    case Age0To15 => "0-15"
    case Age16To24 => "16-24"
    case Age25To44 => "25-44"
    case Age45To64 => "45-64"
    case Age64Plus => "64+"
  }

  // ---------------------------------------------------------------------
  // Population pyramid

  /** The pyramid's filter: the year, and the province and comarca unless they are 'Totes'. */
  function InPyramid(year: int, p: string, c: string): Record -> bool {
    (d: Record) => d.any == year && (p == Totes || d.provincia == p) && (c == Totes || d.comarca == c)
  }

  function MaleAt(b: Band): Record -> Num {
    (d: Record) => d.masculina.At(b)
  }

  function FemaleAt(b: Band): Record -> Num {
    (d: Record) => d.femenina.At(b)
  }

  /** `rows.reduce((sum, d) => sum + (f(d) || 0), 0)`. */
  function SumOr(rows: seq<Record>, f: Record -> Num): real {
    if rows == [] then 0.0 else SumOr(rows[..|rows| - 1], f) + Or(f(rows[|rows| - 1]), 0.0)
  }

  lemma {:induction false} SumOrAppend(a: seq<Record>, b: seq<Record>, f: Record -> Num)
    ensures SumOr(a + b, f) == SumOr(a, f) + SumOr(b, f)
  {
    if b == [] {
      assert a + b == a;
    } else {
      assert (a + b)[..|a + b| - 1] == a + b[..|b| - 1];
      SumOrAppend(a, b[..|b| - 1], f);
    }
  }

  lemma {:induction false} SumOrNonNegative(rows: seq<Record>, f: Record -> Num)
    requires forall d :: d in rows && f(d).Fin? ==> f(d).v >= 0.0
    ensures SumOr(rows, f) >= 0.0
  {
    if rows != [] {
      assert rows[|rows| - 1] in rows;
      SumOrNonNegative(rows[..|rows| - 1], f);
    }
  }

  /** One bar pair of the pyramid. */
  datatype BandTotal = BandTotal(rangeLabel: string, male: real, female: real)

  function BandTotalOf(rows: seq<Record>, b: Band): BandTotal {
    BandTotal(Label(b), SumOr(rows, MaleAt(b)), SumOr(rows, FemaleAt(b)))
  }

  /**
   * `aggregateDataForPyramid`: per band, the male and female population
   * summed over the matching records, a missing or NaN figure counting as 0.
   */
  function Pyramid(data: seq<Record>, year: int, p: string, c: string): (rows: seq<BandTotal>)
    ensures |rows| == 5
    ensures forall i :: 0 <= i < 5 ==> rows[i].rangeLabel == Label(AgeRanges()[i])
  {
    var filtered := Filter(data, InPyramid(year, p, c));
    Map(AgeRanges(), b => BandTotalOf(filtered, b))
  }

  /** No matching record: every bar is 0. */
  lemma PyramidEmpty(data: seq<Record>, year: int, p: string, c: string)
    requires forall d :: d in data ==> !InPyramid(year, p, c)(d)
    ensures forall i :: 0 <= i < 5 ==> Pyramid(data, year, p, c)[i].male == 0.0 && Pyramid(data, year, p, c)[i].female == 0.0
  {
    var filtered := Filter(data, InPyramid(year, p, c));
    if filtered != [] {
      assert filtered[0] in filtered;
    }
  }

  /** One record contributes its own figures to every band if it matches, nothing otherwise. */
  lemma PyramidSingle(d: Record, year: int, p: string, c: string, i: nat)
    requires i < 5
    ensures Pyramid([d], year, p, c)[i].male ==
      (if InPyramid(year, p, c)(d) then Or(d.masculina.At(AgeRanges()[i]), 0.0) else 0.0)
    ensures Pyramid([d], year, p, c)[i].female ==
      (if InPyramid(year, p, c)(d) then Or(d.femenina.At(AgeRanges()[i]), 0.0) else 0.0)
  {
    var sel := InPyramid(year, p, c);
    assert [d][..0] == [];
    var b := AgeRanges()[i];
    PyramidAt([d], year, p, c, i);
    SumOrSingle(d, MaleAt(b));
    SumOrSingle(d, FemaleAt(b));
  }

  lemma PyramidAt(data: seq<Record>, year: int, p: string, c: string, i: nat)
    requires i < 5
    ensures Pyramid(data, year, p, c)[i] == BandTotalOf(Filter(data, InPyramid(year, p, c)), AgeRanges()[i])
  {
  }

  lemma SumOrSingle(d: Record, f: Record -> Num)
    ensures SumOr([d], f) == Or(f(d), 0.0)
  {
    assert [d][..0] == [];
  }

  /** The bars of two batches of records add up: with `PyramidSingle`, this determines every bar. */
  lemma PyramidAppend(a: seq<Record>, b: seq<Record>, year: int, p: string, c: string)
    ensures forall i :: 0 <= i < 5 ==>
      && Pyramid(a + b, year, p, c)[i].male == Pyramid(a, year, p, c)[i].male + Pyramid(b, year, p, c)[i].male
      && Pyramid(a + b, year, p, c)[i].female == Pyramid(a, year, p, c)[i].female + Pyramid(b, year, p, c)[i].female
  {
    var sel := InPyramid(year, p, c);
    FilterAppend(a, b, sel);
    forall band: Band ensures
      && SumOr(Filter(a + b, sel), MaleAt(band)) == SumOr(Filter(a, sel), MaleAt(band)) + SumOr(Filter(b, sel), MaleAt(band))
      && SumOr(Filter(a + b, sel), FemaleAt(band)) == SumOr(Filter(a, sel), FemaleAt(band)) + SumOr(Filter(b, sel), FemaleAt(band))
    {
      SumOrAppend(Filter(a, sel), Filter(b, sel), MaleAt(band));
      SumOrAppend(Filter(a, sel), Filter(b, sel), FemaleAt(band));
    }
  }

  /** With non-negative population figures every bar is non-negative. */
  lemma PyramidNonNegative(data: seq<Record>, year: int, p: string, c: string)
    requires forall d, b :: d in data && d.masculina.At(b).Fin? ==> d.masculina.At(b).v >= 0.0
    requires forall d, b :: d in data && d.femenina.At(b).Fin? ==> d.femenina.At(b).v >= 0.0
    ensures forall i :: 0 <= i < 5 ==> Pyramid(data, year, p, c)[i].male >= 0.0 && Pyramid(data, year, p, c)[i].female >= 0.0
  {
    var filtered := Filter(data, InPyramid(year, p, c));
    forall b: Band ensures SumOr(filtered, MaleAt(b)) >= 0.0 && SumOr(filtered, FemaleAt(b)) >= 0.0 {
      SumOrNonNegative(filtered, MaleAt(b));
      SumOrNonNegative(filtered, FemaleAt(b));
    }
  }

  /** The male and female values of the bars, in band order. */
  function BarValues(rows: seq<BandTotal>): (vs: seq<real>)
    ensures |vs| == 2 * |rows|
    ensures forall i :: 0 <= i < |rows| ==> vs[2 * i] == rows[i].male && vs[2 * i + 1] == rows[i].female
  {
    if rows == [] then [] else [rows[0].male, rows[0].female] + BarValues(rows[1..])
  }

  /** `Math.max(...pyramidData.flatMap(d => [d.male, d.female]))`: the half-width of the symmetric x axis. */
  function PyramidMax(rows: seq<BandTotal>): (m: real)
    requires rows != []
    ensures forall i :: 0 <= i < |rows| ==> rows[i].male <= m && rows[i].female <= m
    ensures exists i :: 0 <= i < |rows| && (m == rows[i].male || m == rows[i].female)
  {
    var vs := BarValues(rows);
    var m := Max(vs);
    forall i | 0 <= i < |rows| ensures rows[i].male <= m && rows[i].female <= m {
      assert vs[2 * i] in vs && vs[2 * i + 1] in vs;
    }
    var k :| 0 <= k < |vs| && vs[k] == m;
    assert m == rows[k / 2].male || m == rows[k / 2].female;
    m
  }

  // ---------------------------------------------------------------------
  // Age share against a waste metric

  /** The scatter's y metrics, `metricAccessors`. */
  datatype PatternMetric = Selectiva | NoSelectiva | Total | PercentSelectivaMetric

  /** `metricCtrl.value || 'selectiva'`; a value with no accessor is `None`. */
  function PatternMetricOf(value: string): (m: Option<PatternMetric>)
    ensures value == "" ==> m == Some(Selectiva)
    ensures m == None <==> value !in {"", "selectiva", "no_selectiva", "total", "percent_selectiva"}
  {
    if value == "" || value == "selectiva" then Some(Selectiva)
    else if value == "no_selectiva" then Some(NoSelectiva)
    else if value == "total" then Some(Total)
    else if value == "percent_selectiva" then Some(PercentSelectivaMetric)
    else None
  }

  function MetricAccessor(m: PatternMetric): Record -> Num {
    match m
    case Selectiva => (d: Record) => d.kgSelectivaPerHabDia
    case NoSelectiva => (d: Record) => d.kgNoSelectivaPerHabDia
    case Total => (d: Record) => d.kgPerHabDia
    case PercentSelectivaMetric => PercentSelectiva
  }

  /**
   * `pctAge`: the band's population (both sexes) as a percentage of the
   * comarca's population; NaN when the population is not positive. The band
   * figures are used raw, so a missing one also gives NaN.
   */
  function PctAge(d: Record, b: Band): (x: Num)
    ensures x.Fin? <==> Greater(d.poblacio, 0.0) && d.masculina.At(b).Fin? && d.femenina.At(b).Fin?
    ensures x.Fin? ==> x.v * d.poblacio.v == 100.0 * (d.masculina.At(b).v + d.femenina.At(b).v)
  {
    if Greater(d.poblacio, 0.0) then
      Mul(Div(Add(d.masculina.At(b), d.femenina.At(b)), d.poblacio), Fin(100.0))
    else NonFinite
  }

  /** A band no larger than the population gives a share between 0 and 100. */
  lemma PctAgeBounds(d: Record, b: Band)
    requires PctAge(d, b).Fin?
    requires 0.0 <= d.masculina.At(b).v + d.femenina.At(b).v <= d.poblacio.v
    ensures 0.0 <= PctAge(d, b).v <= 100.0
  {
    var s := d.masculina.At(b).v + d.femenina.At(b).v;
    var pop := d.poblacio.v;
    DivBetween(s, pop, 0.0, 1.0);
  }

  function PctAgeOf(b: Band): Record -> Num {
    (d: Record) => PctAge(d, b)
  }

  function InProvince(p: string): Record -> bool {
    (d: Record) => p == Totes || d.provincia == p
  }

  function InYearAndProvince(year: int, p: string): Record -> bool {
    (d: Record) => InSelection(d, year, p)
  }

  /** `allDataForDomain`: every year of the province (or of all provinces). */
  function DomainRows(data: seq<Record>, p: string): seq<Record> {
    Filter(data, InProvince(p))
  }

  /** `rows`: the records of the chosen year, which are the points drawn. */
  function PlotRows(data: seq<Record>, year: int, p: string): seq<Record> {
    Filter(data, InYearAndProvince(year, p))
  }

  /** The drawn rows are exactly the domain rows of the chosen year. */
  lemma PlotRowsWithinDomain(data: seq<Record>, year: int, p: string)
    ensures forall d :: d in PlotRows(data, year, p) <==> d in DomainRows(data, p) && d.any == year
  {
  }

  /** The scatter draws nothing when no row has a finite x or no row has a finite y. */
  predicate NoData(rows: seq<Record>, x: Record -> Num, y: Record -> Num) {
    Finite(Map(rows, x)) == [] || Finite(Map(rows, y)) == []
  }

  lemma NoDataExactly(rows: seq<Record>, x: Record -> Num, y: Record -> Num)
    ensures NoData(rows, x, y) <==> (forall d :: d in rows ==> x(d).NonFinite?) || (forall d :: d in rows ==> y(d).NonFinite?)
  {
    NoFinite(rows, x);
    NoFinite(rows, y);
  }

  lemma NoFinite(rows: seq<Record>, f: Record -> Num)
    ensures Finite(Map(rows, f)) == [] <==> forall d :: d in rows ==> f(d).NonFinite?
  {
    if Finite(Map(rows, f)) != [] {
      var v := Finite(Map(rows, f))[0];
      assert Fin(v) in Map(rows, f);
      MapHas(rows, f, Fin(v));
    } else {
      forall d | d in rows ensures f(d).NonFinite? {
        MapHas(rows, f, f(d));
      }
    }
  }

  datatype Domain = Domain(lo: real, hi: real)

  /** `d3.extent(allXs)`; `None` stands for the `[undefined, undefined]` of an empty list. */
  function XDomain(all: seq<Record>, x: Record -> Num): (dom: Option<Domain>)
    ensures dom.Some? ==> dom.value.lo <= dom.value.hi
  {
    var xs := Map(all, x);
    match (D3Min(xs), D3Max(xs))
    case (Some(lo), Some(hi)) => Some(Domain(lo, hi))
    case _ => None
  }

  /** `[0, d3.max(allYs) || 1]`. */
  function YDomain(all: seq<Record>, y: Record -> Num): Domain {
    Domain(0.0, OrDefault(D3Max(Map(all, y)), 1.0))
  }

  /**
   * The axes are computed over every year, so every point drawn for the
   * chosen year lies inside the x domain and below the top of the y axis.
   */
  lemma PointsInsideDomains(data: seq<Record>, year: int, p: string, x: Record -> Num, y: Record -> Num, d: Record)
    requires d in PlotRows(data, year, p)
    ensures x(d).Fin? ==> (XDomain(DomainRows(data, p), x).Some? &&
      XDomain(DomainRows(data, p), x).value.lo <= x(d).v <= XDomain(DomainRows(data, p), x).value.hi)
    ensures y(d).Fin? && y(d).v > 0.0 ==> y(d).v <= YDomain(DomainRows(data, p), y).hi
  {
    var all := DomainRows(data, p);
    assert d in all;
    MapHas(all, x, x(d));
    MapHas(all, y, y(d));
  }

  // ---------------------------------------------------------------------
  // The labelled point

  /**
   * The loop that picks the point to label: the first row holding the
   * largest finite x, or -1 when no x is finite. `maxPercentage` starts at
   * -Infinity, written here as `None`.
   */
  method LabelIndex(rows: seq<Record>, x: Record -> Num) returns (maxIndex: int)
    ensures -1 <= maxIndex < |rows|
    ensures maxIndex == -1 <==> forall i :: 0 <= i < |rows| ==> x(rows[i]).NonFinite?
    ensures maxIndex >= 0 ==> EarliestMax(rows, x, maxIndex)
    ensures maxIndex >= 0 ==> TopN(rows, x, 1) == [rows[maxIndex]]
  {
    maxIndex := -1;
    var maxPercentage: Option<real> := None;
    for i := 0 to |rows|
      invariant -1 <= maxIndex < i || (i == 0 && maxIndex == -1)
      invariant maxIndex == -1 <==> maxPercentage.None?
      invariant maxIndex == -1 ==> forall k :: 0 <= k < i ==> x(rows[k]).NonFinite?
      invariant maxIndex >= 0 ==> x(rows[maxIndex]) == Fin(maxPercentage.value)
      invariant maxIndex >= 0 ==> forall k :: 0 <= k < i && x(rows[k]).Fin? ==> x(rows[k]).v <= maxPercentage.value
      invariant maxIndex >= 0 ==> forall k :: 0 <= k < maxIndex && x(rows[k]).Fin? ==> x(rows[k]).v < maxPercentage.value
    {
      var val := x(rows[i]);
      if val.Fin? && (maxPercentage.None? || val.v > maxPercentage.value) {
        maxPercentage := Some(val.v);
        maxIndex := i;
      }
    }
    if maxIndex >= 0 {
      SameAsTopOne(rows, x, maxIndex);
    }
  }

  /** The loop picks the same row as `.filter(...).sort(...).slice(0, 1)` would. */
  lemma SameAsTopOne(rows: seq<Record>, x: Record -> Num, j: int)
    requires EarliestMax(rows, x, j)
    ensures TopN(rows, x, 1) == [rows[j]]
  {
    TopOne(rows, x);
    var k :| EarliestMax(rows, x, k) && rows[k] == TopN(rows, x, 1)[0];
    EarliestMaxUnique(rows, x, j, k);
  }

  // ---------------------------------------------------------------------
  // The comarca selector

  /**
   * `updateComarques`: the comarques of the selected province (all of them
   * for 'Totes' or an empty selection), each once, sorted.
   */
  function ComarcaOptions(data: seq<Record>, value: string): (cs: seq<string>)
    ensures Distinct(cs) && SortedLex(cs, Self)
    ensures forall c :: c in cs <==>
      exists d :: d in data && d.comarca == c && (ProvinceOrTotes(value) == Totes || d.provincia == ProvinceOrTotes(value))
  {
    var p := ProvinceOrTotes(value);
    var rows := if p == Totes then data else Filter(data, (d: Record) => d.provincia == p);
    forall c ensures c in Map(rows, ComarcaOf) <==> exists d :: d in rows && d.comarca == c {
      MapHas(rows, ComarcaOf, c);
    }
    SortedSet(Map(rows, ComarcaOf))
  }
}
