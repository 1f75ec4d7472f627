/**
 * The density scatter: population density of each comarca against a waste
 * metric, for one year and province, on axes whose domains are fixed once
 * over the whole dataset so that they stay put while the filters change.
 */
module Densitat {
  import opened Values
  import opened Seqs
  import opened Records

  /** `(d.poblacio || 0) / (d.superficie_km2 || 1)`: never a division by zero. */
  function Density(d: Record): (dens: real)
    ensures Truthy(d.superficieKm2) ==> dens * d.superficieKm2.v == Or(d.poblacio, 0.0)
    ensures !Truthy(d.superficieKm2) ==> dens == Or(d.poblacio, 0.0)
    ensures !Truthy(d.poblacio) ==> dens == 0.0
  {
    Or(d.poblacio, 0.0) / Or(d.superficieKm2, 1.0)
  }

  /** The keys of `metrics`, in declaration order. */
  datatype DensMetric = KgPerHabDia | PercentatgeSelectiva

  const MetricKeys: seq<DensMetric> := [KgPerHabDia, PercentatgeSelectiva]

  /** `metricCtrl.value || 'kg_per_hab_dia'`; a key with no metric is None. */
  function DensMetricOf(value: string): (m: Option<DensMetric>)
    ensures value == "" ==> m == Some(KgPerHabDia)
    ensures m == None <==> value !in {"", "kg_per_hab_dia", "percentatge_selectiva"}
  {
    if value == "" || value == "kg_per_hab_dia" then Some(KgPerHabDia)
    else if value == "percentatge_selectiva" then Some(PercentatgeSelectiva)
    else None
  }

  /** `metrics[key].accessor`: the column as stored, not recomputed. */
  function Accessor(m: DensMetric): Record -> Num {
    match m
    case KgPerHabDia => (d: Record) => d.kgPerHabDia
    case PercentatgeSelectiva => (d: Record) => d.percentatgeSelectiva
  }

  /** An axis domain; either end may be NaN or `undefined`. */
  datatype AxisDomain = AxisDomain(lo: Num, hi: Num)

  /**
   * `[Math.max(0.1, d3.min(xs)), d3.max(xs)]` over the finite values `xs`;
   * both ends are non-finite when there is no value (`Math.max(0.1,
   * undefined)` is NaN).
   */
  function LogDomain(xs: seq<real>): (dom: AxisDomain)
    ensures xs == [] <==> dom == AxisDomain(NonFinite, NonFinite)
    ensures xs != [] ==> dom.lo.Fin? && dom.lo.v >= 0.1 && dom.hi.Fin? && dom.hi.v in xs
    ensures xs != [] ==> forall x :: x in xs ==> x <= dom.hi.v && (x >= 0.1 ==> dom.lo.v <= x)
    ensures xs != [] ==> dom.lo.v == 0.1 || dom.lo.v in xs
    ensures xs != [] ==> (dom.lo.v == 0.1 <==> exists x :: x in xs && x <= 0.1)
    ensures xs != [] && dom.lo.v != 0.1 ==> dom.lo.v in xs && forall x :: x in xs ==> dom.lo.v <= x
  {
    if xs == [] then AxisDomain(NonFinite, NonFinite)
    else
      var lo := Min(xs);
      assert lo in xs;
      AxisDomain(Fin(if lo >= 0.1 then lo else 0.1), Fin(Max(xs)))
  }

  /**
   * `globalXDomain`: the log-scale domain of every record's density, from
   * max(0.1, smallest density) to the largest density.
   */
  function GlobalXDomain(data: seq<Record>): (dom: AxisDomain)
    ensures data == [] <==> dom == AxisDomain(NonFinite, NonFinite)
    ensures data != [] ==> dom.hi.Fin? && forall d :: d in data ==> Density(d) <= dom.hi.v
    ensures data != [] ==> exists d :: d in data && Density(d) == dom.hi.v
    ensures data != [] ==> dom.lo.Fin? && (dom.lo.v == 0.1 <==> exists d :: d in data && Density(d) <= 0.1)
    ensures data != [] && dom.lo.v != 0.1 ==>
      (exists d :: d in data && Density(d) == dom.lo.v) && forall d :: d in data ==> dom.lo.v <= Density(d)
  {
    if data == [] then LogDomain(Map(data, Density))
    else
      DensityDomainEnds(data);
      LogDomain(Map(data, Density))
  }

  /** The ends of the log domain of the densities, stated over the records. */
  lemma DensityDomainEnds(data: seq<Record>)
    requires data != []
    ensures var dom := LogDomain(Map(data, Density));
      && (forall d :: d in data ==> Density(d) <= dom.hi.v)
      && (exists d :: d in data && Density(d) == dom.hi.v)
      && (dom.lo.v == 0.1 <==> exists d :: d in data && Density(d) <= 0.1)
      && (dom.lo.v != 0.1 ==> (exists d :: d in data && Density(d) == dom.lo.v) && forall d :: d in data ==> dom.lo.v <= Density(d))
  {
    var xs := Map(data, Density);
    var dom := LogDomain(xs);
    forall d | d in data ensures Density(d) in xs {
      var j :| 0 <= j < |data| && data[j] == d;
      assert xs[j] == Density(d);
    }
    var i :| 0 <= i < |xs| && xs[i] == dom.hi.v;
    assert data[i] in data && Density(data[i]) == dom.hi.v;
    if dom.lo.v == 0.1 {
      var k :| 0 <= k < |xs| && xs[k] <= 0.1;
      assert data[k] in data && Density(data[k]) <= 0.1;
    } else {
      var k :| 0 <= k < |xs| && xs[k] == dom.lo.v;
      assert data[k] in data && Density(data[k]) == dom.lo.v;
    }
  }

  /** `[0, d3.max(allYs)]`: the upper end is `undefined` when no value is finite. */
  function YDomainOf(data: seq<Record>, m: DensMetric): (dom: AxisDomain)
    ensures dom.lo == Fin(0.0)
    ensures dom.hi.Fin? <==> exists d :: d in data && Accessor(m)(d).Fin?
    ensures dom.hi.Fin? ==> forall d :: d in data && Accessor(m)(d).Fin? ==> Accessor(m)(d).v <= dom.hi.v
    ensures dom.hi.Fin? ==> exists d :: d in data && Accessor(m)(d) == dom.hi
  {
    var vs := Map(data, Accessor(m));
    forall x ensures x in vs <==> exists d :: d in data && Accessor(m)(d) == x {
      MapHas(data, Accessor(m), x);
    }
    var top := D3Max(vs);
    AxisDomain(Fin(0.0), if top.Some? then Fin(top.value) else NonFinite)
  }

  /** The `forEach` over the metric keys that fills `globalYDomains`. */
  method GlobalYDomains(data: seq<Record>) returns (domains: map<DensMetric, AxisDomain>)
    ensures forall m :: m in domains && domains[m] == YDomainOf(data, m)
  {
    domains := map[];
    for i := 0 to |MetricKeys|
      invariant forall j :: 0 <= j < i ==> MetricKeys[j] in domains
      invariant forall m :: m in domains ==> domains[m] == YDomainOf(data, m)
    {
      domains := domains[MetricKeys[i] := YDomainOf(data, MetricKeys[i])];
    }
    forall m ensures m in domains {
      assert m == MetricKeys[0] || m == MetricKeys[1];
    }
  }

  /** `filter(year, provincia)`, with `provCtrl.value || 'Totes'`. */
  function Rows(data: seq<Record>, year: int, provValue: string): (rows: seq<Record>)
    ensures forall d :: d in rows <==> d in data && d.any == year && (ProvinceOrTotes(provValue) == Totes || d.provincia == provValue)
  {
    SelectRows(data, year, ProvinceOrTotes(provValue))
  }

  /** `Number.isFinite(x) && Number.isFinite(y) && x > 0`, with x the density. */
  function IsValid(m: DensMetric): Record -> bool {
    (d: Record) => Accessor(m)(d).Fin? && Density(d) > 0.0
  }

  /** `validRows`: the points the scatter draws; none means "no data". */
  function ValidRows(rows: seq<Record>, m: DensMetric): (valid: seq<Record>)
    ensures forall d :: d in valid <==> d in rows && Accessor(m)(d).Fin? && Density(d) > 0.0
    ensures forall i :: 0 <= i < |valid| ==> Density(valid[i]) > 0.0
  {
    Filter(rows, IsValid(m))
  }

  /** A comarca without a population (missing, NaN or 0) is never drawn. */
  lemma NoPopulationNotDrawn(rows: seq<Record>, m: DensMetric, d: Record)
    requires !Truthy(d.poblacio)
    ensures d !in ValidRows(rows, m)
  {
  }

  /** The scatter says "no data" exactly when no row has a finite metric and a positive density. */
  lemma NoDataExactly(rows: seq<Record>, m: DensMetric)
    ensures ValidRows(rows, m) == [] <==> forall d :: d in rows ==> !(Accessor(m)(d).Fin? && Density(d) > 0.0)
  {
    var valid := ValidRows(rows, m);
    if valid != [] {
      assert valid[0] in valid;
    }
  }

  /** `xDomain || [...]`: a supplied domain (an array, never falsy) wins over the local one. */
  function ScatterXDomain(valid: seq<Record>, supplied: Option<AxisDomain>): (dom: AxisDomain)
    ensures supplied.Some? ==> dom == supplied.value
    ensures supplied.None? ==> dom == LogDomain(Map(valid, Density))
  {
    if supplied.Some? then supplied.value else LogDomain(Map(valid, Density))
  }

  /** `yDomain || [0, d3.max(ys)]`. */
  function ScatterYDomain(valid: seq<Record>, m: DensMetric, supplied: Option<AxisDomain>): (dom: AxisDomain)
    ensures supplied.Some? ==> dom == supplied.value
    ensures supplied.None? ==> dom == YDomainOf(valid, m)
  {
    if supplied.Some? then supplied.value else YDomainOf(valid, m)
  }

  /** The domains `render` draws with: the global ones, passed into the scatter. */
  function RenderDomains(data: seq<Record>, year: int, provValue: string, m: DensMetric): (doms: (AxisDomain, AxisDomain))
    ensures doms == (GlobalXDomain(data), YDomainOf(data, m))
  {
    var valid := ValidRows(Rows(data, year, provValue), m);
    (ScatterXDomain(valid, Some(GlobalXDomain(data))), ScatterYDomain(valid, m, Some(YDomainOf(data, m))))
  }

  /** The axes do not move when the year or the province changes. */
  lemma AxesIgnoreFilters(data: seq<Record>, y1: int, p1: string, y2: int, p2: string, m: DensMetric)
    ensures RenderDomains(data, y1, p1, m) == RenderDomains(data, y2, p2, m)
  {
  }

  /**
   * Every drawn point lies below the tops of the global domains: its
   * density at most the largest density, its metric at most the largest
   * metric value.
   */
  lemma DrawnPointsInsideAxes(data: seq<Record>, year: int, provValue: string, m: DensMetric, d: Record)
    requires d in ValidRows(Rows(data, year, provValue), m)
    ensures GlobalXDomain(data).hi.Fin? && Density(d) <= GlobalXDomain(data).hi.v
    ensures YDomainOf(data, m).hi.Fin? && Accessor(m)(d).v <= YDomainOf(data, m).hi.v
  {
    assert d in data;
  }
}
