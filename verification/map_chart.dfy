/**
 * The bubble map of the overview slide: one bubble per comarca of the first
 * or the last year, coloured by population and sized by a waste metric, with
 * a label on the bubble of the largest metric value.
 */
module MapChart {
  import opened Values
  import opened Seqs
  import opened Sorting
  import opened Text
  import opened Records
  import opened Ranking

  /** The keys of `metricOptions`. */
  datatype MapMetric = SelectivaKg | RebuigKg | TotalKg | PercentatgeSelectiva

  /** `metricSelect.value || 'percentatge_selectiva'`; a key with no option is `None`. */
  function MapMetricOf(value: string): (m: Option<MapMetric>)
    ensures value == "" ==> m == Some(PercentatgeSelectiva)
    ensures m == None <==>
      value !in {"", "recollida_selectiva_t", "recollida_no_selectiva_t", "kg_per_hab_dia", "percentatge_selectiva"}
  {
    if value == "" || value == "percentatge_selectiva" then Some(PercentatgeSelectiva)
    else if value == "recollida_selectiva_t" then Some(SelectivaKg)
    else if value == "recollida_no_selectiva_t" then Some(RebuigKg)
    else if value == "kg_per_hab_dia" then Some(TotalKg)
    else None
  }

  /**
   * `metricOptions[m].accessor`. The two tonnage keys read the per-inhabitant
   * kilograms, and the percentage is the per-record share that is 0 when
   * there is no tonnage.
   */
  function Accessor(m: MapMetric): Record -> Num {
    match m
    case SelectivaKg => (d: Record) => d.kgSelectivaPerHabDia
    case RebuigKg => (d: Record) => d.kgNoSelectivaPerHabDia
    case TotalKg => (d: Record) => d.kgPerHabDia
    case PercentatgeSelectiva => PercentSelectiva
  }

  function AnyOf(d: Record): int {
    d.any
  }

  /** `Array.from(new Set(csvData.map(d => d.any))).sort()`. */
  function Years(data: seq<Record>): (ys: seq<int>)
    ensures Distinct(ys)
    ensures forall y :: y in ys <==> exists d :: d in data && d.any == y
  {
    forall y ensures y in Map(data, AnyOf) <==> exists d :: d in data && d.any == y {
      MapHas(data, AnyOf, y);
    }
    SortedNumbers(Map(data, AnyOf))
  }

  /** `years[0]`; `undefined` (None) without data. */
  function FirstYear(data: seq<Record>): Option<int> {
    var ys := Years(data);
    if ys == [] then None else Some(ys[0])
  }

  /** `years[years.length - 1]`. */
  function LastYear(data: seq<Record>): Option<int> {
    var ys := Years(data);
    if ys == [] then None else Some(ys[|ys| - 1])
  }

  /**
   * With four-digit years the string sort is numeric, so the first year is
   * the earliest year of the data and the last year the latest.
   */
  lemma FirstAndLastYear(data: seq<Record>)
    requires forall d :: d in data ==> 1000 <= d.any <= 9999
    ensures FirstYear(data).Some? <==> data != []
    ensures FirstYear(data).Some? ==> LastYear(data).Some?
    ensures FirstYear(data).Some? ==> exists d :: d in data && d.any == FirstYear(data).value
    ensures FirstYear(data).Some? ==> exists d :: d in data && d.any == LastYear(data).value
    ensures FirstYear(data).Some? ==> forall d :: d in data ==> FirstYear(data).value <= d.any <= LastYear(data).value
  {
    var ys := Years(data);
    var raw := Map(data, AnyOf);
    forall y | y in raw ensures 1000 <= y <= 9999 {
      MapHas(data, AnyOf, y);
    }
    SortedNumbersAscending(raw);
    if data != [] {
      assert data[0] in data;
      assert ys != [];
      assert ys[0] in ys && ys[|ys| - 1] in ys;
      forall d | d in data ensures ys[0] <= d.any <= ys[|ys| - 1] {
        assert d.any in ys;
        var k :| 0 <= k < |ys| && ys[k] == d.any;
      }
    }
  }

  /** `(radio.value || 'first') === 'first' ? firstYear : lastYear`. */
  function SelectedYear(data: seq<Record>, radio: string): (y: Option<int>)
    ensures radio == "" || radio == "first" ==> y == FirstYear(data)
    ensures radio != "" && radio != "first" ==> y == LastYear(data)
  {
    if radio == "" || radio == "first" then FirstYear(data) else LastYear(data)
  }

  /** `(provSelect.value || 'totes').toLowerCase()`. */
  function ProvinceFilter(value: string): (pf: string)
    ensures |pf| >= 1
    ensures value == "" ==> pf == "totes"
    ensures value != "" ==> pf == Lower(value)
  {
    assert Lower("totes") == "totes" by {
      assert Lower("totes")[0] == 't' && Lower("totes")[1] == 'o' && Lower("totes")[2] == 't';
      assert Lower("totes")[3] == 'e' && Lower("totes")[4] == 's';
    }
    Lower(if value == "" then "totes" else value)
  }

  /** `_provNorm`: the lower-cased province, '' for a record without one. */
  function ProvNorm(d: Record): string {
    Lower(d.provincia)
  }

  /** The map's filter: the selected year, and the province unless the filter is 'totes'. */
  function InMap(year: Option<int>, pf: string): Record -> bool {
    (d: Record) => year.Some? && d.any == year.value && (pf == "totes" || ProvNorm(d) == pf)
  }

  /** `filtered`: the records of the bubbles, in data order. */
  function Filtered(data: seq<Record>, radio: string, provValue: string): (rows: seq<Record>)
    ensures forall d :: d in rows <==> d in data && InMap(SelectedYear(data, radio), ProvinceFilter(provValue))(d)
  {
    Filter(data, InMap(SelectedYear(data, radio), ProvinceFilter(provValue)))
  }

  /**
   * Province matching ignores case: a selection and a record province that
   * lower-case to the same name match, whatever their capitals.
   */
  lemma ProvinceIgnoresCase(d: Record, value: string)
    requires value != "" && Lower(d.provincia) == Lower(value)
    ensures InMap(Some(d.any), ProvinceFilter(value))(d)
  {
  }

  /** A record without a province is shown only when every province is. */
  lemma NoProvinceOnlyUnderTotes(d: Record, year: Option<int>, value: string)
    requires d.provincia == ""
    ensures InMap(year, ProvinceFilter(value))(d) ==> ProvinceFilter(value) == "totes"
  {
    assert |ProvNorm(d)| == 0;
  }

  /** `filtered.map(d => d.poblacio || 0).filter(v => v > 0)`. */
  function ColourValues(rows: seq<Record>): (vs: seq<real>)
    ensures forall v :: v in vs ==> v > 0.0
    ensures forall v :: v in vs <==> exists d :: d in rows && d.poblacio == Fin(v) && v > 0.0
  {
    var pops := Map(rows, PopulationOrZero);
    forall v ensures v in pops <==> exists d :: d in rows && PopulationOrZero(d) == v {
      MapHas(rows, PopulationOrZero, v);
    }
    Filter(pops, (v: real) => v > 0.0)
  }

  function PopulationOrZero(d: Record): real {
    Or(d.poblacio, 0.0)
  }

  /** `filtered.map(metric.accessor).filter(Number.isFinite)`. */
  function SizeValues(rows: seq<Record>, m: MapMetric): (vs: seq<real>)
    ensures forall v :: v in vs <==> exists d :: d in rows && Accessor(m)(d) == Fin(v)
  {
    forall v ensures Fin(v) in Map(rows, Accessor(m)) <==> exists d :: d in rows && Accessor(m)(d) == Fin(v) {
      MapHas(rows, Accessor(m), Fin(v));
    }
    Finite(Map(rows, Accessor(m)))
  }

  datatype Domain = Domain(lo: real, hi: real)

  /**
   * The scale domain built from `d3.extent(vs)`: [0, 1] for an empty list,
   * otherwise [min, max], except that a maximum of 0 is falsy and becomes
   * min + 1.
   */
  function ScaleDomain(vs: seq<real>): (dom: Domain)
    ensures dom.lo <= dom.hi
    ensures vs == [] ==> dom == Domain(0.0, 1.0)
    ensures vs != [] ==> dom.lo in vs && forall v :: v in vs ==> dom.lo <= v
  {
    if vs == [] then Domain(0.0, 1.0)
    else
      var lo := Min(vs);
      var hi := Max(vs);
      assert vs[0] in vs;
      Domain(lo, if hi != 0.0 then hi else lo + 1.0)
  }

  /** With non-negative values the domain covers every value. */
  lemma ScaleDomainCovers(vs: seq<real>)
    requires forall v :: v in vs ==> v >= 0.0
    ensures forall v :: v in vs ==> ScaleDomain(vs).lo <= v <= ScaleDomain(vs).hi
  {
    if vs != [] {
      var hi := Max(vs);
      assert vs[0] in vs;
    }
  }

  /** Population values are positive, so the colour domain is exactly their extent. */
  lemma ColourDomainIsExtent(rows: seq<Record>)
    requires ColourValues(rows) != []
    ensures ScaleDomain(ColourValues(rows)) == Domain(Min(ColourValues(rows)), Max(ColourValues(rows)))
  {
    var vs := ColourValues(rows);
    assert Max(vs) in vs;
  }

  /**
   * The labelled bubble (`.filter(...).sort(...).slice(0, 1)`): none when no
   * metric value is finite, otherwise the earliest record with the largest
   * value.
   */
  function Leader(rows: seq<Record>, m: MapMetric): (top: seq<Record>)
    ensures |top| <= 1
    ensures top == [] <==> forall i :: 0 <= i < |rows| ==> Accessor(m)(rows[i]).NonFinite?
    ensures top != [] ==> exists j :: EarliestMax(rows, Accessor(m), j) && rows[j] == top[0]
  {
    TopOne(rows, Accessor(m));
    TopN(rows, Accessor(m), 1)
  }
}
