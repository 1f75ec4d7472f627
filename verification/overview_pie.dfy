/**
 * The overview pie: for one year and province, either one slice per comarca
 * (total, selective or non-selective tonnes, largest first) or the two
 * slices of the selective/non-selective comparison, with percentage labels
 * inside the larger slices and name labels outside the three largest.
 */
module OverviewPie {
  import opened Values
  import opened Seqs
  import opened Sorting
  import opened Records

  /** The metric selector; any other value leaves the pie empty. */
  datatype PieMetric = TotalT | SelectivaT | NoSelectivaT | Comparativa

  function PieMetricOf(value: string): (m: Option<PieMetric>)
    ensures m == None <==> value !in {"total", "selectiva", "no_selectiva", "comparativa"}
  {
    if value == "total" then Some(TotalT)
    else if value == "selectiva" then Some(SelectivaT)
    else if value == "no_selectiva" then Some(NoSelectivaT)
    else if value == "comparativa" then Some(Comparativa)
    else None
  }

  /**
   * `filtered`: the records of the year, then of the province unless it is
   * 'Totes'. The pie shows "no data" exactly when this is empty.
   */
  function PieRows(data: seq<Record>, year: int, provincia: string): (rows: seq<Record>)
    ensures forall d :: d in rows <==> d in data && d.any == year && (provincia == Totes || d.provincia == provincia)
  {
    SelectRows(data, year, provincia)
  }

  /**
   * A slice colour: an entry of the ten-colour Tableau scheme, or a fixed
   * colour. The ordinal scale meets the record positions 0, 1, 2, ... in
   * order, so position i gets entry i mod 10.
   */
  datatype Colour = Scheme(index: nat) | Fixed(hex: string)

  datatype Slice = Slice(name: string, value: Num, colour: Colour)

  /** The column each per-comarca metric reads. */
  function Tonnes(m: PieMetric, d: Record): Num {
    match m
    case TotalT => d.totalRecollidaT
    case SelectivaT => d.recollidaSelectivaT
    case NoSelectivaT => d.recollidaNoSelectivaT
    case Comparativa => NonFinite
  }

  /** `filtered.map((d, i) => ({ label: d.comarca, value: ..., color: colorScale(i) }))`. */
  function Candidates(rows: seq<Record>, m: PieMetric): (cs: seq<Slice>)
    ensures |cs| == |rows|
    ensures forall i :: 0 <= i < |rows| ==> cs[i] == Slice(rows[i].comarca, Tonnes(m, rows[i]), Scheme(i % 10))
  {
    seq(|rows|, i requires 0 <= i < |rows| => Slice(rows[i].comarca, Tonnes(m, rows[i]), Scheme(i % 10)))
  }

  predicate Positive(s: Slice) {
    Greater(s.value, 0.0)
  }

  /** The slice's value as the comparator sees it (only finite values reach it). */
  function SliceValue(s: Slice): real {
    if s.value.Fin? then s.value.v else 0.0
  }

  /**
   * `.filter(d => d.value > 0).sort((a, b) => b.value - a.value)`: the
   * comarques with a positive value, largest first.
   */
  function ComarcaSlices(rows: seq<Record>, m: PieMetric): (slices: seq<Slice>)
    ensures multiset(slices) == multiset(Filter(Candidates(rows, m), Positive))
    ensures forall s :: s in slices ==> Positive(s)
    ensures SortedDesc(slices, SliceValue)
  {
    var pos := Filter(Candidates(rows, m), Positive);
    SortDescMultiset(pos, SliceValue);
    SortDesc(pos, SliceValue)
  }

  /**
   * A record gets its slice exactly when its value is a number above 0: a
   * missing, NaN, zero or negative value gets none.
   */
  lemma ComarcaSliceOf(rows: seq<Record>, m: PieMetric, i: nat)
    requires i < |rows|
    ensures Slice(rows[i].comarca, Tonnes(m, rows[i]), Scheme(i % 10)) in ComarcaSlices(rows, m)
        <==> Greater(Tonnes(m, rows[i]), 0.0)
  {
    var cs := Candidates(rows, m);
    assert cs[i] in cs;
    var slices := ComarcaSlices(rows, m);
    var pos := Filter(cs, Positive);
    assert cs[i] in slices <==> cs[i] in multiset(slices);
    assert cs[i] in pos <==> cs[i] in multiset(pos);
  }

  /** Both values are numbers and the first is at least the second. */
  predicate IsAbove(a: Slice, b: Slice) {
    a.value.Fin? && b.value.Fin? && a.value.v >= b.value.v
  }

  /** The slices are ordered by value, largest first. */
  lemma ComarcaSlicesDescending(rows: seq<Record>, m: PieMetric)
    ensures forall i, j :: 0 <= i < j < |ComarcaSlices(rows, m)| ==>
      IsAbove(ComarcaSlices(rows, m)[i], ComarcaSlices(rows, m)[j])
  {
    var slices := ComarcaSlices(rows, m);
    forall i, j | 0 <= i < j < |slices| ensures IsAbove(slices[i], slices[j]) {
      assert slices[i] in slices && slices[j] in slices;
    }
  }

  /** Equal values keep the order of their records (the sort is stable). */
  lemma ComarcaSlicesStable(rows: seq<Record>, m: PieMetric, k: real)
    ensures WithKey(ComarcaSlices(rows, m), SliceValue, k) == WithKey(Filter(Candidates(rows, m), Positive), SliceValue, k)
  {
    SortDescStable(Filter(Candidates(rows, m), Positive), SliceValue, k);
  }

  /**
   * The comparison: exactly two slices, the sums (`d3.sum`, which skips
   * missing and NaN values) of the selective and of the non-selective tonnes.
   */
  function ComparativaSlices(rows: seq<Record>): (slices: seq<Slice>)
    ensures |slices| == 2
    ensures slices[0].name == "Recollida selectiva" && slices[1].name == "Recollida no selectiva"
    ensures slices[0].value == Fin(D3Sum(Map(rows, SelectivaTonnes)))
    ensures slices[1].value == Fin(D3Sum(Map(rows, NoSelectivaTonnes)))
  {
    [Slice("Recollida selectiva", Fin(D3Sum(Map(rows, SelectivaTonnes))), Fixed("#73003c")),
     Slice("Recollida no selectiva", Fin(D3Sum(Map(rows, NoSelectivaTonnes))), Fixed("#e98300"))]
  }

  function SelectivaTonnes(d: Record): Num {
    d.recollidaSelectivaT
  }

  function NoSelectivaTonnes(d: Record): Num {
    d.recollidaNoSelectivaT
  }

  /** `pieData` for a metric; an unknown metric leaves it empty. */
  function PieData(rows: seq<Record>, m: Option<PieMetric>): seq<Slice> {
    match m
    case None => []
    case Some(Comparativa) => ComparativaSlices(rows)
    case Some(metric) => ComarcaSlices(rows, metric)
  }

  /** Every slice of the pie has a finite value. */
  lemma PieDataFinite(rows: seq<Record>, m: Option<PieMetric>)
    ensures forall s :: s in PieData(rows, m) ==> s.value.Fin?
  {
  }

  function ValueOf(s: Slice): Num {
    s.value
  }

  /** `d3.sum(pieData, p => p.value)`. */
  function PieTotal(slices: seq<Slice>): real {
    D3Sum(Map(slices, ValueOf))
  }

  /** `(d.data.value / total) * 100`: NaN or ±Infinity when the total is 0. */
  function Percent(s: Slice, total: real): (pct: Num)
    ensures s.value.Fin? && total != 0.0 ==> pct == Fin(s.value.v / total * 100.0)
    ensures total == 0.0 ==> pct == NonFinite
  {
    Mul(Div(s.value, Fin(total)), Fin(100.0))
  }

  /** The slices' percentages of `total`, summed. */
  function PercentSum(slices: seq<Slice>, total: real): real
    requires total != 0.0
  {
    if slices == [] then 0.0 else SliceValue(slices[0]) / total * 100.0 + PercentSum(slices[1..], total)
  }

  function SliceValues(slices: seq<Slice>): (vs: seq<real>)
    ensures |vs| == |slices|
  {
    if slices == [] then [] else [SliceValue(slices[0])] + SliceValues(slices[1..])
  }

  /** With finite values, the numbers `d3.sum` adds are exactly the slice values. */
  lemma {:induction false} PieValuesFinite(slices: seq<Slice>)
    requires forall s :: s in slices ==> s.value.Fin?
    ensures Finite(Map(slices, ValueOf)) == SliceValues(slices)
  {
    if slices != [] {
      assert slices[0] in slices;
      assert Map(slices, ValueOf)[1..] == Map(slices[1..], ValueOf);
      PieValuesFinite(slices[1..]);
    }
  }

  lemma {:induction false} PercentSumScales(slices: seq<Slice>, total: real)
    requires total != 0.0
    ensures PercentSum(slices, total) == Sum(SliceValues(slices)) / total * 100.0
  {
    if slices != [] {
      PercentSumScales(slices[1..], total);
      var a, rest := SliceValue(slices[0]), SliceValues(slices[1..]);
      SumCons(a, rest);
      assert (a + Sum(rest)) / total * 100.0 == a / total * 100.0 + Sum(rest) / total * 100.0;
    }
  }

  /** The slices' percentages add up to 100 whenever the total is not 0. */
  lemma PercentagesSumTo100(slices: seq<Slice>)
    requires forall s :: s in slices ==> s.value.Fin?
    requires PieTotal(slices) != 0.0
    ensures PercentSum(slices, PieTotal(slices)) == 100.0
  {
    var t := PieTotal(slices);
    PieValuesFinite(slices);
    PercentSumScales(slices, t);
    WholeIsHundred(t);
  }

  lemma WholeIsHundred(t: real)
    requires t != 0.0
    ensures t / t * 100.0 == 100.0
  {
    assert t / t == 1.0;
  }

  /**
   * Inner percentage labels: drawn only when the pie has at most ten
   * slices, and then non-empty only for a slice above 3 % of the total.
   */
  predicate InnerLabelShown(slices: seq<Slice>, i: nat)
    requires i < |slices|
  {
    |slices| <= 10 && Greater(Percent(slices[i], PieTotal(slices)), 3.0)
  }

  /** With a positive total, an inner label is shown exactly when the pie has at most ten slices and this one is more than 3 % of the total. */
  lemma InnerLabelExactly(slices: seq<Slice>, i: nat)
    requires i < |slices| && slices[i].value.Fin? && PieTotal(slices) > 0.0
    ensures InnerLabelShown(slices, i) <==> |slices| <= 10 && 100.0 * slices[i].value.v > 3.0 * PieTotal(slices)
  {
    var t := PieTotal(slices);
    var v := slices[i].value.v;
    var pct := v / t * 100.0;
    assert pct * t == 100.0 * v;
    if pct > 3.0 {
      MulStrictMono(3.0, pct, t);
    } else {
      MulMono(pct, 3.0, t);
    }
  }

  function NameOf(s: Slice): string {
    s.name
  }

  /**
   * Outer name labels: never for the comparison; otherwise on every slice
   * whose name is among the names of the first three slices.
   */
  predicate OuterLabelShown(slices: seq<Slice>, m: PieMetric, i: nat)
    requires i < |slices|
  {
    m != Comparativa && slices[i].name in Take(Map(slices, NameOf), 3)
  }

  /** With distinct names, exactly the three largest slices get an outer label. */
  lemma OuterLabelsTopThree(slices: seq<Slice>, m: PieMetric, i: nat)
    requires i < |slices| && Distinct(Map(slices, NameOf))
    ensures OuterLabelShown(slices, m, i) <==> m != Comparativa && i < 3
  {
    var names := Map(slices, NameOf);
    var top := Take(names, 3);
    if i < 3 {
      assert top[i] == slices[i].name;
    }
    if slices[i].name in top {
      var j :| 0 <= j < |top| && top[j] == slices[i].name;
      assert names[j] == names[i];
    }
  }
}
