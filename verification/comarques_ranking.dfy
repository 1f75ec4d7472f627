/**
 * The comarca ranking bar chart: the fifteen comarques of the chosen year
 * (and province) with the highest value of the chosen metric.
 */
module ComarquesRanking {
  import opened Values
  import opened Records
  import opened Ranking

  const Shown: nat := 15

  const SelectivaTitle := "Recollida selectiva kg/hab./dia"
  const RebuigTitle := "Rebuig kg/hab./dia"
  const TotalTitle := "Total kg/hab./dia"

  /** `metricCtrl.value || 'kg_selectiva_per_hab_dia'`. */
  function MetricName(selected: string): (m: string)
    ensures selected == "" ==> m == "kg_selectiva_per_hab_dia"
    ensures selected != "" ==> m == selected
  {
    if selected == "" then "kg_selectiva_per_hab_dia" else selected
  }

  /** `d => d[m]`. */
  function Accessor(m: string): Record -> Num {
    (r: Record) => Field(r, m)
  }

  /** The chart title: selective and non-selective metrics are named, anything else reads as the total. */
  function Title(m: string): (t: string)
    ensures t == SelectivaTitle <==> m == "kg_selectiva_per_hab_dia"
    ensures t == RebuigTitle <==> m == "kg_no_selectiva_per_hab_dia"
    ensures t == TotalTitle <==> m != "kg_selectiva_per_hab_dia" && m != "kg_no_selectiva_per_hab_dia"
  {
    if m == "kg_selectiva_per_hab_dia" then SelectivaTitle
    else if m == "kg_no_selectiva_per_hab_dia" then RebuigTitle
    else TotalTitle
  }

  /** `rankingBar`'s `sorted`: the finite rows, largest value first, at most fifteen. */
  function Ranked15(rows: seq<Record>, m: string): (top: seq<Record>)
    ensures |top| <= Shown
    ensures forall i :: 0 <= i < |top| ==> top[i] in rows && Field(top[i], m).Fin?
  {
    TopN(rows, Accessor(m), Shown)
  }

  /** `render`: the rows of the chosen year and province, ranked by the chosen metric. */
  function Render(data: seq<Record>, year: int, provSelect: string, metricSelect: string): (top: seq<Record>)
    ensures forall i :: 0 <= i < |top| ==>
      top[i] in data && InSelection(top[i], year, ProvinceOrTotes(provSelect))
      && Field(top[i], MetricName(metricSelect)).Fin?
  {
    Ranked15(SelectRows(data, year, ProvinceOrTotes(provSelect)), MetricName(metricSelect))
  }

  /** The x domain `[0, d3.max(sorted, accessor) || 1]` covers every bar. */
  function XDomain(top: seq<Record>, m: string): (d: (real, real))
    requires forall i :: 0 <= i < |top| ==> Field(top[i], m).Fin?
    requires forall i, j :: 0 <= i < j < |top| ==> Score(Accessor(m))(top[i]) >= Score(Accessor(m))(top[j])
    ensures d.0 == 0.0
    ensures d.1 == if top == [] || Field(top[0], m).v == 0.0 then 1.0 else Field(top[0], m).v
    ensures forall i :: 0 <= i < |top| ==> Field(top[i], m).v <= d.1
  {
    (0.0, AxisMax(top, Accessor(m)))
  }

  /** A name that is no numeric column of the records (a text column, or no column at all) ranks nothing. */
  lemma UnknownMetricEmpty(rows: seq<Record>, m: string)
    requires m !in FieldNames
    ensures Ranked15(rows, m) == []
  {
  }
}
