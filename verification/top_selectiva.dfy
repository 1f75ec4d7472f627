/**
 * The "top selective collection" bar chart: the ten comarques of the chosen
 * year (and province) with the highest selective kilograms per inhabitant
 * and day.
 */
module TopSelectiva {
  import opened Values
  import opened Records
  import opened Ranking

  /** `d => d.kg_selectiva_per_hab_dia`. */
  function KgSelectiva(r: Record): Num {
    r.kgSelectivaPerHabDia
  }

  const Shown: nat := 10

  /**
   * `topBar`'s `top`: the finite rows, largest value first, at most ten. The
   * comparator's `-Infinity` fallback for a non-finite value never applies,
   * because such rows are filtered out before the sort.
   */
  function Top(rows: seq<Record>): (top: seq<Record>)
    ensures |top| <= Shown
    ensures forall i :: 0 <= i < |top| ==> top[i] in rows && KgSelectiva(top[i]).Fin?
  {
    TopN(rows, KgSelectiva, Shown)
  }

  /** `render`: the rows of the chosen year and province, ranked. */
  function Render(data: seq<Record>, year: int, provSelect: string): (top: seq<Record>)
    ensures forall i :: 0 <= i < |top| ==>
      top[i] in data && InSelection(top[i], year, ProvinceOrTotes(provSelect))
  {
    Top(SelectRows(data, year, ProvinceOrTotes(provSelect)))
  }

  /** The x domain `[0, d3.max(top, value) || 1]`: up to the best bar, or [0, 1] for no bars or a best of 0. */
  function XDomain(top: seq<Record>): (d: (real, real))
    requires forall i :: 0 <= i < |top| ==> KgSelectiva(top[i]).Fin?
    requires forall i, j :: 0 <= i < j < |top| ==> Score(KgSelectiva)(top[i]) >= Score(KgSelectiva)(top[j])
    ensures d.0 == 0.0
    ensures d.1 == if top == [] || KgSelectiva(top[0]).v == 0.0 then 1.0 else KgSelectiva(top[0]).v
    ensures forall i :: 0 <= i < |top| ==> KgSelectiva(top[i]).v <= d.1
  {
    (0.0, AxisMax(top, KgSelectiva))
  }
}
