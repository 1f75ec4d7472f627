/**
 * The demographic chart: total population per comarca and year, grouped in a
 * nested province → comarca → year dictionary, drawn either as one series
 * for the whole of Catalonia or as one series per selected comarca.
 */
module Demographic {
  import opened Values
  import opened Seqs
  import opened Sorting
  import opened Records

  /**
   * A JavaScript object used as a dictionary with string keys: its keys in
   * insertion order (the order of `Object.keys`) and its entries.
   */
  datatype Dict<V> = Dict(keys: seq<string>, at: map<string, V>)

  /** Keys listed once each, and listed exactly when they have an entry. */
  ghost predicate WellFormed<V>(d: Dict<V>) {
    Distinct(d.keys) && forall k :: k in d.at <==> k in d.keys
  }

  /** `obj[k] || fallback` for an object-valued entry (an object is never falsy). */
  function Get<V>(d: Dict<V>, k: string, fallback: V): V {
    if k in d.at then d.at[k] else fallback
  }

  /** `obj[k] = v`: a new key goes to the end of the key order. */
  function Put<V>(d: Dict<V>, k: string, v: V): (r: Dict<V>)
    ensures WellFormed(d) ==> WellFormed(r)
    ensures r.at == d.at[k := v]
  {
    Dict(if k in d.keys then d.keys else d.keys + [k], d.at[k := v])
  }

  /** Year → `poblacio_total`; year keys are integers. */
  type YearTable = map<int, Num>

  type Comarques = Dict<YearTable>

  /** `dataByProvinciaComarca`. */
  type Index = Dict<Comarques>

  const NoComarques: Comarques := Dict([], map[])

  /**
   * One step of the `forEach`: create the province and comarca objects when
   * missing, and write the year's population unless a truthy value is
   * already stored there (a stored 0, NaN or `undefined` is overwritten).
   */
  function Store(idx: Index, d: Record): Index {
    var prov := Get(idx, d.provincia, NoComarques);
    var years := Get(prov, d.comarca, map[]);
    var kept := d.any in years && Truthy(years[d.any]);
    Put(idx, d.provincia, Put(prov, d.comarca, if kept then years else years[d.any := d.poblacioTotal]))
  }

  /** The dictionary after the `forEach` over `data`. */
  function IndexOf(data: seq<Record>): Index {
    if data == [] then Dict([], map[])
    else Store(IndexOf(data[..|data| - 1]), data[|data| - 1])
  }

  /** The `forEach` that fills `dataByProvinciaComarca`, record by record. */
  method BuildIndex(data: seq<Record>) returns (idx: Index)
    ensures idx == IndexOf(data)
  {
    idx := Dict([], map[]);
    for i := 0 to |data|
      invariant idx == IndexOf(data[..i])
    {
      assert data[..i + 1][..i] == data[..i];
      idx := Store(idx, data[i]);
    }
    assert data[..|data|] == data;
  }

  /** `obj[p][c][y]`, or None where any level is missing. */
  function Lookup(idx: Index, p: string, c: string, y: int): Option<Num> {
    if p in idx.at && c in idx.at[p].at && y in idx.at[p].at[c] then Some(idx.at[p].at[c][y]) else None
  }

  lemma LookupStore(idx: Index, d: Record, p: string, c: string, y: int)
    ensures Lookup(Store(idx, d), p, c, y) ==
      if p == d.provincia && c == d.comarca && y == d.any then
        (if Lookup(idx, p, c, y).Some? && Truthy(Lookup(idx, p, c, y).value) then Lookup(idx, p, c, y)
         else Some(d.poblacioTotal))
      else Lookup(idx, p, c, y)
  {
  }

  /** The first truthy value of `vs` sits at `i`. */
  predicate FirstTruthy(vs: seq<Num>, i: int) {
    0 <= i < |vs| && Truthy(vs[i]) && forall j :: 0 <= j < i ==> !Truthy(vs[j])
  }

  /**
   * The value left by writing `vs` in order where each write happens only
   * while the stored value is falsy: the first truthy value, or the last
   * value when none is truthy; nothing for no writes.
   */
  function Resolve(vs: seq<Num>): (r: Option<Num>)
    ensures r.None? <==> vs == []
    ensures r.Some? ==> r.value in vs
    ensures forall i :: FirstTruthy(vs, i) ==> r == Some(vs[i])
    ensures vs != [] && (forall i :: 0 <= i < |vs| ==> !Truthy(vs[i])) ==> r == Some(vs[|vs| - 1])
  {
    if vs == [] then None
    else
      var init := vs[..|vs| - 1];
      var r := Resolve(init);
      assert forall i :: FirstTruthy(vs, i) && i < |init| ==> FirstTruthy(init, i);
      if r.Some? && Truthy(r.value) then r else Some(vs[|vs| - 1])
  }

  /** The records that write to `obj[p][c][y]`. */
  function At(p: string, c: string, y: int): Record -> bool {
    (d: Record) => d.provincia == p && d.comarca == c && d.any == y
  }

  function PopulationOf(d: Record): Num {
    d.poblacioTotal
  }

  /**
   * The stored population of a comarca and year is what the records with
   * that province, comarca and year leave behind, in data order: the first
   * truthy `poblacio_total`, else the last one, and no entry without records.
   */
  lemma {:induction false} IndexValue(data: seq<Record>, p: string, c: string, y: int)
    ensures Lookup(IndexOf(data), p, c, y) == Resolve(Map(Filter(data, At(p, c, y)), PopulationOf))
  {
    if data != [] {
      var init, d := data[..|data| - 1], data[|data| - 1];
      assert data == init + [d];
      IndexValue(init, p, c, y);
      LookupStore(IndexOf(init), d, p, c, y);
      FilterSnoc(init, d, At(p, c, y));
      var vs := Map(Filter(init, At(p, c, y)), PopulationOf);
      if At(p, c, y)(d) {
        MapSnoc(Filter(init, At(p, c, y)), d, PopulationOf);
        assert (vs + [d.poblacioTotal])[..|vs|] == vs;
      }
    }
  }

  /** Every key of the dictionary is listed once and has an entry. */
  lemma {:induction false} IndexWellFormed(data: seq<Record>)
    ensures WellFormed(IndexOf(data))
  {
    if data != [] {
      IndexWellFormed(data[..|data| - 1]);
    }
  }

  lemma StoreKeys(idx: Index, d: Record)
    ensures Store(idx, d).keys == if d.provincia in idx.keys then idx.keys else idx.keys + [d.provincia]
  {
  }

  /** The provinces of the dictionary are those of the records, in first-seen order. */
  lemma {:induction false} ProvinceKeys(data: seq<Record>)
    ensures IndexOf(data).keys == Dedup(Map(data, ProvinciaOf))
  {
    if data != [] {
      var init, d := data[..|data| - 1], data[|data| - 1];
      ProvinceKeys(init);
      assert data == init + [d];
      MapSnoc(init, d, ProvinciaOf);
      DedupSnoc(Map(init, ProvinciaOf), d.provincia);
      StoreKeys(IndexOf(init), d);
    }
  }

  function InProvinceOf(p: string): Record -> bool {
    (d: Record) => d.provincia == p
  }

  /** `Object.keys(obj[p] || {})`. */
  function ComarquesIn(idx: Index, p: string): seq<string> {
    Get(idx, p, NoComarques).keys
  }

  lemma StoreComarcaKeys(idx: Index, d: Record, p: string)
    ensures ComarquesIn(Store(idx, d), p) ==
      if d.provincia == p && d.comarca !in ComarquesIn(idx, p) then ComarquesIn(idx, p) + [d.comarca]
      else ComarquesIn(idx, p)
  {
  }

  /** Under every province, each comarca key is listed once and has an entry. */
  lemma {:induction false} ComarquesWellFormed(data: seq<Record>, p: string)
    ensures WellFormed(Get(IndexOf(data), p, NoComarques))
  {
    if data != [] {
      ComarquesWellFormed(data[..|data| - 1], p);
    }
  }

  /** The comarques stored under a province are those of its records, in first-seen order. */
  lemma {:induction false} ComarcaKeys(data: seq<Record>, p: string)
    ensures ComarquesIn(IndexOf(data), p) == Dedup(Map(Filter(data, InProvinceOf(p)), ComarcaOf))
  {
    if data != [] {
      var init, d := data[..|data| - 1], data[|data| - 1];
      assert data == init + [d];
      ComarcaKeys(init, p);
      StoreComarcaKeys(IndexOf(init), d, p);
      FilterSnoc(init, d, InProvinceOf(p));
      if d.provincia == p {
        var rows := Filter(init, InProvinceOf(p));
        MapSnoc(rows, d, ComarcaOf);
        DedupSnoc(Map(rows, ComarcaOf), d.comarca);
      }
    }
  }

  /** `getComarques(p)`: the province's comarques sorted, [] for an unknown province. */
  function GetComarques(idx: Index, p: string): (cs: seq<string>)
    ensures Distinct(cs) && SortedLex(cs, Self)
    ensures p !in idx.at ==> cs == []
    ensures forall c :: c in cs <==> c in ComarquesIn(idx, p)
  {
    SortedSet(ComarquesIn(idx, p))
  }

  /**
   * Read against the data: `getComarques(p)` lists, sorted and once each,
   * exactly the comarques that some record places in province `p`.
   */
  lemma GetComarquesOfData(data: seq<Record>, p: string, c: string)
    ensures c in GetComarques(IndexOf(data), p) <==> exists d :: d in data && d.provincia == p && d.comarca == c
  {
    ComarcaKeys(data, p);
    var rows := Filter(data, InProvinceOf(p));
    MapHas(rows, ComarcaOf, c);
  }

  /** `years`: the sixteen years 2006, 2007, ..., 2021. */
  function ChartYears(): (ys: seq<int>)
    ensures |ys| == 16
  {
    seq(16, i => 2006 + i)
  }

  /** The axis years are consecutive, from 2006 up to 2021. */
  lemma ChartYearsConsecutive()
    ensures ChartYears()[0] == 2006 && ChartYears()[15] == 2021
    ensures forall i :: 0 < i < 16 ==> ChartYears()[i] == ChartYears()[i - 1] + 1
  {
  }

  /** `obj[y] || 0` on a comarca's year table. */
  function YearValue(years: YearTable, y: int): real {
    if y in years then Or(years[y], 0.0) else 0.0
  }

  /** The sum of `obj[y] || 0` over the first `n` comarques of a province, in key order. */
  function ComarcaSum(prov: Comarques, n: nat, y: int): real
    requires n <= |prov.keys|
  {
    if n == 0 then 0.0
    else ComarcaSum(prov, n - 1, y) + YearValue(Get(prov, prov.keys[n - 1], map[]), y)
  }

  /** The sum over the comarques of the first `n` provinces, in key order. */
  function ProvinceSum(idx: Index, n: nat, y: int): real
    requires n <= |idx.keys|
  {
    if n == 0 then 0.0
    else
      var prov := Get(idx, idx.keys[n - 1], NoComarques);
      ProvinceSum(idx, n - 1, y) + ComarcaSum(prov, |prov.keys|, y)
  }

  /** `totalPopulation` for a year: every stored comarca of every province, missing years as 0. */
  function TotalAt(idx: Index, y: int): real {
    ProvinceSum(idx, |idx.keys|, y)
  }

  datatype Point = Point(year: int, population: real)

  datatype Series = Series(comarca: string, values: seq<Point>)

  /** The points of the 'Catalunya' series. */
  function CatalunyaPoints(idx: Index): (ps: seq<Point>)
    ensures |ps| == 16
    ensures forall i :: 0 <= i < 16 ==> ps[i] == Point(ChartYears()[i], TotalAt(idx, ChartYears()[i]))
  {
    seq(16, i requires 0 <= i < 16 => Point(2006 + i, TotalAt(idx, 2006 + i)))
  }

  /** The nested loops of the 'Totes' case: for each year, `totalPopulation += obj[p][c][y] || 0`. */
  method CatalunyaValues(idx: Index) returns (values: seq<Point>)
    ensures values == CatalunyaPoints(idx)
  {
    values := [];
    for k := 0 to 16
      invariant |values| == k
      invariant forall i :: 0 <= i < k ==> values[i] == Point(2006 + i, TotalAt(idx, 2006 + i))
    {
      var year := 2006 + k;
      var total := 0.0;
      for a := 0 to |idx.keys|
        invariant total == ProvinceSum(idx, a, year)
      {
        var prov := Get(idx, idx.keys[a], NoComarques);
        for b := 0 to |prov.keys|
          invariant total == ProvinceSum(idx, a, year) + ComarcaSum(prov, b, year)
        {
          total := total + YearValue(Get(prov, prov.keys[b], map[]), year);
        }
      }
      values := values + [Point(year, total)];
    }
  }

  /** No stored value is a negative number. */
  ghost predicate NonNegative(idx: Index) {
    forall p, c, y :: Lookup(idx, p, c, y).Some? && Lookup(idx, p, c, y).value.Fin? ==> Lookup(idx, p, c, y).value.v >= 0.0
  }

  /** With no negative population in the data, none is stored. */
  lemma IndexNonNegative(data: seq<Record>)
    requires forall d :: d in data && d.poblacioTotal.Fin? ==> d.poblacioTotal.v >= 0.0
    ensures NonNegative(IndexOf(data))
  {
    forall p, c, y | Lookup(IndexOf(data), p, c, y).Some? && Lookup(IndexOf(data), p, c, y).value.Fin?
      ensures Lookup(IndexOf(data), p, c, y).value.v >= 0.0
    {
      IndexValue(data, p, c, y);
      var rows := Filter(data, At(p, c, y));
      MapHas(rows, PopulationOf, Lookup(IndexOf(data), p, c, y).value);
    }
  }

  lemma {:induction false} ComarcaSumNonNegative(idx: Index, p: string, n: nat, y: int)
    requires NonNegative(idx) && n <= |Get(idx, p, NoComarques).keys|
    ensures ComarcaSum(Get(idx, p, NoComarques), n, y) >= 0.0
  {
    if n > 0 {
      ComarcaSumNonNegative(idx, p, n - 1, y);
      var prov := Get(idx, p, NoComarques);
      var c := prov.keys[n - 1];
      assert Lookup(idx, p, c, y).Some? ==> Lookup(idx, p, c, y).value == Get(prov, c, map[])[y];
    }
  }

  lemma {:induction false} ProvinceSumNonNegative(idx: Index, n: nat, y: int)
    requires NonNegative(idx) && n <= |idx.keys|
    ensures ProvinceSum(idx, n, y) >= 0.0
  {
    if n > 0 {
      ProvinceSumNonNegative(idx, n - 1, y);
      var p := idx.keys[n - 1];
      ComarcaSumNonNegative(idx, p, |Get(idx, p, NoComarques).keys|, y);
    }
  }

  /** The Catalonia total of a year is never negative when no population is. */
  lemma TotalNonNegative(data: seq<Record>, y: int)
    requires forall d :: d in data && d.poblacioTotal.Fin? ==> d.poblacioTotal.v >= 0.0
    ensures TotalAt(IndexOf(data), y) >= 0.0
  {
    IndexNonNegative(data);
    ProvinceSumNonNegative(IndexOf(data), |IndexOf(data).keys|, y);
  }

  /** A comarca's series: its stored population per axis year, 0 when missing or falsy. */
  function ComarcaSeries(idx: Index, p: string, c: string): (s: Series)
    ensures s.comarca == c && |s.values| == 16
    ensures forall i :: 0 <= i < 16 ==> s.values[i].year == ChartYears()[i]
    ensures forall i :: 0 <= i < 16 ==>
      s.values[i].population == (if Lookup(idx, p, c, 2006 + i).Some? then Or(Lookup(idx, p, c, 2006 + i).value, 0.0) else 0.0)
  {
    var years := Get(Get(idx, p, NoComarques), c, map[]);
    Series(c, seq(16, i requires 0 <= i < 16 => Point(2006 + i, YearValue(years, 2006 + i))))
  }

  /** The ticked comarques, or every comarca of the province when none is ticked. */
  function SelectedComarques(idx: Index, p: string, ticked: seq<string>): (cs: seq<string>)
    ensures ticked == [] ==> cs == GetComarques(idx, p)
    ensures ticked != [] ==> cs == ticked
  {
    if ticked == [] then GetComarques(idx, p) else ticked
  }

  /**
   * `chartData`: one 'Catalunya' series under 'Totes', otherwise one series
   * per selected comarca, in selection order.
   */
  function ChartData(idx: Index, p: string, ticked: seq<string>): (series: seq<Series>)
    ensures p == Totes ==> series == [Series("Catalunya", CatalunyaPoints(idx))]
    ensures p != Totes ==> |series| == |SelectedComarques(idx, p, ticked)|
    ensures p != Totes ==> forall i :: 0 <= i < |series| ==>
      series[i] == ComarcaSeries(idx, p, SelectedComarques(idx, p, ticked)[i])
  {
    if p == Totes then [Series("Catalunya", CatalunyaPoints(idx))]
    else
      var cs := SelectedComarques(idx, p, ticked);
      seq(|cs|, i requires 0 <= i < |cs| => ComarcaSeries(idx, p, cs[i]))
  }

  /** Every series of the chart has one point per axis year. */
  lemma ChartDataOnAxis(idx: Index, p: string, ticked: seq<string>)
    ensures forall s :: s in ChartData(idx, p, ticked) ==>
      |s.values| == 16 && forall i :: 0 <= i < 16 ==> s.values[i].year == ChartYears()[i]
  {
  }

  function SeriesName(s: Series): string {
    s.comarca
  }

  lemma NoneTickedNames(idx: Index, p: string)
    requires p != Totes
    ensures Map(ChartData(idx, p, []), SeriesName) == GetComarques(idx, p)
  {
  }

  /**
   * With no comarca ticked, a province's chart draws one series for each of
   * its comarques in the data, in sorted order.
   */
  lemma NoneTickedDrawsAll(data: seq<Record>, p: string, c: string)
    requires p != Totes
    ensures (exists s :: s in ChartData(IndexOf(data), p, []) && s.comarca == c) <==>
      exists d :: d in data && d.provincia == p && d.comarca == c
  {
    NoneTickedNames(IndexOf(data), p);
    MapHas(ChartData(IndexOf(data), p, []), SeriesName, c);
    GetComarquesOfData(data, p, c);
  }
}
