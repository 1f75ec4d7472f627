/**
 * The second half of the provincial line charts' aggregation, shared by the
 * population-weighted mean series and the selective-share series: buckets
 * keyed by (province, year) are regrouped into one array of points per
 * province, each array is sorted by year, and the chart then picks the series
 * to draw and its y range.
 *
 * The bucket key in the charts is the string `${provincia}__${any}`. A year's
 * decimal form contains no '_', so two buckets share a string key exactly
 * when they share province and year; the model keys buckets by the pair.
 */
module LineSeries {
  import opened Values
  import opened Seqs
  import opened Sorting
  import opened Text
  import opened Records

  datatype Key = Key(provincia: string, year: int)

  /** The bucket a record falls into. */
  function KeyOf(r: Record): Key {
    Key(r.provincia, r.any)
  }

  /** `{ year, value }`. */
  datatype Point = Point(year: int, value: Num)

  /** One entry of the province → points `Map` (or of the drawn `dataSeries`). */
  datatype Series = Series(provincia: string, values: seq<Point>)

  function NegYear(pt: Point): real {
    -(pt.year as real)
  }

  /** `arr.sort((a, b) => a.year - b.year)`: ascending by year, stable. */
  function ByYear(pts: seq<Point>): seq<Point> {
    SortDesc(pts, NegYear)
  }

  ghost predicate StrictlyAscendingYears(pts: seq<Point>) {
    forall i, j :: 0 <= i < j < |pts| ==> pts[i].year < pts[j].year
  }

  function KeyProvinces(keys: seq<Key>): (ps: seq<string>)
    ensures |ps| == |keys|
    ensures forall i :: 0 <= i < |keys| ==> ps[i] == keys[i].provincia
  {
    seq(|keys|, i requires 0 <= i < |keys| => keys[i].provincia)
  }

  /** The provinces of the buckets, in the order their first bucket was created. */
  function Provinces(keys: seq<Key>): (ps: seq<string>)
    ensures Distinct(ps)
    ensures forall p :: p in ps <==> exists k :: k in keys && k.provincia == p
  {
    var r := Dedup(KeyProvinces(keys));
    assert forall p :: p in KeyProvinces(keys) <==> exists k :: k in keys && k.provincia == p by {
      forall p | p in KeyProvinces(keys) ensures exists k :: k in keys && k.provincia == p {
        var i :| 0 <= i < |keys| && KeyProvinces(keys)[i] == p;
        assert keys[i] in keys;
      }
      forall p | (exists k :: k in keys && k.provincia == p) ensures p in KeyProvinces(keys) {
        var k :| k in keys && k.provincia == p;
        var i :| 0 <= i < |keys| && keys[i] == k;
        assert KeyProvinces(keys)[i] == p;
      }
    }
    r
  }

  /** The points pushed onto province `p`'s array, in bucket order. */
  function PointsOf(keys: seq<Key>, values: map<Key, Num>, p: string): (pts: seq<Point>)
    requires forall k :: k in keys ==> k in values
    ensures forall pt :: pt in pts <==> Key(p, pt.year) in keys && pt.value == values[Key(p, pt.year)]
    ensures pts == [] <==> forall k :: k in keys ==> k.provincia != p
  {
    if keys == [] then []
    else
      var init := keys[..|keys| - 1];
      var k := keys[|keys| - 1];
      assert keys == init + [k];
      var pts := PointsOf(init, values, p);
      if k.provincia == p then pts + [Point(k.year, values[k])] else pts
  }

  /** `Series` for each province of `ps`, its points sorted by year. */
  function SeriesOf(keys: seq<Key>, values: map<Key, Num>, ps: seq<string>): (series: seq<Series>)
    requires forall k :: k in keys ==> k in values
    ensures |series| == |ps|
    ensures forall i :: 0 <= i < |ps| ==>
      series[i] == Series(ps[i], ByYear(PointsOf(keys, values, ps[i])))
  {
    seq(|ps|, i requires 0 <= i < |ps| => Series(ps[i], ByYear(PointsOf(keys, values, ps[i]))))
  }

  lemma SeriesOfPrefix(keys: seq<Key>, values: map<Key, Num>, ps: seq<string>, j: nat)
    requires forall k :: k in keys ==> k in values
    requires j < |ps|
    ensures SeriesOf(keys, values, ps[..j + 1]) ==
      SeriesOf(keys, values, ps[..j]) + [Series(ps[j], ByYear(PointsOf(keys, values, ps[j])))]
  {
    var a := SeriesOf(keys, values, ps[..j + 1]);
    var b := SeriesOf(keys, values, ps[..j]) + [Series(ps[j], ByYear(PointsOf(keys, values, ps[j])))];
    assert |a| == |b|;
    forall i | 0 <= i < |a| ensures a[i] == b[i] {
      assert ps[..j + 1][i] == ps[i];
    }
  }

  lemma ProvincesSnoc(keys: seq<Key>, k: Key)
    ensures Provinces(keys + [k]) ==
      if k.provincia in Provinces(keys) then Provinces(keys) else Provinces(keys) + [k.provincia]
  {
    assert KeyProvinces(keys + [k]) == KeyProvinces(keys) + [k.provincia];
    DedupSnoc(KeyProvinces(keys), k.provincia);
  }

  lemma PointsOfSnoc(keys: seq<Key>, k: Key, values: map<Key, Num>, p: string)
    requires forall k' :: k' in keys + [k] ==> k' in values
    ensures PointsOf(keys + [k], values, p) ==
      if k.provincia == p then PointsOf(keys, values, p) + [Point(k.year, values[k])] else PointsOf(keys, values, p)
  {
    assert (keys + [k])[..|keys|] == keys;
  }

  /** Deduplicating the buckets first does not change their provinces' order. */
  lemma {:induction false} ProvincesDedup(keys: seq<Key>)
    ensures Provinces(Dedup(keys)) == Provinces(keys)
  {
    if keys != [] {
      var init := keys[..|keys| - 1];
      var k := keys[|keys| - 1];
      assert keys == init + [k];
      ProvincesDedup(init);
      DedupSnoc(init, k);
      ProvincesSnoc(init, k);
      if k !in Dedup(init) {
        ProvincesSnoc(Dedup(init), k);
      } else {
        assert k in init;
      }
    }
  }

  /** The province → sorted points map built from the buckets `keys` and their `values`. */
  function Regrouped(keys: seq<Key>, values: map<Key, Num>): seq<Series>
    requires forall k :: k in keys ==> k in values
  {
    SeriesOf(keys, values, Provinces(keys))
  }

  /**
   * Pushes each bucket onto its province's array, creating the array on the
   * province's first bucket.
   */
  method GroupByProvince(keys: seq<Key>, values: map<Key, Num>)
      returns (provs: seq<string>, byProv: map<string, seq<Point>>)
    requires forall k :: k in keys ==> k in values
    ensures provs == Provinces(keys)
    ensures forall p :: p in byProv <==> p in provs
    ensures forall p :: p in byProv ==> byProv[p] == PointsOf(keys, values, p)
  {
    provs := [];
    byProv := map[];
    for j := 0 to |keys|
      invariant (provs, byProv) == GroupState(keys[..j], values)
    {
      var k := keys[j];
      assert keys[..j + 1] == keys[..j] + [k];
      if k.provincia !in byProv {
        provs := provs + [k.provincia];
      }
      byProv := Push(byProv, k, values);
    }
    assert keys[..|keys|] == keys;
    GroupStateProvinces(keys, values);
    forall p | p in byProv ensures byProv[p] == PointsOf(keys, values, p) {
      GroupStatePoints(keys, values, p);
    }
  }

  /** The loop's `(provinces, byProv)` after pushing the buckets `done` in order. */
  function GroupState(done: seq<Key>, values: map<Key, Num>): (seq<string>, map<string, seq<Point>>)
    requires forall k :: k in done ==> k in values
  {
    if done == [] then ([], map[])
    else
      var k := done[|done| - 1];
      var (provs, byProv) := GroupState(done[..|done| - 1], values);
      (if k.provincia in byProv then provs else provs + [k.provincia], Push(byProv, k, values))
  }

  /** The loop's province list is the first-seen order of the provinces, each with an array. */
  lemma {:induction false} GroupStateProvinces(done: seq<Key>, values: map<Key, Num>)
    requires forall k :: k in done ==> k in values
    ensures GroupState(done, values).0 == Provinces(done)
    ensures forall p :: p in GroupState(done, values).1 <==> p in GroupState(done, values).0
  {
    if done != [] {
      var init, k := done[..|done| - 1], done[|done| - 1];
      assert done == init + [k];
      GroupStateProvinces(init, values);
      ProvincesSnoc(init, k);
    }
  }

  /** Each province's array holds its buckets' points in bucket order. */
  lemma {:induction false} GroupStatePoints(done: seq<Key>, values: map<Key, Num>, p: string)
    requires forall k :: k in done ==> k in values
    ensures p in GroupState(done, values).1 ==> GroupState(done, values).1[p] == PointsOf(done, values, p)
    ensures p !in GroupState(done, values).1 ==> PointsOf(done, values, p) == []
  {
    if done != [] {
      var init, k := done[..|done| - 1], done[|done| - 1];
      assert done == init + [k];
      GroupStatePoints(init, values, p);
      PointsOfSnoc(init, k, values, p);
    }
  }

  /** `byProv.get(p).push({ year, value })`, creating the array first when missing. */
  function Push(byProv: map<string, seq<Point>>, k: Key, values: map<Key, Num>): map<string, seq<Point>>
    requires k in values
  {
    byProv[k.provincia := (if k.provincia in byProv then byProv[k.provincia] else []) + [Point(k.year, values[k])]]
  }

  /** Groups the buckets by province, then sorts every province's array by year. */
  method Regroup(keys: seq<Key>, values: map<Key, Num>) returns (series: seq<Series>)
    requires forall k :: k in keys ==> k in values
    ensures series == Regrouped(keys, values)
  {
    var provs, byProv := GroupByProvince(keys, values);
    series := [];
    for j := 0 to |provs|
      invariant series == SeriesOf(keys, values, provs[..j])
    {
      var p := provs[j];
      assert p in provs;
      var pts := byProv[p];
      assert pts == PointsOf(keys, values, p);
      SeriesOfPrefix(keys, values, provs, j);
      series := series + [Series(p, ByYear(pts))];
    }
    assert provs[..|provs|] == provs;
  }

  /** Distinct buckets of one province have distinct years. */
  lemma {:induction false} PointsOfDistinctYears(keys: seq<Key>, values: map<Key, Num>, p: string)
    requires forall k :: k in keys ==> k in values
    requires Distinct(keys)
    ensures forall i, j :: 0 <= i < j < |PointsOf(keys, values, p)| ==>
      PointsOf(keys, values, p)[i].year != PointsOf(keys, values, p)[j].year
  {
    if keys != [] {
      var init := keys[..|keys| - 1];
      var k := keys[|keys| - 1];
      assert keys == init + [k];
      PointsOfDistinctYears(init, values, p);
      var pts := PointsOf(init, values, p);
      if k.provincia == p {
        forall i | 0 <= i < |pts| ensures pts[i].year != k.year {
          assert pts[i] in pts;
          assert Key(p, pts[i].year) in init;
        }
      }
    }
  }

  /**
   * The regrouped map has one series per bucket province, in first-seen
   * order; each series is non-empty, holds exactly the buckets of its
   * province with their values, and runs strictly ascending by year.
   */
  lemma RegroupedShape(keys: seq<Key>, values: map<Key, Num>)
    requires forall k :: k in keys ==> k in values
    requires Distinct(keys)
    ensures var series := Regrouped(keys, values);
      && |series| == |Provinces(keys)|
      && (forall i :: 0 <= i < |series| ==> series[i].provincia == Provinces(keys)[i])
      && (forall i :: 0 <= i < |series| ==> series[i].values != [])
      && (forall i, pt :: 0 <= i < |series| ==>
            (pt in series[i].values <==>
              Key(series[i].provincia, pt.year) in keys && pt.value == values[Key(series[i].provincia, pt.year)]))
      && (forall i :: 0 <= i < |series| ==> StrictlyAscendingYears(series[i].values))
  {
    var series := Regrouped(keys, values);
    forall i | 0 <= i < |series|
      ensures series[i].values != []
      ensures StrictlyAscendingYears(series[i].values)
    {
      var p := Provinces(keys)[i];
      var pts := PointsOf(keys, values, p);
      assert p in Provinces(keys);
      PointsOfDistinctYears(keys, values, p);
      SortDescStrict(pts, NegYear);
    }
  }

  /** Every bucket appears as a point of its province's series. */
  lemma RegroupedHas(keys: seq<Key>, values: map<Key, Num>, k: Key)
    requires forall k :: k in keys ==> k in values
    requires k in keys
    ensures exists s ::
      s in Regrouped(keys, values) && s.provincia == k.provincia && Point(k.year, values[k]) in s.values
  {
    var series := Regrouped(keys, values);
    var ps := Provinces(keys);
    assert k.provincia in ps;
    var j :| 0 <= j < |ps| && ps[j] == k.provincia;
    assert Point(k.year, values[k]) in PointsOf(keys, values, k.provincia);
    assert series[j] in series;
  }

  /** Every point of every series is one of the buckets, carrying its value. */
  lemma RegroupedPoint(keys: seq<Key>, values: map<Key, Num>, s: Series, pt: Point)
    requires forall k :: k in keys ==> k in values
    requires s in Regrouped(keys, values) && pt in s.values
    ensures Key(s.provincia, pt.year) in keys && pt.value == values[Key(s.provincia, pt.year)]
  {
    var series := Regrouped(keys, values);
    var j :| 0 <= j < |series| && series[j] == s;
    assert pt in PointsOf(keys, values, s.provincia);
  }

  /** `seriesMap.get(p) || []`: the points of the series named `p`, or none. */
  function Lookup(series: seq<Series>, p: string): (pts: seq<Point>)
    ensures (forall s :: s in series ==> s.provincia != p) ==> pts == []
    ensures pts != [] ==> Series(p, pts) in series
  {
    if series == [] then []
    else if series[0].provincia == p then series[0].values
    else
      assert series == [series[0]] + series[1..];
      Lookup(series[1..], p)
  }

  /** With one series per province, the lookup finds that series' points. */
  lemma {:induction false} LookupUnique(series: seq<Series>, s: Series)
    requires UniqueProvinces(series)
    requires s in series
    ensures Lookup(series, s.provincia) == s.values
  {
    if series[0] != s {
      assert s in series[1..];
      var j :| 0 <= j < |series[1..]| && series[1..][j] == s;
      assert series[j + 1] == s;
      LookupUnique(series[1..], s);
    }
  }

  /** Each province names at most one series, as in a `Map`. */
  predicate UniqueProvinces(series: seq<Series>) {
    forall i, j :: 0 <= i < j < |series| ==> series[i].provincia != series[j].provincia
  }

  function NonEmpty(series: seq<Series>): (r: seq<Series>)
    ensures forall s :: s in r <==> s in series && s.values != []
    ensures |r| <= |series|
  {
    if series == [] then []
    else
      assert series == [series[0]] + series[1..];
      (if series[0].values != [] then [series[0]] else []) + NonEmpty(series[1..])
  }

  lemma {:induction false} NonEmptyAll(series: seq<Series>)
    requires forall i :: 0 <= i < |series| ==> series[i].values != []
    ensures NonEmpty(series) == series
  {
    if series != [] {
      NonEmptyAll(series[1..]);
      assert series == [series[0]] + series[1..];
    }
  }

  /**
   * `dataSeries`: for 'Totes' every province of the map, otherwise only the
   * selected one, dropping series without points.
   */
  function Select(series: seq<Series>, sel: string): (shown: seq<Series>)
    ensures forall s :: s in shown ==> s in series && s.values != []
    ensures sel == Totes ==> forall s :: s in series && s.values != [] ==> s in shown
    ensures sel != Totes ==> |shown| <= 1 && forall s :: s in shown ==> s.provincia == sel
  {
    if sel == Totes then NonEmpty(series)
    else
      var pts := Lookup(series, sel);
      if pts == [] then [] else [Series(sel, pts)]
  }

  /**
   * Nothing is drawn ("no data for this selection") exactly when there is
   * no selected series with points.
   */
  predicate NoData(series: seq<Series>, sel: string) {
    Select(series, sel) == []
  }

  lemma NoDataExactly(series: seq<Series>, sel: string)
    requires UniqueProvinces(series)
    ensures NoData(series, sel) <==>
      forall s :: s in series && (sel == Totes || s.provincia == sel) ==> s.values == []
  {
    if sel == Totes && !NoData(series, sel) {
      assert Select(series, sel)[0] in Select(series, sel);
    }
    if sel != Totes && !NoData(series, sel) {
      assert Select(series, sel)[0] in Select(series, sel);
    }
    if sel != Totes && NoData(series, sel) {
      forall s | s in series && s.provincia == sel ensures s.values == [] {
        LookupUnique(series, s);
      }
    }
  }

  /** Under 'Totes' a regrouped map is drawn whole, in its own order. */
  lemma SelectTotesRegrouped(keys: seq<Key>, values: map<Key, Num>)
    requires forall k :: k in keys ==> k in values
    requires Distinct(keys)
    ensures Select(Regrouped(keys, values), Totes) == Regrouped(keys, values)
  {
    RegroupedShape(keys, values);
    NonEmptyAll(Regrouped(keys, values));
  }

  /** `d3.max(s.values, v => v.value)`, as a number (`undefined` when none is finite). */
  function SeriesMax(s: Series): Num {
    var m := D3Max(ValuesOf(s.values));
    if m.Some? then Fin(m.value) else NonFinite
  }

  function ValuesOf(pts: seq<Point>): (vs: seq<Num>)
    ensures |vs| == |pts|
    ensures forall i :: 0 <= i < |pts| ==> vs[i] == pts[i].value
  {
    seq(|pts|, i requires 0 <= i < |pts| => pts[i].value)
  }

  function SeriesMaxes(shown: seq<Series>): (ms: seq<Num>)
    ensures |ms| == |shown|
    ensures forall i :: 0 <= i < |shown| ==> ms[i] == SeriesMax(shown[i])
  {
    seq(|shown|, i requires 0 <= i < |shown| => SeriesMax(shown[i]))
  }

  /** `m` is the largest finite value plotted in `shown`. */
  predicate PlottedMax(shown: seq<Series>, m: real) {
    && (exists s, pt :: s in shown && pt in s.values && pt.value == Fin(m))
    && (forall s, pt :: s in shown && pt in s.values && pt.value.Fin? ==> pt.value.v <= m)
  }

  /**
   * The upper end of the y domain, `d3.max(dataSeries, s => d3.max(s.values)) || 1`:
   * the largest finite plotted value, or 1 when there is none or it is 0.
   */
  function YUpper(shown: seq<Series>): (top: real)
    ensures forall s, pt :: s in shown && pt in s.values && pt.value.Fin? ==> pt.value.v <= top
    ensures top == 1.0 || exists s, pt :: s in shown && pt in s.values && pt.value == Fin(top)
    ensures forall m :: PlottedMax(shown, m) && m != 0.0 ==> top == m
    ensures (forall m :: PlottedMax(shown, m) ==> m == 0.0) ==> top == 1.0
  {
    SeriesMaxesBound(shown);
    PlottedMaxIsD3Max(shown);
    OrDefault(D3Max(SeriesMaxes(shown)), 1.0)
  }

  /** The maximum over the series' maxima is the largest plotted value, and there is no other. */
  lemma PlottedMaxIsD3Max(shown: seq<Series>)
    ensures var d := D3Max(SeriesMaxes(shown));
      && (d.Some? ==> PlottedMax(shown, d.value))
      && (forall m :: PlottedMax(shown, m) ==> d == Some(m))
  {
    var d := D3Max(SeriesMaxes(shown));
    SeriesMaxesBound(shown);
    forall m | PlottedMax(shown, m) ensures d == Some(m) {
      var s, pt :| s in shown && pt in s.values && pt.value == Fin(m);
      assert d.Some? && m <= d.value;
      var s2, pt2 :| s2 in shown && pt2 in s2.values && pt2.value == Fin(d.value);
      assert d.value <= m;
    }
  }

  lemma SeriesMaxesBound(shown: seq<Series>)
    ensures var m := D3Max(SeriesMaxes(shown));
      && (forall s, pt :: s in shown && pt in s.values && pt.value.Fin? ==> m.Some? && pt.value.v <= m.value)
      && (m.Some? ==> exists s, pt :: s in shown && pt in s.values && pt.value == Fin(m.value))
  {
    var ms := SeriesMaxes(shown);
    var m := D3Max(ms);
    forall s, pt | s in shown && pt in s.values && pt.value.Fin?
      ensures m.Some? && pt.value.v <= m.value
    {
      var i :| 0 <= i < |shown| && shown[i] == s;
      PointBelowSeriesMax(s, pt);
      assert ms[i] in ms;
    }
    if m.Some? {
      var i :| 0 <= i < |ms| && ms[i] == Fin(m.value);
      SeriesMaxAttained(shown[i]);
    }
  }

  /** A finite point of a series is at most the series' maximum. */
  lemma PointBelowSeriesMax(s: Series, pt: Point)
    requires pt in s.values && pt.value.Fin?
    ensures SeriesMax(s).Fin? && pt.value.v <= SeriesMax(s).v
  {
    var j :| 0 <= j < |s.values| && s.values[j] == pt;
    assert ValuesOf(s.values)[j] == pt.value;
  }

  /** A finite series maximum is the value of one of its points. */
  lemma SeriesMaxAttained(s: Series)
    requires SeriesMax(s).Fin?
    ensures exists pt :: pt in s.values && pt.value == SeriesMax(s)
  {
    var vs := ValuesOf(s.values);
    var j :| 0 <= j < |vs| && vs[j] == SeriesMax(s);
    assert s.values[j] in s.values;
  }

  /** All years of all series: the points' years in map order. */
  function AllYearsRaw(series: seq<Series>): (ys: seq<int>)
    ensures forall y :: y in ys <==> exists s, pt :: s in series && pt in s.values && pt.year == y
  {
    if series == [] then []
    else
      var s := series[|series| - 1];
      var init := series[..|series| - 1];
      assert series == init + [s];
      AllYearsRaw(init) + YearsOf(s.values)
  }

  function YearsOf(pts: seq<Point>): (ys: seq<int>)
    ensures |ys| == |pts|
    ensures forall i :: 0 <= i < |pts| ==> ys[i] == pts[i].year
  {
    seq(|pts|, i requires 0 <= i < |pts| => pts[i].year)
  }

  /**
   * `Array.from(new Set(years)).sort()`: the distinct years, in the default
   * (string) order of `Array.prototype.sort`.
   */
  function AllYears(series: seq<Series>): (ys: seq<int>)
    ensures forall y :: y in ys <==> exists s, pt :: s in series && pt in s.values && pt.year == y
    ensures Distinct(ys)
  {
    SortedNumbers(AllYearsRaw(series))
  }

  /** A point of some series that carries a listed year. */
  lemma YearWitness(series: seq<Series>, y: int) returns (s: Series, pt: Point)
    requires y in AllYears(series)
    ensures s in series && pt in s.values && pt.year == y
  {
    s, pt :| s in series && pt in s.values && pt.year == y;
  }

  /** For four-digit years the string order is the numeric order. */
  lemma AllYearsAscending(series: seq<Series>)
    requires forall s, pt :: s in series && pt in s.values ==> 1000 <= pt.year <= 9999
    ensures forall i, j :: 0 <= i < j < |AllYears(series)| ==> AllYears(series)[i] < AllYears(series)[j]
  {
    SortedNumbersAscending(AllYearsRaw(series));
  }
}
