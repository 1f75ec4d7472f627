/**
 * The selective-share line charts (`percentSeriesByProv`, and the same
 * aggregation written inline in the provinces' percent-series chart): the
 * selective and total tonnes of every (province, year) are summed, and each
 * bucket becomes the percentage `sel / tot * 100`, or NaN when the total is
 * not positive.
 *
 * Unlike the weighted means, no record is skipped: every record creates its
 * bucket, and a missing or NaN tonnage counts as 0.
 */
module PercentLine {
  import opened Values
  import opened Seqs
  import opened Records
  import opened LineSeries

  /** A bucket's running sums `sel` and `tot`. */
  datatype Tally = Tally(sel: real, tot: real)

  /** `o.sel += s; o.tot += t`. */
  function AddTally(o: Tally, s: real, t: real): Tally {
    Tally(o.sel + s, o.tot + t)
  }

  /** `tmp.get(key)` right after a missing bucket has been created as `{ sel: 0, tot: 0 }`. */
  function StoredTally(m: map<Key, Tally>, k: Key): Tally {
    if k in m then m[k] else Tally(0.0, 0.0)
  }

  /** `d.tones_recollida_selectiva || 0`. */
  function SelTonnes(r: Record): real {
    Or(r.tonesSelectiva, 0.0)
  }

  /** The bucket of every record, in record order. */
  function RecordKeys(data: seq<Record>): (ks: seq<Key>)
    ensures |ks| == |data|
    ensures forall i :: 0 <= i < |data| ==> ks[i] == KeyOf(data[i])
  {
    if data == [] then [] else RecordKeys(data[..|data| - 1]) + [KeyOf(data[|data| - 1])]
  }

  /** The buckets of the map, in creation order. */
  function Keys(data: seq<Record>): (ks: seq<Key>)
    ensures Distinct(ks)
    ensures forall k :: k in ks <==> k in RecordKeys(data)
  {
    Dedup(RecordKeys(data))
  }

  /** Σ `sel || 0` over the records of bucket `k`. */
  function SelSum(data: seq<Record>, k: Key): real {
    if data == [] then 0.0
    else
      var d := data[|data| - 1];
      SelSum(data[..|data| - 1], k) + if KeyOf(d) == k then SelTonnes(d) else 0.0
  }

  /** Σ `(sel || 0) + (no || 0)` over the records of bucket `k`. */
  function TotSum(data: seq<Record>, k: Key): real {
    if data == [] then 0.0
    else
      var d := data[|data| - 1];
      TotSum(data[..|data| - 1], k) + if KeyOf(d) == k then TonnesTotal(d) else 0.0
  }

  function Tallied(data: seq<Record>, k: Key): Tally {
    Tally(SelSum(data, k), TotSum(data, k))
  }

  /** `tot > 0 ? (sel / tot) * 100 : NaN`. */
  function Percent(t: Tally): Num {
    if t.tot > 0.0 then Fin(t.sel / t.tot * 100.0) else NonFinite
  }

  function Percents(data: seq<Record>): (pcts: map<Key, Num>)
    ensures forall k :: k in pcts <==> k in Keys(data)
  {
    map k | k in Keys(data) :: Percent(Tallied(data, k))
  }

  /** The province → year-sorted points map that `percentSeriesByProv` returns. */
  function PercentSeries(data: seq<Record>): seq<Series> {
    Regrouped(Keys(data), Percents(data))
  }

  /** What the `forEach` over the records knows after the records of `seen`. */
  ghost predicate Tallies(seen: seq<Record>, keys: seq<Key>, m: map<Key, Tally>) {
    && keys == Keys(seen)
    && (forall k :: k in m <==> k in keys)
    && (forall k :: k in m ==> m[k] == Tallied(seen, k))
  }

  /** A bucket no record falls into has nothing summed. */
  lemma {:induction false} TallyEmpty(data: seq<Record>, k: Key)
    requires k !in RecordKeys(data)
    ensures Tallied(data, k) == Tally(0.0, 0.0)
  {
    if data != [] {
      assert RecordKeys(data) == RecordKeys(data[..|data| - 1]) + [KeyOf(data[|data| - 1])];
      TallyEmpty(data[..|data| - 1], k);
    }
  }

  /** Appending a record adds its tonnes to its own bucket and to no other. */
  lemma TallySnoc(seen: seq<Record>, d: Record, k: Key)
    ensures Tallied(seen + [d], k) ==
      if KeyOf(d) == k then AddTally(Tallied(seen, k), SelTonnes(d), TonnesTotal(d)) else Tallied(seen, k)
  {
    assert (seen + [d])[..|seen|] == seen;
  }

  /** A record creates its bucket if needed and adds its tonnes to it. */
  lemma TallyStep(seen: seq<Record>, d: Record, keys: seq<Key>, m: map<Key, Tally>, keys': seq<Key>, a: Tally)
    requires Tallies(seen, keys, m)
    requires keys' == if KeyOf(d) in m then keys else keys + [KeyOf(d)]
    requires a == AddTally(StoredTally(m, KeyOf(d)), SelTonnes(d), TonnesTotal(d))
    ensures Tallies(seen + [d], keys', m[KeyOf(d) := a])
  {
    TallyStepKeys(seen, d, keys, m, keys');
    var key := KeyOf(d);
    if key !in m {
      assert key !in RecordKeys(seen);
      TallyEmpty(seen, key);
    }
    TallyValuesStep(seen, d, m, a);
  }

  lemma TallyValuesStep(seen: seq<Record>, d: Record, m: map<Key, Tally>, a: Tally)
    requires forall k :: k in m ==> m[k] == Tallied(seen, k)
    requires StoredTally(m, KeyOf(d)) == Tallied(seen, KeyOf(d))
    requires a == AddTally(StoredTally(m, KeyOf(d)), SelTonnes(d), TonnesTotal(d))
    ensures forall k :: k in m[KeyOf(d) := a] ==> m[KeyOf(d) := a][k] == Tallied(seen + [d], k)
  {
    forall k | k in m[KeyOf(d) := a] ensures m[KeyOf(d) := a][k] == Tallied(seen + [d], k) {
      TallySnoc(seen, d, k);
    }
  }

  lemma TallyStepKeys(seen: seq<Record>, d: Record, keys: seq<Key>, m: map<Key, Tally>, keys': seq<Key>)
    requires keys == Keys(seen) && forall k :: k in m <==> k in keys
    requires keys' == if KeyOf(d) in m then keys else keys + [KeyOf(d)]
    ensures keys' == Keys(seen + [d])
  {
    assert (seen + [d])[..|seen|] == seen;
    DedupSnoc(RecordKeys(seen), KeyOf(d));
  }

  /** The `forEach` over the records: every record adds its tonnes to its bucket. */
  method TallyAll(data: seq<Record>) returns (keys: seq<Key>, m: map<Key, Tally>)
    ensures keys == Keys(data)
    ensures forall k :: k in m <==> k in keys
    ensures forall k :: k in m ==> m[k] == Tallied(data, k)
  {
    keys := [];
    m := map[];
    assert data[..0] == [];
    assert Keys([]) == [];
    for i := 0 to |data|
      invariant Tallies(data[..i], keys, m)
    {
      var d := data[i];
      assert data[..i + 1] == data[..i] + [d];
      var key := KeyOf(d);
      var o := StoredTally(m, key);
      var keys' := if key in m then keys else keys + [key];
      var s := SelTonnes(d);
      var a := AddTally(o, s, TonnesTotal(d));
      TallyStep(data[..i], d, keys, m, keys', a);
      keys, m := keys', m[key := a];
    }
    assert data[..|data|] == data;
  }

  /**
   * `percentSeriesByProv`: tallies every record into its bucket, turns each
   * bucket into its percentage and regroups the buckets by province.
   */
  method PercentSeriesByProv(data: seq<Record>) returns (series: seq<Series>)
    ensures series == PercentSeries(data)
  {
    var keys, m := TallyAll(data);
    var pcts := map k | k in m :: Percent(m[k]);
    assert pcts == Percents(data);
    series := Regroup(keys, pcts);
  }

  /** Neither tonnage is a negative number. */
  predicate NonNegativeTonnes(r: Record) {
    (r.tonesSelectiva.Fin? ==> r.tonesSelectiva.v >= 0.0) &&
    (r.tonesNoSelectiva.Fin? ==> r.tonesNoSelectiva.v >= 0.0)
  }

  /** With non-negative tonnages a bucket's selective sum lies between 0 and its total. */
  lemma {:induction false} SelWithinTot(data: seq<Record>, k: Key)
    requires forall r :: r in data ==> NonNegativeTonnes(r)
    ensures 0.0 <= SelSum(data, k) <= TotSum(data, k)
  {
    if data != [] {
      var init := data[..|data| - 1];
      var d := data[|data| - 1];
      assert data == init + [d];
      assert d in data;
      SelWithinTot(init, k);
    }
  }

  /**
   * With non-negative tonnages every bucket's value is NaN or a percentage
   * in [0, 100].
   */
  lemma PercentInRange(data: seq<Record>)
    requires forall r :: r in data ==> NonNegativeTonnes(r)
    ensures forall s, pt :: s in PercentSeries(data) && pt in s.values && pt.value.Fin? ==>
      0.0 <= pt.value.v <= 100.0
  {
    forall s, pt | s in PercentSeries(data) && pt in s.values && pt.value.Fin?
      ensures 0.0 <= pt.value.v <= 100.0
    {
      var k := Key(s.provincia, pt.year);
      RegroupedPoint(Keys(data), Percents(data), s, pt);
      SelWithinTot(data, k);
      PercentBounds(Tallied(data, k));
    }
  }

  lemma PercentBounds(t: Tally)
    requires 0.0 <= t.sel <= t.tot
    ensures Percent(t).Fin? ==> 0.0 <= Percent(t).v <= 100.0
  {
    if t.tot > 0.0 {
      DivBetween(t.sel, t.tot, 0.0, 1.0);
    }
  }

  /**
   * With non-negative tonnages a bucket is NaN exactly when all of its
   * records have zero (or missing) tonnes; a single record with no tonnes
   * would instead read 0 through `PercentSelectiva`.
   */
  lemma PercentNaNExactly(data: seq<Record>, k: Key)
    requires forall r :: r in data ==> NonNegativeTonnes(r)
    ensures Percent(Tallied(data, k)) == NonFinite <==>
      forall r :: r in data && KeyOf(r) == k ==> TonnesTotal(r) == 0.0
  {
    TotZeroExactly(data, k);
  }

  /** With non-negative tonnages a bucket's total is 0 exactly when each of its records' is. */
  lemma {:induction false} TotZeroExactly(data: seq<Record>, k: Key)
    requires forall r :: r in data ==> NonNegativeTonnes(r)
    ensures TotSum(data, k) >= 0.0
    ensures TotSum(data, k) == 0.0 <==> forall r :: r in data && KeyOf(r) == k ==> TonnesTotal(r) == 0.0
  {
    if data != [] {
      var init := data[..|data| - 1];
      var d := data[|data| - 1];
      assert data == init + [d];
      TotZeroExactly(init, k);
      assert d in data;
      assert TonnesTotal(d) >= 0.0;
      assert (forall r :: r in data && KeyOf(r) == k ==> TonnesTotal(r) == 0.0) <==>
        (forall r :: r in init && KeyOf(r) == k ==> TonnesTotal(r) == 0.0) && (KeyOf(d) == k ==> TonnesTotal(d) == 0.0);
    }
  }

  /**
   * Every record shows up: its province has a series, and that series has a
   * point for the record's year carrying its bucket's percentage.
   */
  lemma EveryRecordPlotted(data: seq<Record>)
    ensures forall r :: r in data ==> exists s ::
      s in PercentSeries(data) && s.provincia == r.provincia && Point(r.any, Percent(Tallied(data, KeyOf(r)))) in s.values
  {
    forall r | r in data ensures exists s ::
      s in PercentSeries(data) && s.provincia == r.provincia && Point(r.any, Percent(Tallied(data, KeyOf(r)))) in s.values
    {
      var i :| 0 <= i < |data| && data[i] == r;
      assert RecordKeys(data)[i] == KeyOf(r);
      RegroupedHas(Keys(data), Percents(data), KeyOf(r));
    }
  }

  /**
   * Each province has one series; each series holds one point per year it
   * has records for, sorted ascending by year.
   */
  lemma PercentSeriesShape(data: seq<Record>)
    ensures UniqueProvinces(PercentSeries(data))
    ensures forall s :: s in PercentSeries(data) ==> s.values != [] && StrictlyAscendingYears(s.values)
  {
    var series := PercentSeries(data);
    RegroupedShape(Keys(data), Percents(data));
    forall s | s in series ensures s.values != [] && StrictlyAscendingYears(s.values) {
      var j :| 0 <= j < |series| && series[j] == s;
    }
  }

  /** Every point stands for a (province, year) that some record has. */
  lemma PointsFromRecords(data: seq<Record>)
    ensures forall s, pt :: s in PercentSeries(data) && pt in s.values ==>
      Key(s.provincia, pt.year) in RecordKeys(data)
  {
    forall s, pt | s in PercentSeries(data) && pt in s.values
      ensures Key(s.provincia, pt.year) in RecordKeys(data)
    {
      RegroupedPoint(Keys(data), Percents(data), s, pt);
    }
  }

  /**
   * Lines and legend entries follow the map's own order: one per province,
   * in the order the provinces first occur among the records.
   */
  lemma LegendOrder(data: seq<Record>)
    ensures |PercentSeries(data)| == |Dedup(Map(data, ProvinciaOf))|
    ensures forall i :: 0 <= i < |PercentSeries(data)| ==>
      PercentSeries(data)[i].provincia == Dedup(Map(data, ProvinciaOf))[i]
  {
    ProvincesDedup(RecordKeys(data));
    assert KeyProvinces(RecordKeys(data)) == Map(data, ProvinciaOf);
  }

  /** The year list holds exactly the years of the records, each once. */
  lemma YearListExactly(data: seq<Record>)
    ensures forall y :: y in AllYears(PercentSeries(data)) <==> exists r :: r in data && r.any == y
  {
    forall y | y in AllYears(PercentSeries(data)) ensures exists r :: r in data && r.any == y {
      YearFromRecord(data, y);
    }
    forall r | r in data ensures r.any in AllYears(PercentSeries(data)) {
      RecordYearListed(data, r);
    }
  }

  lemma YearFromRecord(data: seq<Record>, y: int)
    requires y in AllYears(PercentSeries(data))
    ensures exists r :: r in data && r.any == y
  {
    var s, pt := YearWitness(PercentSeries(data), y);
    RegroupedPoint(Keys(data), Percents(data), s, pt);
    var r := KeyFromRecord(data, Key(s.provincia, y));
  }

  /** Every bucket comes from a record. */
  lemma KeyFromRecord(data: seq<Record>, k: Key) returns (r: Record)
    requires k in Keys(data)
    ensures r in data && KeyOf(r) == k
  {
    var ks := RecordKeys(data);
    var i :| 0 <= i < |ks| && ks[i] == k;
    r := data[i];
  }

  lemma RecordYearListed(data: seq<Record>, r: Record)
    requires r in data
    ensures r.any in AllYears(PercentSeries(data))
  {
    var series := PercentSeries(data);
    var i :| 0 <= i < |data| && data[i] == r;
    assert RecordKeys(data)[i] == KeyOf(r);
    RegroupedHas(Keys(data), Percents(data), KeyOf(r));
    var s :| s in series && s.provincia == r.provincia && Point(r.any, Percents(data)[KeyOf(r)]) in s.values;
  }

  /**
   * `drawLine`'s y domain is the fixed [0, 100]: with non-negative tonnages
   * every finite value of every selected series lies inside it.
   */
  lemma FixedDomainCovers(data: seq<Record>, sel: string)
    requires forall r :: r in data ==> NonNegativeTonnes(r)
    ensures forall s, pt :: s in Select(PercentSeries(data), sel) && pt in s.values && pt.value.Fin? ==>
      0.0 <= pt.value.v <= 100.0
  {
    PercentInRange(data);
  }
}
