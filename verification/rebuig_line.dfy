/**
 * The waste line chart's aggregation (`groupByProvYear`): population-weighted
 * means of a per-record value, one per (province, year), regrouped into one
 * year-sorted series per province.
 *
 * The weight is `poblacio || 0`; a record whose value is not finite, or whose
 * weight is not finite or not positive, is skipped before its bucket is even
 * created.
 */
module RebuigLine {
  import opened Values
  import opened Seqs
  import opened Records
  import opened LineSeries

  /** `d.poblacio || 0`. */
  function Weight(r: Record): real {
    Or(r.poblacio, 0.0)
  }

  /** The records that pass the skip check. */
  predicate Counted(r: Record, value: Record -> Num) {
    value(r).Fin? && Weight(r) > 0.0
  }

  /** A bucket's running sums Σw and Σv·w. */
  datatype Acc = Acc(wsum: real, wval: real)

  /** `obj.wsum += w; obj.wval += v * w`. */
  function AddTo(o: Acc, w: real, v: real): Acc {
    Acc(o.wsum + w, o.wval + v * w)
  }

  /** `m.get(key)` right after a missing bucket has been created as `{ wsum: 0, wval: 0 }`. */
  function Stored<K>(m: map<K, Acc>, k: K): Acc {
    if k in m then m[k] else Acc(0.0, 0.0)
  }

  /** Some counted record falls into bucket `k`. */
  predicate HasCounted(data: seq<Record>, value: Record -> Num, k: Key) {
    data != [] &&
    (HasCounted(data[..|data| - 1], value, k) || (Counted(data[|data| - 1], value) && KeyOf(data[|data| - 1]) == k))
  }

  lemma {:induction false} HasCountedIndex(data: seq<Record>, value: Record -> Num, k: Key)
    ensures HasCounted(data, value, k) <==>
      exists i :: 0 <= i < |data| && Counted(data[i], value) && KeyOf(data[i]) == k
  {
    if data != [] {
      var init := data[..|data| - 1];
      HasCountedIndex(init, value, k);
      if HasCounted(init, value, k) {
        var i :| 0 <= i < |init| && Counted(init[i], value) && KeyOf(init[i]) == k;
        assert data[i] == init[i];
      }
      if exists i :: 0 <= i < |data| && Counted(data[i], value) && KeyOf(data[i]) == k {
        var i :| 0 <= i < |data| && Counted(data[i], value) && KeyOf(data[i]) == k;
        if i < |init| {
          assert init[i] == data[i];
        }
      }
    }
  }

  /** The keys of the counted records, one per counted record, in order. */
  function CountedKeys(data: seq<Record>, value: Record -> Num): (ks: seq<Key>)
    ensures forall k :: k in ks <==> HasCounted(data, value, k)
  {
    if data == [] then []
    else
      var init := data[..|data| - 1];
      var d := data[|data| - 1];
      var ks := CountedKeys(init, value);
      if Counted(d, value) then ks + [KeyOf(d)] else ks
  }

  /** The buckets of the map, in creation order. */
  function Keys(data: seq<Record>, value: Record -> Num): (ks: seq<Key>)
    ensures Distinct(ks)
    ensures forall k :: k in ks <==> HasCounted(data, value, k)
  {
    Dedup(CountedKeys(data, value))
  }

  /** Σw over the counted records of bucket `k`. */
  function WSum(data: seq<Record>, value: Record -> Num, k: Key): real {
    if data == [] then 0.0
    else
      var d := data[|data| - 1];
      WSum(data[..|data| - 1], value, k) + if Counted(d, value) && KeyOf(d) == k then Weight(d) else 0.0
  }

  /** Σv·w over the counted records of bucket `k`. */
  function WVal(data: seq<Record>, value: Record -> Num, k: Key): real {
    if data == [] then 0.0
    else
      var d := data[|data| - 1];
      WVal(data[..|data| - 1], value, k) + if Counted(d, value) && KeyOf(d) == k then value(d).v * Weight(d) else 0.0
  }

  /** `wsum > 0 ? wval / wsum : NaN`. */
  function Mean(a: Acc): Num {
    if a.wsum > 0.0 then Fin(a.wval / a.wsum) else NonFinite
  }

  function Bucket(data: seq<Record>, value: Record -> Num, k: Key): Acc {
    Acc(WSum(data, value, k), WVal(data, value, k))
  }

  function Means(data: seq<Record>, value: Record -> Num): (means: map<Key, Num>)
    ensures forall k :: k in means <==> k in Keys(data, value)
  {
    map k | k in Keys(data, value) :: Mean(Bucket(data, value, k))
  }

  /** The province → year-sorted points map that `groupByProvYear` returns. */
  function GroupedByProvYear(data: seq<Record>, value: Record -> Num): seq<Series> {
    Regrouped(Keys(data, value), Means(data, value))
  }

  lemma CountedKeysSnoc(data: seq<Record>, d: Record, value: Record -> Num)
    ensures CountedKeys(data + [d], value) ==
      if Counted(d, value) then CountedKeys(data, value) + [KeyOf(d)] else CountedKeys(data, value)
  {
    assert (data + [d])[..|data|] == data;
  }

  /** Appending a record adds its w and v·w to its own bucket, if it is counted, and to no other. */
  lemma BucketSnoc(data: seq<Record>, d: Record, value: Record -> Num, k: Key)
    ensures Bucket(data + [d], value, k) ==
      if Counted(d, value) && KeyOf(d) == k then
        AddTo(Bucket(data, value, k), Weight(d), value(d).v)
      else Bucket(data, value, k)
  {
    assert (data + [d])[..|data|] == data;
  }

  /**
   * `groupByProvYear`: sums every bucket, turns each into its mean and
   * regroups the buckets by province.
   */
  method GroupByProvYear(data: seq<Record>, value: Record -> Num) returns (series: seq<Series>)
    ensures series == GroupedByProvYear(data, value)
  {
    var keys, m := Accumulate(data, value);
    var means := map k | k in m :: Mean(m[k]);
    assert means == Means(data, value);
    series := Regroup(keys, means);
  }

  /** What `Accumulate` knows after the records of `seen`. */
  ghost predicate Accumulated(seen: seq<Record>, value: Record -> Num, keys: seq<Key>, m: map<Key, Acc>) {
    && keys == Keys(seen, value)
    && (forall k :: k in m <==> k in keys)
    && (forall k :: k in m ==> m[k] == Bucket(seen, value, k))
  }

  /** A skipped record changes no bucket. */
  lemma AccumulateSkip(seen: seq<Record>, d: Record, value: Record -> Num, keys: seq<Key>, m: map<Key, Acc>)
    requires Accumulated(seen, value, keys, m)
    requires !Counted(d, value)
    ensures Accumulated(seen + [d], value, keys, m)
  {
    CountedKeysSnoc(seen, d, value);
    forall k | k in m ensures m[k] == Bucket(seen + [d], value, k) {
      BucketSnoc(seen, d, value, k);
    }
  }

  /** A counted record creates its bucket if needed and adds w and v·w to it. */
  lemma AccumulateAdd(seen: seq<Record>, d: Record, value: Record -> Num, keys: seq<Key>, m: map<Key, Acc>,
                      keys': seq<Key>, a: Acc)
    requires Accumulated(seen, value, keys, m)
    requires Counted(d, value)
    requires keys' == if KeyOf(d) in m then keys else keys + [KeyOf(d)]
    requires a == AddTo(Stored(m, KeyOf(d)), Weight(d), value(d).v)
    ensures Accumulated(seen + [d], value, keys', m[KeyOf(d) := a])
  {
    var key := KeyOf(d);
    assert key in m <==> key in keys;
    KeysAfterAdd(seen, d, value, keys, keys');
    if key !in m {
      BucketEmpty(seen, value, key);
    }
    BucketsAfterAdd(seen, d, value, m, a);
  }

  lemma KeysAfterAdd(seen: seq<Record>, d: Record, value: Record -> Num, keys: seq<Key>, keys': seq<Key>)
    requires keys == Keys(seen, value)
    requires Counted(d, value)
    requires keys' == if KeyOf(d) in keys then keys else keys + [KeyOf(d)]
    ensures keys' == Keys(seen + [d], value)
  {
    CountedKeysSnoc(seen, d, value);
    DedupSnoc(CountedKeys(seen, value), KeyOf(d));
  }

  lemma BucketsAfterAdd(seen: seq<Record>, d: Record, value: Record -> Num, m: map<Key, Acc>, a: Acc)
    requires forall k :: k in m ==> m[k] == Bucket(seen, value, k)
    requires Counted(d, value)
    requires Stored(m, KeyOf(d)) == Bucket(seen, value, KeyOf(d))
    requires a == AddTo(Stored(m, KeyOf(d)), Weight(d), value(d).v)
    ensures forall k :: k in m[KeyOf(d) := a] ==> m[KeyOf(d) := a][k] == Bucket(seen + [d], value, k)
  {
    forall k | k in m[KeyOf(d) := a] ensures m[KeyOf(d) := a][k] == Bucket(seen + [d], value, k) {
      BucketSnoc(seen, d, value, k);
    }
  }

  /**
   * The `forEach` over the records: a bucket is created on the first counted
   * record of each (province, year), and every counted record adds w and v·w
   * to its bucket.
   */
  method Accumulate(data: seq<Record>, value: Record -> Num) returns (keys: seq<Key>, m: map<Key, Acc>)
    ensures keys == Keys(data, value)
    ensures forall k :: k in m <==> k in keys
    ensures forall k :: k in m ==> m[k] == Bucket(data, value, k)
  {
    keys := [];
    m := map[];
    assert data[..0] == [];
    assert Keys([], value) == [];
    for i := 0 to |data|
      invariant Accumulated(data[..i], value, keys, m)
    {
      var d := data[i];
      assert data[..i + 1] == data[..i] + [d];
      var w := Weight(d);
      var v := value(d);
      if !v.Fin? || w <= 0.0 {
        AccumulateSkip(data[..i], d, value, keys, m);
        continue;
      }
      var key := Key(d.provincia, d.any);
      var o := Stored(m, key);
      var keys' := if key in m then keys else keys + [key];
      var a := AddTo(o, w, v.v);
      AccumulateAdd(data[..i], d, value, keys, m, keys', a);
      keys, m := keys', m[key := a];
    }
    assert data[..|data|] == data;
  }

  /** A bucket no counted record falls into has nothing summed. */
  lemma {:induction false} BucketEmpty(data: seq<Record>, value: Record -> Num, k: Key)
    requires k !in Keys(data, value)
    ensures Bucket(data, value, k) == Acc(0.0, 0.0)
  {
    if data != [] {
      BucketEmpty(data[..|data| - 1], value, k);
    }
  }

  /** Every bucket has a positive weight sum, so every mean is finite. */
  lemma {:induction false} WSumPositive(data: seq<Record>, value: Record -> Num, k: Key)
    requires k in Keys(data, value)
    ensures WSum(data, value, k) > 0.0
  {
    var init := data[..|data| - 1];
    WSumNonNegative(init, value, k);
    if !(Counted(data[|data| - 1], value) && KeyOf(data[|data| - 1]) == k) {
      WSumPositive(init, value, k);
    }
  }

  lemma {:induction false} WSumNonNegative(data: seq<Record>, value: Record -> Num, k: Key)
    ensures WSum(data, value, k) >= 0.0
  {
    if data != [] {
      WSumNonNegative(data[..|data| - 1], value, k);
    }
  }

  /**
   * If every contributing value is at least `lo`, then Σv·w ≥ lo·Σw; if every
   * one is at most `hi`, then Σv·w ≤ hi·Σw.
   */
  /** Every counted value of bucket `k` lies in [lo, hi]. */
  predicate ValuesBetween(data: seq<Record>, value: Record -> Num, k: Key, lo: real, hi: real) {
    data != [] ==>
      ValuesBetween(data[..|data| - 1], value, k, lo, hi) &&
      (Counted(data[|data| - 1], value) && KeyOf(data[|data| - 1]) == k ==> lo <= value(data[|data| - 1]).v <= hi)
  }

  lemma {:induction false} ValuesBetweenIndex(data: seq<Record>, value: Record -> Num, k: Key, lo: real, hi: real)
    requires forall i :: 0 <= i < |data| && Counted(data[i], value) && KeyOf(data[i]) == k ==>
      lo <= value(data[i]).v <= hi
    ensures ValuesBetween(data, value, k, lo, hi)
  {
    if data != [] {
      var init := data[..|data| - 1];
      forall i | 0 <= i < |init| ensures init[i] == data[i] { }
      ValuesBetweenIndex(init, value, k, lo, hi);
    }
  }

  lemma {:induction false} WValBounds(data: seq<Record>, value: Record -> Num, k: Key, lo: real, hi: real)
    requires ValuesBetween(data, value, k, lo, hi)
    ensures lo * WSum(data, value, k) <= WVal(data, value, k) <= hi * WSum(data, value, k)
  {
    if data != [] {
      var init := data[..|data| - 1];
      WValBounds(init, value, k, lo, hi);
      var d := data[|data| - 1];
      if Counted(d, value) && KeyOf(d) == k {
        WeightedStep(lo, hi, WSum(init, value, k), WVal(init, value, k), value(d).v, Weight(d));
      }
    }
  }

  /**
   * Each bucket's mean lies between the smallest and the largest of the
   * values that went into it.
   */
  lemma MeanBetween(data: seq<Record>, value: Record -> Num, k: Key, lo: real, hi: real)
    requires k in Keys(data, value)
    requires forall i :: 0 <= i < |data| && Counted(data[i], value) && KeyOf(data[i]) == k ==>
      lo <= value(data[i]).v <= hi
    ensures Mean(Bucket(data, value, k)).Fin?
    ensures lo <= Mean(Bucket(data, value, k)).v <= hi
  {
    WSumPositive(data, value, k);
    ValuesBetweenIndex(data, value, k, lo, hi);
    WValBounds(data, value, k, lo, hi);
    DivBetween(WVal(data, value, k), WSum(data, value, k), lo, hi);
  }

  /** A bucket fed by a single counted record has that record's value as its mean. */
  lemma SingleRecordMean(data: seq<Record>, value: Record -> Num, i: nat)
    requires i < |data| && Counted(data[i], value)
    requires forall j :: 0 <= j < |data| && j != i && Counted(data[j], value) ==> KeyOf(data[j]) != KeyOf(data[i])
    ensures Mean(Bucket(data, value, KeyOf(data[i]))) == value(data[i])
  {
    var v := value(data[i]).v;
    HasCountedIndex(data, value, KeyOf(data[i]));
    MeanBetween(data, value, KeyOf(data[i]), v, v);
  }

  /** No province has two series. */
  lemma GroupedUniqueProvinces(data: seq<Record>, value: Record -> Num)
    ensures UniqueProvinces(GroupedByProvYear(data, value))
  {
    RegroupedShape(Keys(data, value), Means(data, value));
  }

  /** Every series belongs to a province that has a counted record. */
  lemma GroupedSeriesHaveRecords(data: seq<Record>, value: Record -> Num)
    ensures forall s :: s in GroupedByProvYear(data, value) ==>
      exists i :: 0 <= i < |data| && Counted(data[i], value) && data[i].provincia == s.provincia
  {
    var keys := Keys(data, value);
    var series := GroupedByProvYear(data, value);
    RegroupedShape(keys, Means(data, value));
    forall s | s in series
      ensures exists i :: 0 <= i < |data| && Counted(data[i], value) && data[i].provincia == s.provincia
    {
      var j :| 0 <= j < |series| && series[j] == s;
      assert s.provincia in Provinces(keys);
      var k :| k in keys && k.provincia == s.provincia;
      HasCountedIndex(data, value, k);
    }
  }

  /** Every province with a counted record has a series. */
  lemma GroupedRecordsHaveSeries(data: seq<Record>, value: Record -> Num)
    ensures forall i :: 0 <= i < |data| && Counted(data[i], value) ==>
      exists s :: s in GroupedByProvYear(data, value) && s.provincia == data[i].provincia
  {
    var keys := Keys(data, value);
    var series := GroupedByProvYear(data, value);
    RegroupedShape(keys, Means(data, value));
    var provs := Provinces(keys);
    forall i | 0 <= i < |data| && Counted(data[i], value)
      ensures exists s :: s in series && s.provincia == data[i].provincia
    {
      HasCountedIndex(data, value, KeyOf(data[i]));
      assert KeyOf(data[i]) in keys;
      assert data[i].provincia in provs;
      var j :| 0 <= j < |provs| && provs[j] == data[i].provincia;
      assert series[j] in series;
    }
  }

  /** The regrouping facts for the buckets of `data`. */
  lemma GroupedRegroupedShape(data: seq<Record>, value: Record -> Num)
    ensures forall s, pt :: s in GroupedByProvYear(data, value) ==>
      (pt in s.values <==>
        HasCounted(data, value, Key(s.provincia, pt.year))
        && pt.value == Mean(Bucket(data, value, Key(s.provincia, pt.year))))
    ensures forall s :: s in GroupedByProvYear(data, value) ==> s.values != [] && StrictlyAscendingYears(s.values)
  {
    var keys, means := Keys(data, value), Means(data, value);
    var series := GroupedByProvYear(data, value);
    RegroupedShape(keys, means);
    forall s | s in series ensures s.values != [] && StrictlyAscendingYears(s.values) {
      var j :| 0 <= j < |series| && series[j] == s;
    }
    forall s, pt | s in series
      ensures pt in s.values <==>
        HasCounted(data, value, Key(s.provincia, pt.year))
        && pt.value == Mean(Bucket(data, value, Key(s.provincia, pt.year)))
    {
      var j :| 0 <= j < |series| && series[j] == s;
    }
  }

  /**
   * A series holds a point for year y exactly when some counted record has
   * that province and year; the point's value is that bucket's mean, which is
   * finite; the points run strictly ascending by year.
   */
  lemma GroupedPoints(data: seq<Record>, value: Record -> Num)
    ensures forall s, pt :: s in GroupedByProvYear(data, value) ==>
      (pt in s.values <==>
        (exists i :: 0 <= i < |data| && Counted(data[i], value) && KeyOf(data[i]) == Key(s.provincia, pt.year))
        && pt.value == Mean(Bucket(data, value, Key(s.provincia, pt.year))))
    ensures forall s, pt :: s in GroupedByProvYear(data, value) && pt in s.values ==> pt.value.Fin?
    ensures forall s :: s in GroupedByProvYear(data, value) ==> s.values != [] && StrictlyAscendingYears(s.values)
  {
    var series := GroupedByProvYear(data, value);
    GroupedRegroupedShape(data, value);
    forall s, pt | s in series
      ensures pt in s.values <==>
        (exists i :: 0 <= i < |data| && Counted(data[i], value) && KeyOf(data[i]) == Key(s.provincia, pt.year))
        && pt.value == Mean(Bucket(data, value, Key(s.provincia, pt.year)))
    {
      HasCountedIndex(data, value, Key(s.provincia, pt.year));
    }
    forall s, pt | s in series && pt in s.values ensures pt.value.Fin? {
      WSumPositive(data, value, Key(s.provincia, pt.year));
    }
  }
}
