/**
 * The provinces' bar chart: for one year, the population-weighted mean of
 * the selective and of the non-selective kilograms per inhabitant and day in
 * each province (`aggProvAvg`), merged into one row per province.
 *
 * The skip rule and the sums are those of the waste line chart, with the
 * bucket key fixed to the chosen year: a province's value is the mean of its
 * (province, year) bucket.
 */
module ProvinciesBars {
  import opened Values
  import opened Seqs
  import opened Sorting
  import opened Text
  import opened Records
  import opened LineSeries
  import opened RebuigLine

  /** `{ provincia, value }`. */
  datatype ProvValue = ProvValue(provincia: string, value: Num)

  /** The provinces of the counted records of `year`, one per record, in order. */
  function CountedProvinces(data: seq<Record>, year: int, value: Record -> Num): (ps: seq<string>)
    ensures forall p :: p in ps <==> HasCounted(data, value, Key(p, year))
  {
    if data == [] then []
    else
      var init := data[..|data| - 1];
      var d := data[|data| - 1];
      var ps := CountedProvinces(init, year, value);
      if Counted(d, value) && d.any == year then ps + [d.provincia] else ps
  }

  /** The map's provinces, in the order their first counted record of `year` comes. */
  function YearProvinces(data: seq<Record>, year: int, value: Record -> Num): (ps: seq<string>)
    ensures Distinct(ps)
    ensures forall p :: p in ps <==> HasCounted(data, value, Key(p, year))
  {
    Dedup(CountedProvinces(data, year, value))
  }

  /** What `aggProvAvg` returns: each province of the year with its weighted mean. */
  function ProvAverages(data: seq<Record>, year: int, value: Record -> Num): (avgs: seq<ProvValue>)
    ensures |avgs| == |YearProvinces(data, year, value)|
  {
    var ps := YearProvinces(data, year, value);
    seq(|ps|, i requires 0 <= i < |ps| => ProvValue(ps[i], Mean(Bucket(data, value, Key(ps[i], year)))))
  }

  /** What the `forEach` knows after the records of `seen`. */
  ghost predicate ProvAccumulated(seen: seq<Record>, year: int, value: Record -> Num,
                                  provs: seq<string>, m: map<string, Acc>) {
    && provs == YearProvinces(seen, year, value)
    && (forall p :: p in m <==> p in provs)
    && (forall p :: p in m ==> m[p] == Bucket(seen, value, Key(p, year)))
  }

  lemma CountedProvincesSnoc(seen: seq<Record>, d: Record, year: int, value: Record -> Num)
    ensures CountedProvinces(seen + [d], year, value) ==
      if Counted(d, value) && d.any == year then CountedProvinces(seen, year, value) + [d.provincia]
      else CountedProvinces(seen, year, value)
  {
    assert (seen + [d])[..|seen|] == seen;
  }

  /** A record of another year, or one the skip check drops, changes nothing. */
  lemma ProvSkip(seen: seq<Record>, d: Record, year: int, value: Record -> Num,
                 provs: seq<string>, m: map<string, Acc>)
    requires ProvAccumulated(seen, year, value, provs, m)
    requires !(Counted(d, value) && d.any == year)
    ensures ProvAccumulated(seen + [d], year, value, provs, m)
  {
    CountedProvincesSnoc(seen, d, year, value);
    forall p | p in m ensures m[p] == Bucket(seen + [d], value, Key(p, year)) {
      BucketSnoc(seen, d, value, Key(p, year));
    }
  }

  lemma ProvAddKeys(seen: seq<Record>, d: Record, year: int, value: Record -> Num,
                    provs: seq<string>, m: map<string, Acc>, provs': seq<string>)
    requires provs == YearProvinces(seen, year, value) && forall p :: p in m <==> p in provs
    requires Counted(d, value) && d.any == year
    requires provs' == if d.provincia in m then provs else provs + [d.provincia]
    ensures provs' == YearProvinces(seen + [d], year, value)
  {
    CountedProvincesSnoc(seen, d, year, value);
    DedupSnoc(CountedProvinces(seen, year, value), d.provincia);
  }

  /** A counted record of the year adds w and v·w to its province. */
  lemma ProvAdd(seen: seq<Record>, d: Record, year: int, value: Record -> Num,
                provs: seq<string>, m: map<string, Acc>, provs': seq<string>, a: Acc)
    requires ProvAccumulated(seen, year, value, provs, m)
    requires Counted(d, value) && d.any == year
    requires provs' == if d.provincia in m then provs else provs + [d.provincia]
    requires a == AddTo(Stored(m, d.provincia), Weight(d), value(d).v)
    ensures ProvAccumulated(seen + [d], year, value, provs', m[d.provincia := a])
  {
    ProvAddKeys(seen, d, year, value, provs, m, provs');
    StoredIsBucket(seen, year, value, provs, m, d.provincia);
    ProvBucketsAfterAdd(seen, d, year, value, m, a);
  }

  /** A province not in the map yet has an empty bucket. */
  lemma StoredIsBucket(seen: seq<Record>, year: int, value: Record -> Num,
                       provs: seq<string>, m: map<string, Acc>, p: string)
    requires ProvAccumulated(seen, year, value, provs, m)
    ensures Stored(m, p) == Bucket(seen, value, Key(p, year))
  {
    if p !in m {
      assert Key(p, year) !in Keys(seen, value);
      BucketEmpty(seen, value, Key(p, year));
    }
  }

  lemma ProvBucketsAfterAdd(seen: seq<Record>, d: Record, year: int, value: Record -> Num, m: map<string, Acc>, a: Acc)
    requires forall p :: p in m ==> m[p] == Bucket(seen, value, Key(p, year))
    requires Counted(d, value) && d.any == year
    requires Stored(m, d.provincia) == Bucket(seen, value, Key(d.provincia, year))
    requires a == AddTo(Stored(m, d.provincia), Weight(d), value(d).v)
    ensures forall p :: p in m[d.provincia := a] ==> m[d.provincia := a][p] == Bucket(seen + [d], value, Key(p, year))
  {
    forall p | p in m[d.provincia := a] ensures m[d.provincia := a][p] == Bucket(seen + [d], value, Key(p, year)) {
      BucketSnoc(seen, d, value, Key(p, year));
    }
  }

  /** The filtered `forEach` of `aggProvAvg`. */
  method AccumulateProvinces(data: seq<Record>, year: int, value: Record -> Num)
      returns (provs: seq<string>, m: map<string, Acc>)
    ensures provs == YearProvinces(data, year, value)
    ensures forall p :: p in m <==> p in provs
    ensures forall p :: p in m ==> m[p] == Bucket(data, value, Key(p, year))
  {
    provs := [];
    m := map[];
    assert data[..0] == [];
    assert YearProvinces([], year, value) == [];
    for i := 0 to |data|
      invariant ProvAccumulated(data[..i], year, value, provs, m)
    {
      var d := data[i];
      assert data[..i + 1] == data[..i] + [d];
      var w := Weight(d);
      var v := value(d);
      if d.any != year || !v.Fin? || w <= 0.0 {
        ProvSkip(data[..i], d, year, value, provs, m);
        continue;
      }
      var o := Stored(m, d.provincia);
      var provs' := if d.provincia in m then provs else provs + [d.provincia];
      var a := AddTo(o, w, v.v);
      ProvAdd(data[..i], d, year, value, provs, m, provs', a);
      provs, m := provs', m[d.provincia := a];
    }
    assert data[..|data|] == data;
  }

  /** `aggProvAvg(data, year, accessor)`. */
  method AggProvAvg(data: seq<Record>, year: int, value: Record -> Num) returns (avgs: seq<ProvValue>)
    ensures avgs == ProvAverages(data, year, value)
  {
    var provs, m := AccumulateProvinces(data, year, value);
    avgs := seq(|provs|, i requires 0 <= i < |provs| => ProvValue(provs[i], Mean(m[provs[i]])));
  }

  /**
   * The output has one entry per province with a counted record of the
   * year, each province once.
   */
  lemma AveragesProvinces(data: seq<Record>, year: int, value: Record -> Num)
    ensures Distinct(Names(ProvAverages(data, year, value)))
    ensures forall p :: p in Names(ProvAverages(data, year, value)) <==>
      exists i :: 0 <= i < |data| && data[i].any == year && data[i].provincia == p && Counted(data[i], value)
  {
    var ps := YearProvinces(data, year, value);
    var names := Names(ProvAverages(data, year, value));
    assert names == ps;
    forall p ensures p in names <==>
      exists i :: 0 <= i < |data| && data[i].any == year && data[i].provincia == p && Counted(data[i], value)
    {
      HasCountedIndex(data, value, Key(p, year));
    }
  }

  /**
   * Each entry's value is finite and lies between the smallest and the
   * largest value of the counted records of its province and year.
   */
  lemma AverageBetween(data: seq<Record>, year: int, value: Record -> Num, i: nat, lo: real, hi: real)
    requires i < |ProvAverages(data, year, value)|
    requires forall j ::
      (0 <= j < |data| && Counted(data[j], value) && data[j].any == year &&
       data[j].provincia == ProvAverages(data, year, value)[i].provincia) ==> lo <= value(data[j]).v <= hi
    ensures ProvAverages(data, year, value)[i].value.Fin?
    ensures lo <= ProvAverages(data, year, value)[i].value.v <= hi
  {
    var p := YearProvinces(data, year, value)[i];
    assert p in YearProvinces(data, year, value);
    MeanBetween(data, value, Key(p, year), lo, hi);
  }

  /** Records of other years leave every bucket of `year` as it was. */
  lemma {:induction false} BucketOtherYears(data: seq<Record>, year: int, value: Record -> Num, p: string)
    ensures Bucket(Filter(data, (r: Record) => r.any == year), value, Key(p, year)) == Bucket(data, value, Key(p, year))
  {
    if data != [] {
      var init := data[..|data| - 1];
      var d := data[|data| - 1];
      assert data == init + [d];
      FilterSnoc(init, d, (r: Record) => r.any == year);
      BucketOtherYears(init, year, value, p);
      BucketSnoc(init, d, value, Key(p, year));
      BucketSnoc(Filter(init, (r: Record) => r.any == year), d, value, Key(p, year));
    }
  }

  lemma {:induction false} ProvincesOtherYears(data: seq<Record>, year: int, value: Record -> Num)
    ensures CountedProvinces(Filter(data, (r: Record) => r.any == year), year, value) == CountedProvinces(data, year, value)
  {
    if data != [] {
      var init := data[..|data| - 1];
      var d := data[|data| - 1];
      assert data == init + [d];
      FilterSnoc(init, d, (r: Record) => r.any == year);
      ProvincesOtherYears(init, year, value);
      CountedProvincesSnoc(init, d, year, value);
      CountedProvincesSnoc(Filter(init, (r: Record) => r.any == year), d, year, value);
    }
  }

  /** Only the records of the requested year matter: filtering them first changes nothing. */
  lemma OnlyYearMatters(data: seq<Record>, year: int, value: Record -> Num)
    ensures ProvAverages(Filter(data, (r: Record) => r.any == year), year, value) == ProvAverages(data, year, value)
  {
    var f := Filter(data, (r: Record) => r.any == year);
    ProvincesOtherYears(data, year, value);
    forall p ensures Bucket(f, value, Key(p, year)) == Bucket(data, value, Key(p, year)) {
      BucketOtherYears(data, year, value, p);
    }
  }

  /** One bar group: the province and its two means (`undefined` when absent). */
  datatype Row = Row(provincia: string, sel: Num, no: Num)

  function ProvinciaOfValue(a: ProvValue): string {
    a.provincia
  }

  /** The provinces of the entries, in entry order. */
  function Names(avgs: seq<ProvValue>): seq<string> {
    Map(avgs, ProvinciaOfValue)
  }

  /** `(avgs.find(x => x.provincia === p) || {}).value`. */
  function Find(avgs: seq<ProvValue>, p: string): (v: Num)
    ensures p !in Names(avgs) ==> v == NonFinite
  {
    if avgs == [] then NonFinite
    else if avgs[0].provincia == p then avgs[0].value
    else
      assert Names(avgs) == [avgs[0].provincia] + Names(avgs[1..]);
      Find(avgs[1..], p)
  }

  /** A province that is present reads the value of its first entry. */
  lemma {:induction false} FindFirst(avgs: seq<ProvValue>, p: string)
    requires p in Names(avgs)
    ensures Find(avgs, p) == avgs[FirstIndex(Names(avgs), p)].value
  {
    var names := Names(avgs);
    assert names[0] == avgs[0].provincia;
    if avgs[0].provincia != p {
      var rest := Names(avgs[1..]);
      assert names[1..] == rest;
      assert p in rest;
      FindFirst(avgs[1..], p);
      assert FirstIndex(names, p) == 1 + FirstIndex(rest, p);
    }
  }

  /** `Array.from(new Set([...sel, ...no] provinces)).sort()`. */
  function RowProvinces(sel: seq<ProvValue>, no: seq<ProvValue>): (ps: seq<string>)
    ensures Distinct(ps)
    ensures SortedLex(ps, Self)
    ensures forall p :: p in ps <==> p in Names(sel) || p in Names(no)
  {
    SortedSet(Names(sel) + Names(no))
  }

  /** The rows of the bar chart, one per province of either aggregate. */
  function MergeRows(sel: seq<ProvValue>, no: seq<ProvValue>): (rows: seq<Row>)
    ensures |rows| == |RowProvinces(sel, no)|
    ensures forall i :: 0 <= i < |rows| ==>
      rows[i] == Row(RowProvinces(sel, no)[i], Find(sel, RowProvinces(sel, no)[i]), Find(no, RowProvinces(sel, no)[i]))
  {
    var ps := RowProvinces(sel, no);
    seq(|ps|, i requires 0 <= i < |ps| => Row(ps[i], Find(sel, ps[i]), Find(no, ps[i])))
  }

  /**
   * The rows run in string order of their provinces, each province once,
   * and hold exactly the provinces of either aggregate; a province missing
   * from one aggregate reads `undefined` there, not 0.
   */
  lemma MergeRowsShape(sel: seq<ProvValue>, no: seq<ProvValue>)
    ensures forall i, j :: 0 <= i < j < |MergeRows(sel, no)| ==>
      LexLe(MergeRows(sel, no)[i].provincia, MergeRows(sel, no)[j].provincia) &&
      MergeRows(sel, no)[i].provincia != MergeRows(sel, no)[j].provincia
    ensures forall p :: (exists r :: r in MergeRows(sel, no) && r.provincia == p) <==> p in Names(sel) || p in Names(no)
    ensures forall r :: r in MergeRows(sel, no) && r.provincia !in Names(sel) ==> r.sel == NonFinite
    ensures forall r :: r in MergeRows(sel, no) && r.provincia !in Names(no) ==> r.no == NonFinite
    ensures forall r :: r in MergeRows(sel, no) && r.provincia in Names(sel) ==>
      r.sel == sel[FirstIndex(Names(sel), r.provincia)].value
    ensures forall r :: r in MergeRows(sel, no) && r.provincia in Names(no) ==>
      r.no == no[FirstIndex(Names(no), r.provincia)].value
  {
    var ps := RowProvinces(sel, no);
    var rows := MergeRows(sel, no);
    assert SortedLex(ps, Self);
    forall p | p in ps ensures exists r :: r in rows && r.provincia == p {
      var i :| 0 <= i < |ps| && ps[i] == p;
      assert rows[i] in rows;
    }
    forall r | r in rows && r.provincia in Names(sel) ensures r.sel == sel[FirstIndex(Names(sel), r.provincia)].value {
      FindFirst(sel, r.provincia);
    }
    forall r | r in rows && r.provincia in Names(no) ensures r.no == no[FirstIndex(Names(no), r.provincia)].value {
      FindFirst(no, r.provincia);
    }
  }

  /** `Math.max(d.sel || 0, d.no || 0)`. */
  function RowPeak(r: Row): real {
    var s := Or(r.sel, 0.0);
    var n := Or(r.no, 0.0);
    if s >= n then s else n
  }

  function Peaks(rows: seq<Row>): (ps: seq<Num>)
    ensures |ps| == |rows|
    ensures forall i :: 0 <= i < |rows| ==> ps[i] == Fin(RowPeak(rows[i]))
  {
    seq(|rows|, i requires 0 <= i < |rows| => Fin(RowPeak(rows[i])))
  }

  /** `m` is the tallest bar: the height of some bar, and no bar is taller. */
  predicate TallestBar(rows: seq<Row>, m: real) {
    && (exists r :: r in rows && (m == Or(r.sel, 0.0) || m == Or(r.no, 0.0)))
    && (forall r :: r in rows ==> Or(r.sel, 0.0) <= m && Or(r.no, 0.0) <= m)
  }

  /**
   * The top of the y axis, `d3.max(rows, d => Math.max(d.sel || 0, d.no || 0)) || 1`:
   * the height of the tallest bar, or 1 when there is no row or that height is 0.
   */
  function BarsYUpper(rows: seq<Row>): (top: real)
    ensures forall r :: r in rows ==> Or(r.sel, 0.0) <= top && Or(r.no, 0.0) <= top
    ensures top == 1.0 || exists r :: r in rows && (top == Or(r.sel, 0.0) || top == Or(r.no, 0.0))
    ensures forall m :: TallestBar(rows, m) && m != 0.0 ==> top == m
    ensures rows == [] ==> top == 1.0
    ensures (forall m :: TallestBar(rows, m) ==> m == 0.0) ==> top == 1.0
  {
    PeaksBound(rows);
    TallestBarIsD3Max(rows);
    OrDefault(D3Max(Peaks(rows)), 1.0)
  }

  /** `d3.max` of the peaks is the tallest bar, and there is one exactly when there is a row. */
  lemma TallestBarIsD3Max(rows: seq<Row>)
    ensures var d := D3Max(Peaks(rows));
      && (d.Some? <==> rows != [])
      && (d.Some? ==> TallestBar(rows, d.value))
      && (forall m :: TallestBar(rows, m) ==> d == Some(m))
  {
    var d := D3Max(Peaks(rows));
    PeaksBound(rows);
    if rows != [] {
      assert rows[0] in rows;
    }
    forall m | TallestBar(rows, m) ensures d == Some(m) {
      var r :| r in rows && (m == Or(r.sel, 0.0) || m == Or(r.no, 0.0));
      assert d.Some? && m <= d.value;
      var r2 :| r2 in rows && (d.value == Or(r2.sel, 0.0) || d.value == Or(r2.no, 0.0));
      assert d.value <= m;
    }
  }

  lemma PeaksBound(rows: seq<Row>)
    ensures var m := D3Max(Peaks(rows));
      && (forall r :: r in rows ==> m.Some? && Or(r.sel, 0.0) <= m.value && Or(r.no, 0.0) <= m.value)
      && (m.Some? ==> exists r :: r in rows && (m.value == Or(r.sel, 0.0) || m.value == Or(r.no, 0.0)))
  {
    var ps := Peaks(rows);
    var m := D3Max(ps);
    forall r | r in rows ensures m.Some? && Or(r.sel, 0.0) <= m.value && Or(r.no, 0.0) <= m.value {
      var i :| 0 <= i < |rows| && rows[i] == r;
      assert ps[i] in ps;
    }
    if m.Some? {
      var i :| 0 <= i < |ps| && ps[i] == Fin(m.value);
      assert rows[i] in rows;
    }
  }
}
