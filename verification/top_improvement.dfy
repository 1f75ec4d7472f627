/**
 * The "top improvement" line chart: for every comarca, the change of its
 * selective-collection share between 2006 and 2021; the comarques with the
 * largest change are drawn as lines over the years 2006 to 2021.
 */
module TopImprovement {
  import opened Values
  import opened Seqs
  import opened Records
  import opened Ranking

  /** One comarca's entry: `{ comarca, years }`. */
  datatype Entry = Entry(comarca: string, years: map<int, Num>)

  /** The comarques in the order the records first name them (the object's key order). */
  function Comarques(data: seq<Record>): seq<string> {
    Dedup(Map(data, ComarcaOf))
  }

  /**
   * `comarques[c].years` after the records: each record of the comarca
   * writes its `percentatge_selectiva` under its year, so a later record of
   * the same year overwrites an earlier one.
   */
  function YearsOf(data: seq<Record>, c: string): map<int, Num> {
    if data == [] then map[]
    else
      var d := data[|data| - 1];
      var init := YearsOf(data[..|data| - 1], c);
      if d.comarca == c then init[d.any := d.percentatgeSelectiva] else init
  }

  /** `Object.values(comarques)`: one entry per comarca, in first-seen order. */
  function Entries(data: seq<Record>): (es: seq<Entry>)
    ensures |es| == |Comarques(data)|
    ensures forall i :: 0 <= i < |es| ==> es[i] == Entry(Comarques(data)[i], YearsOf(data, Comarques(data)[i]))
    ensures forall i, j :: 0 <= i < j < |es| ==> es[i].comarca != es[j].comarca
  {
    var cs := Comarques(data);
    seq(|cs|, i requires 0 <= i < |cs| => Entry(cs[i], YearsOf(data, cs[i])))
  }

  /** The state of the `comarques` object after the records `seen`. */
  ghost predicate Built(seen: seq<Record>, names: seq<string>, byName: map<string, map<int, Num>>) {
    && names == Comarques(seen)
    && (forall c :: c in byName <==> c in names)
    && (forall c :: c in byName ==> byName[c] == YearsOf(seen, c))
  }

  /** The entry `c` of the object, or an empty `years` for a comarca not seen yet. */
  function YearsOrEmpty(byName: map<string, map<int, Num>>, c: string): map<int, Num> {
    if c in byName then byName[c] else map[]
  }

  /** The `forEach` that fills `comarques`, followed by `Object.values`. */
  method BuildComarques(data: seq<Record>) returns (entries: seq<Entry>)
    ensures entries == Entries(data)
  {
    var names: seq<string> := [];
    var byName: map<string, map<int, Num>> := map[];
    BuiltEmpty(data);
    for i := 0 to |data|
      invariant Built(data[..i], names, byName)
    {
      var d := data[i];
      var names' := if d.comarca in byName then names else names + [d.comarca];
      var years := YearsOrEmpty(byName, d.comarca)[d.any := d.percentatgeSelectiva];
      BuiltStep(data, i, names, byName, names', years);
      names, byName := names', byName[d.comarca := years];
    }
    BuiltAll(data, names, byName);
    entries := EntriesOf(names, byName);
  }

  /** `Object.values(comarques)`, the object being held as its key order and its map. */
  function EntriesOf(names: seq<string>, byName: map<string, map<int, Num>>): seq<Entry>
    requires forall c :: c in names ==> c in byName
  {
    seq(|names|, j requires 0 <= j < |names| => Entry(names[j], byName[names[j]]))
  }

  lemma BuiltEmpty(data: seq<Record>)
    ensures Built(data[..0], [], map[])
  {
    assert data[..0] == [];
    assert Map([], ComarcaOf) == [];
  }

  lemma BuiltAll(data: seq<Record>, names: seq<string>, byName: map<string, map<int, Num>>)
    requires Built(data[..|data|], names, byName)
    ensures forall c :: c in names ==> c in byName
    ensures EntriesOf(names, byName) == Entries(data)
  {
    assert data[..|data|] == data;
  }

  /** One record creates its comarca's entry if needed and writes its year. */
  lemma BuiltStep(data: seq<Record>, i: nat, names: seq<string>, byName: map<string, map<int, Num>>,
                  names': seq<string>, years: map<int, Num>)
    requires i < |data|
    requires Built(data[..i], names, byName)
    requires names' == if data[i].comarca in byName then names else names + [data[i].comarca]
    requires years == YearsOrEmpty(byName, data[i].comarca)[data[i].any := data[i].percentatgeSelectiva]
    ensures Built(data[..i + 1], names', byName[data[i].comarca := years])
  {
    assert data[..i + 1] == data[..i] + [data[i]];
    BuiltSnoc(data[..i], data[i], names, byName, names', years);
  }

  lemma BuiltSnoc(seen: seq<Record>, d: Record, names: seq<string>, byName: map<string, map<int, Num>>,
                  names': seq<string>, years: map<int, Num>)
    requires Built(seen, names, byName)
    requires names' == if d.comarca in byName then names else names + [d.comarca]
    requires years == YearsOrEmpty(byName, d.comarca)[d.any := d.percentatgeSelectiva]
    ensures Built(seen + [d], names', byName[d.comarca := years])
  {
    ComarquesSnoc(seen, d);
    YearsSoFar(seen, names, byName, d.comarca);
    YearsAfterWrite(seen, d, byName, years);
  }

  /** The entry of a comarca, or nothing for one not seen yet, is its years so far. */
  lemma YearsSoFar(seen: seq<Record>, names: seq<string>, byName: map<string, map<int, Num>>, c: string)
    requires Built(seen, names, byName)
    ensures YearsOrEmpty(byName, c) == YearsOf(seen, c)
  {
    if c !in byName {
      YearsOfAbsent(seen, c);
    }
  }

  lemma YearsAfterWrite(seen: seq<Record>, d: Record, byName: map<string, map<int, Num>>, years: map<int, Num>)
    requires forall c :: c in byName ==> byName[c] == YearsOf(seen, c)
    requires years == YearsOf(seen, d.comarca)[d.any := d.percentatgeSelectiva]
    ensures forall c :: c in byName[d.comarca := years] ==> byName[d.comarca := years][c] == YearsOf(seen + [d], c)
  {
    forall c | c in byName[d.comarca := years] ensures byName[d.comarca := years][c] == YearsOf(seen + [d], c) {
      YearsOfSnoc(seen, d, c);
    }
  }

  lemma ComarquesSnoc(seen: seq<Record>, d: Record)
    ensures Comarques(seen + [d]) == if d.comarca in Comarques(seen) then Comarques(seen) else Comarques(seen) + [d.comarca]
  {
    assert Map(seen + [d], ComarcaOf) == Map(seen, ComarcaOf) + [d.comarca];
    DedupSnoc(Map(seen, ComarcaOf), d.comarca);
  }

  lemma YearsOfSnoc(seen: seq<Record>, d: Record, c: string)
    ensures YearsOf(seen + [d], c) == if d.comarca == c then YearsOf(seen, c)[d.any := d.percentatgeSelectiva] else YearsOf(seen, c)
  {
    assert (seen + [d])[..|seen|] == seen;
  }

  /** A comarca no record names has no years. */
  lemma {:induction false} YearsOfAbsent(data: seq<Record>, c: string)
    requires c !in Comarques(data)
    ensures YearsOf(data, c) == map[]
  {
    if data != [] {
      var init := data[..|data| - 1];
      assert Map(data, ComarcaOf) == Map(init, ComarcaOf) + [data[|data| - 1].comarca];
      DedupSnoc(Map(init, ComarcaOf), data[|data| - 1].comarca);
      YearsOfAbsent(init, c);
    }
  }

  /**
   * The last write wins: the value stored for a year is that of the last
   * record of the comarca and year.
   */
  lemma {:induction false} LastWriteWins(data: seq<Record>, c: string, j: nat)
    requires j < |data| && data[j].comarca == c
    requires forall k :: j < k < |data| ==> data[k].comarca != c || data[k].any != data[j].any
    ensures data[j].any in YearsOf(data, c)
    ensures YearsOf(data, c)[data[j].any] == data[j].percentatgeSelectiva
  {
    if j < |data| - 1 {
      var init := data[..|data| - 1];
      assert init[j] == data[j];
      LastWriteWins(init, c, j);
    }
  }

  /** A year is stored exactly when some record of the comarca has it. */
  lemma {:induction false} StoredYears(data: seq<Record>, c: string, y: int)
    ensures y in YearsOf(data, c) <==> exists k :: 0 <= k < |data| && data[k].comarca == c && data[k].any == y
  {
    if data != [] {
      var init := data[..|data| - 1];
      StoredYears(init, c, y);
      if exists k :: 0 <= k < |init| && init[k].comarca == c && init[k].any == y {
        var k :| 0 <= k < |init| && init[k].comarca == c && init[k].any == y;
        assert data[k] == init[k];
      }
      if exists k :: 0 <= k < |data| && data[k].comarca == c && data[k].any == y {
        var k :| 0 <= k < |data| && data[k].comarca == c && data[k].any == y;
        if k < |init| {
          assert init[k] == data[k];
        }
      }
    }
  }

  /** `d.years[y]`: `undefined` for a year the comarca lacks. */
  function Get(years: map<int, Num>, y: int): Num {
    if y in years then years[y] else NonFinite
  }

  /**
   * `(d.years[2021] || 0) - (d.years[2006] || 0)`: a missing, NaN or zero
   * endpoint counts as 0, so a comarca without a 2006 share improves by its
   * whole 2021 share.
   */
  function Improvement(e: Entry): (x: Num)
    ensures x.Fin?
    ensures !Truthy(Get(e.years, 2006)) ==> x.v == Or(Get(e.years, 2021), 0.0)
    ensures !Truthy(Get(e.years, 2021)) ==> x.v == -Or(Get(e.years, 2006), 0.0)
    ensures Truthy(Get(e.years, 2006)) && Truthy(Get(e.years, 2021)) ==>
      x.v == Get(e.years, 2021).v - Get(e.years, 2006).v
  {
    Fin(Or(Get(e.years, 2021), 0.0) - Or(Get(e.years, 2006), 0.0))
  }

  /** `improvements`: the `topN` entries with the largest improvement, ties in first-seen order. */
  function Improvements(data: seq<Record>, topN: nat): (top: seq<Entry>)
    ensures |top| == if topN <= |Comarques(data)| then topN else |Comarques(data)|
    ensures forall i :: 0 <= i < |top| ==> top[i] in Entries(data)
  {
    var es := Entries(data);
    assert Finites(es, Improvement) == es by {
      FinitesAll(es, Improvement);
    }
    TopN(es, Improvement, topN)
  }

  /** The chosen comarques come in order of decreasing improvement. */
  lemma ImprovementsDescending(data: seq<Record>, topN: nat)
    ensures var top := Improvements(data, topN);
      forall i, j :: 0 <= i < j < |top| ==> Improvement(top[i]).v >= Improvement(top[j]).v
  {
    var top := Improvements(data, topN);
    forall i, j | 0 <= i < j < |top| ensures Improvement(top[i]).v >= Improvement(top[j]).v {
      assert Score(Improvement)(top[i]) >= Score(Improvement)(top[j]);
    }
  }

  /** Every entry has a finite improvement, so the finiteness filter drops nothing. */
  lemma {:induction false} FinitesAll<T(!new)>(s: seq<T>, value: T -> Num)
    requires forall x :: value(x).Fin?
    ensures Finites(s, value) == s
  {
    if s != [] {
      FinitesAll(s[..|s| - 1], value);
      assert s == s[..|s| - 1] + [s[|s| - 1]];
    }
  }

  /** The years of the x axis, 2006 to 2021. */
  const LineYears: seq<int> := [2006, 2007, 2008, 2009, 2010, 2011, 2012, 2013, 2014, 2015, 2016, 2017, 2018, 2019, 2020, 2021]

  datatype LinePoint = LinePoint(year: int, value: real)

  /** `years.map(year => ({ year, value: years[year] })).filter(d => Number.isFinite(d.value))`. */
  function LineData(e: Entry): (pts: seq<LinePoint>)
    ensures forall i, j :: 0 <= i < j < |pts| ==> pts[i].year < pts[j].year
    ensures forall pt :: pt in pts <==> 2006 <= pt.year <= 2021 && Get(e.years, pt.year) == Fin(pt.value)
  {
    LineYearsRange();
    PointsOver(LineYears, e.years)
  }

  lemma LineYearsRange()
    ensures forall i, j :: 0 <= i < j < |LineYears| ==> LineYears[i] < LineYears[j]
    ensures forall y :: y in LineYears <==> 2006 <= y <= 2021
  {
    assert forall i :: 0 <= i < |LineYears| ==> LineYears[i] == 2006 + i;
    forall y | 2006 <= y <= 2021 ensures y in LineYears {
      assert LineYears[y - 2006] == y;
    }
  }

  function PointsOver(ys: seq<int>, years: map<int, Num>): (pts: seq<LinePoint>)
    requires forall i, j :: 0 <= i < j < |ys| ==> ys[i] < ys[j]
    ensures forall pt :: pt in pts ==> pt.year in ys
    ensures forall i, j :: 0 <= i < j < |pts| ==> pts[i].year < pts[j].year
    ensures forall pt :: pt in pts <==> pt.year in ys && Get(years, pt.year) == Fin(pt.value)
  {
    if ys == [] then []
    else
      var rest := PointsOver(ys[1..], years);
      TailAbove(ys);
      assert ys == [ys[0]] + ys[1..];
      var x := Get(years, ys[0]);
      if x.Fin? then
        AscendingCons(LinePoint(ys[0], x.v), rest);
        [LinePoint(ys[0], x.v)] + rest
      else rest
  }

  lemma TailAbove(ys: seq<int>)
    requires ys != [] && forall i, j :: 0 <= i < j < |ys| ==> ys[i] < ys[j]
    ensures forall y :: y in ys[1..] ==> ys[0] < y
  {
    forall y | y in ys[1..] ensures ys[0] < y {
      var k :| 0 <= k < |ys[1..]| && ys[1..][k] == y;
      assert ys[k + 1] == y;
    }
  }

  lemma AscendingCons(p: LinePoint, rest: seq<LinePoint>)
    requires forall i, j :: 0 <= i < j < |rest| ==> rest[i].year < rest[j].year
    requires forall pt :: pt in rest ==> p.year < pt.year
    ensures forall i, j :: 0 <= i < j < |[p] + rest| ==> ([p] + rest)[i].year < ([p] + rest)[j].year
  {
    var r := [p] + rest;
    forall i, j | 0 <= i < j < |r| ensures r[i].year < r[j].year {
      assert r[j] == rest[j - 1];
      if i == 0 {
        assert rest[j - 1] in rest;
      }
    }
  }

  /** `if (lineData.length > 0)`: a comarca without a finite share in 2006-2021 gets no line. */
  predicate HasLine(e: Entry) {
    LineData(e) != []
  }

  lemma HasLineExactly(e: Entry)
    ensures HasLine(e) <==> exists y :: 2006 <= y <= 2021 && Get(e.years, y).Fin?
  {
    if exists y :: 2006 <= y <= 2021 && Get(e.years, y).Fin? {
      var y :| 2006 <= y <= 2021 && Get(e.years, y).Fin?;
      assert LinePoint(y, Get(e.years, y).v) in LineData(e);
    }
    if HasLine(e) {
      assert LineData(e)[0] in LineData(e);
    }
  }
}
