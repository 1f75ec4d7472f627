/**
 * The ranking pipeline the bar and line charts share:
 * `rows.filter(d => Number.isFinite(value(d))).sort((a, b) => value(b) - value(a)).slice(0, n)`.
 *
 * Only finite values reach the comparator, so the sort orders plain numbers;
 * `Array.prototype.sort` is stable, so equal values keep their input order.
 */
module Ranking {
  import opened Values
  import opened Seqs
  import opened Sorting

  /** The sort key: the value itself for a finite value (the only kind that reaches the sort). */
  function Score<T>(value: T -> Num): T -> real {
    (x: T) => if value(x).Fin? then value(x).v else 0.0
  }

  /** `rows.filter(d => Number.isFinite(value(d)))`. */
  function Finites<T(!new)>(rows: seq<T>, value: T -> Num): (r: seq<T>)
    ensures |r| <= |rows|
    ensures forall x :: x in r <==> x in rows && value(x).Fin?
  {
    Filter(rows, (x: T) => value(x).Fin?)
  }

  /** The filter keeps every finite row as often as it occurs. */
  lemma FinitesMultiset<T(!new)>(rows: seq<T>, value: T -> Num)
    ensures forall x :: multiset(Finites(rows, value))[x] == if value(x).Fin? then multiset(rows)[x] else 0
  {
    FilterMultiset(rows, (x: T) => value(x).Fin?);
  }

  /** The finite rows, largest value first, ties in input order. */
  function Ranked<T(!new)>(rows: seq<T>, value: T -> Num): (r: seq<T>)
    ensures |r| == |Finites(rows, value)|
    ensures multiset(r) == multiset(Finites(rows, value))
    ensures forall i :: 0 <= i < |r| ==> r[i] in rows && value(r[i]).Fin?
    ensures forall i, j :: 0 <= i < j < |r| ==> Score(value)(r[i]) >= Score(value)(r[j])
  {
    var f := Finites(rows, value);
    SortDescMultiset(f, Score(value));
    var r := SortDesc(f, Score(value));
    assert forall i :: 0 <= i < |r| ==> r[i] in f;
    r
  }

  /**
   * The first `n` of the ranking: finite rows of the input, ordered by
   * value (`Score` is the value itself on finite rows), as many as there are
   * up to `n`.
   */
  function TopN<T(!new)>(rows: seq<T>, value: T -> Num, n: nat): (top: seq<T>)
    ensures |top| == if n <= |Finites(rows, value)| then n else |Finites(rows, value)|
    ensures forall i :: 0 <= i < |top| ==> top[i] in rows && value(top[i]).Fin?
    ensures forall i, j :: 0 <= i < j < |top| ==> Score(value)(top[i]) >= Score(value)(top[j])
  {
    Take(Ranked(rows, value), n)
  }

  /** The finite rows the truncation drops. */
  function Omitted<T(!new)>(rows: seq<T>, value: T -> Num, n: nat): seq<T> {
    Drop(Ranked(rows, value), n)
  }

  /** `s.slice(n)`. */
  function Drop<T>(s: seq<T>, n: nat): seq<T> {
    if n <= |s| then s[n..] else []
  }

  /**
   * Nothing left out beats what was kept: kept and dropped rows together are
   * the finite rows (as a multiset), rows are dropped only when all `n`
   * places are taken, and every dropped row scores at most every kept one.
   */
  lemma TopNOmitted<T(!new)>(rows: seq<T>, value: T -> Num, n: nat)
    ensures multiset(TopN(rows, value, n)) + multiset(Omitted(rows, value, n)) == multiset(Finites(rows, value))
    ensures Omitted(rows, value, n) != [] ==> |TopN(rows, value, n)| == n
    ensures forall i, j :: 0 <= i < |Omitted(rows, value, n)| && 0 <= j < |TopN(rows, value, n)| ==>
      Score(value)(Omitted(rows, value, n)[i]) <= Score(value)(TopN(rows, value, n)[j])
  {
    var r := Ranked(rows, value);
    SplitSorted(r, Score(value), n);
  }

  lemma SplitSorted<T>(r: seq<T>, key: T -> real, n: nat)
    requires forall i, j :: 0 <= i < j < |r| ==> key(r[i]) >= key(r[j])
    ensures multiset(Take(r, n)) + multiset(Drop(r, n)) == multiset(r)
    ensures Drop(r, n) != [] ==> |Take(r, n)| == n
    ensures forall i, j :: 0 <= i < |Drop(r, n)| && 0 <= j < |Take(r, n)| ==> key(Drop(r, n)[i]) <= key(Take(r, n)[j])
  {
    var top := Take(r, n);
    var rest := Drop(r, n);
    var k := |top|;
    assert r == top + rest;
    forall i, j | 0 <= i < |rest| && 0 <= j < k ensures key(rest[i]) <= key(top[j]) {
      assert r[k + i] == rest[i];
      assert r[j] == top[j];
    }
  }

  /** Stability: the kept rows sharing any one value are the first of those rows, in input order. */
  lemma TopNStable<T(!new)>(rows: seq<T>, value: T -> Num, n: nat, k: real)
    ensures WithKey(TopN(rows, value, n), Score(value), k) <= WithKey(Finites(rows, value), Score(value), k)
  {
    var r := Ranked(rows, value);
    SortDescStable(Finites(rows, value), Score(value), k);
    WithKeyPrefix(TopN(rows, value, n), r, Score(value), k);
  }

  lemma {:induction false} WithKeyPrefix<T>(t: seq<T>, s: seq<T>, key: T -> real, k: real)
    requires t <= s
    ensures WithKey(t, key, k) <= WithKey(s, key, k)
    decreases |s|
  {
    if |t| < |s| {
      var init := s[..|s| - 1];
      assert t <= init;
      WithKeyPrefix(t, init, key, k);
    } else {
      assert t == s;
    }
  }

  lemma FinitesSnoc<T(!new)>(rows: seq<T>, x: T, value: T -> Num)
    ensures Finites(rows + [x], value) == if value(x).Fin? then Finites(rows, value) + [x] else Finites(rows, value)
  {
    FilterSnoc(rows, x, (x: T) => value(x).Fin?);
  }

  lemma {:induction false} WithKeyEmpty<T>(s: seq<T>, key: T -> real, k: real)
    requires WithKey(s, key, k) == []
    ensures forall i :: 0 <= i < |s| ==> key(s[i]) != k
  {
    if s != [] {
      var init := s[..|s| - 1];
      WithKeyEmpty(init, key, k);
      assert forall i :: 0 <= i < |init| ==> s[i] == init[i];
    }
  }

  /** The first finite row with key `k` is the earliest row of the input that is finite with that key. */
  lemma {:induction false} FirstFiniteWithKey<T(!new)>(rows: seq<T>, value: T -> Num, k: real) returns (j: nat)
    requires WithKey(Finites(rows, value), Score(value), k) != []
    ensures j < |rows| && rows[j] == WithKey(Finites(rows, value), Score(value), k)[0]
    ensures value(rows[j]).Fin? && Score(value)(rows[j]) == k
    ensures forall i :: 0 <= i < j && value(rows[i]).Fin? ==> Score(value)(rows[i]) != k
  {
    var init := rows[..|rows| - 1];
    var x := rows[|rows| - 1];
    assert rows == init + [x];
    FinitesSnoc(init, x, value);
    var f := Finites(init, value);
    var w := WithKey(f, Score(value), k);
    if value(x).Fin? {
      assert (f + [x])[..|f|] == f;
    }
    if w != [] {
      j := FirstFiniteWithKey(init, value, k);
      assert forall i :: 0 <= i < |init| ==> rows[i] == init[i];
    } else {
      WithKeyEmpty(f, Score(value), k);
      j := |rows| - 1;
      forall i | 0 <= i < j && value(rows[i]).Fin? ensures Score(value)(rows[i]) != k {
        assert rows[i] == init[i] && init[i] in f;
        var m :| 0 <= m < |f| && f[m] == init[i];
      }
    }
  }

  /**
   * `.slice(0, 1)` of the ranking: nothing when no value is finite,
   * otherwise the earliest row holding the largest finite value.
   */
  lemma TopOne<T(!new)>(rows: seq<T>, value: T -> Num)
    ensures |TopN(rows, value, 1)| <= 1
    ensures TopN(rows, value, 1) == [] <==> forall i :: 0 <= i < |rows| ==> value(rows[i]).NonFinite?
    ensures TopN(rows, value, 1) != [] ==> exists j :: EarliestMax(rows, value, j) && rows[j] == TopN(rows, value, 1)[0]
  {
    var top := TopN(rows, value, 1);
    var f := Finites(rows, value);
    if f != [] {
      assert f[0] in f;
    }
    forall i | 0 <= i < |rows| && value(rows[i]).Fin? ensures f != [] {
      assert rows[i] in f;
    }
    if top != [] {
      TopOneMax(rows, value);
      var j := TopOneFirst(rows, value);
      assert value(rows[j]).Fin?;
      forall i | 0 <= i < |rows| && value(rows[i]).Fin? ensures value(rows[i]).v <= value(rows[j]).v {
        assert rows[i] in rows;
      }
      assert EarliestMax(rows, value, j);
    }
  }

  /** At most one row is the earliest maximum. */
  lemma EarliestMaxUnique<T>(rows: seq<T>, value: T -> Num, j: int, k: int)
    requires EarliestMax(rows, value, j) && EarliestMax(rows, value, k)
    ensures j == k
  {
  }

  /** Row `j` holds the largest finite value, and no earlier row holds it. */
  predicate EarliestMax<T>(rows: seq<T>, value: T -> Num, j: int) {
    && 0 <= j < |rows| && value(rows[j]).Fin?
    && (forall i :: 0 <= i < |rows| && value(rows[i]).Fin? ==> value(rows[i]).v <= value(rows[j]).v)
    && (forall i :: 0 <= i < j && value(rows[i]).Fin? ==> value(rows[i]).v < value(rows[j]).v)
  }

  lemma TopOneMax<T(!new)>(rows: seq<T>, value: T -> Num)
    requires TopN(rows, value, 1) != []
    ensures forall d :: d in rows && value(d).Fin? ==> Score(value)(d) <= Score(value)(TopN(rows, value, 1)[0])
  {
    var top := TopN(rows, value, 1);
    var f := Finites(rows, value);
    var om := Omitted(rows, value, 1);
    TopNOmitted(rows, value, 1);
    forall d | d in rows && value(d).Fin? ensures Score(value)(d) <= Score(value)(top[0]) {
      assert d in f;
      assert d in multiset(f);
      if d !in multiset(top) {
        assert d in multiset(om);
        var m :| 0 <= m < |om| && om[m] == d;
      }
    }
  }

  lemma TopOneFirst<T(!new)>(rows: seq<T>, value: T -> Num) returns (j: nat)
    requires TopN(rows, value, 1) != []
    ensures j < |rows| && rows[j] == TopN(rows, value, 1)[0] && value(rows[j]).Fin?
    ensures forall i :: 0 <= i < j && value(rows[i]).Fin? ==> Score(value)(rows[i]) != Score(value)(rows[j])
  {
    var top := TopN(rows, value, 1);
    var t := top[0];
    var k := Score(value)(t);
    TopNStable(rows, value, 1, k);
    assert top == [t];
    assert [t][..0] == [];
    assert WithKey(top, Score(value), k) == [t];
    j := FirstFiniteWithKey(rows, value, k);
  }

  /**
   * `d3.max(top, value) || 1` on a ranking: the first (largest) value, or 1
   * when there is none or it is 0.
   */
  function AxisMax<T(!new)>(top: seq<T>, value: T -> Num): (m: real)
    requires forall i :: 0 <= i < |top| ==> value(top[i]).Fin?
    requires forall i, j :: 0 <= i < j < |top| ==> Score(value)(top[i]) >= Score(value)(top[j])
    ensures m == if top == [] || value(top[0]).v == 0.0 then 1.0 else value(top[0]).v
    ensures forall i :: 0 <= i < |top| ==> value(top[i]).v <= m
  {
    FirstIsMax(top, value);
    forall i | 0 <= i < |top| ensures value(top[i]).v <= value(top[0]).v {
      if i > 0 {
        assert Score(value)(top[0]) >= Score(value)(top[i]);
      }
    }
    OrDefault(D3Max(Map(top, value)), 1.0)
  }

  lemma FirstIsMax<T(!new)>(top: seq<T>, value: T -> Num)
    requires forall i :: 0 <= i < |top| ==> value(top[i]).Fin?
    requires forall i, j :: 0 <= i < j < |top| ==> Score(value)(top[i]) >= Score(value)(top[j])
    ensures D3Max(Map(top, value)) == if top == [] then None else Some(value(top[0]).v)
  {
    var vs := Map(top, value);
    if top != [] {
      assert vs[0] == value(top[0]);
      assert vs[0] in vs;
      var d := D3Max(vs);
      var i :| 0 <= i < |vs| && vs[i] == Fin(d.value);
      assert Score(value)(top[0]) >= Score(value)(top[i]) || i == 0;
    } else {
      assert vs == [];
    }
  }
}
