/**
 * The two sorts the charts rely on, both stable as `Array.prototype.sort` is:
 *
 *  - `SortDesc(s, key)`: `s.sort((a, b) => key(b) - key(a))`, largest key first
 *    (ascending order by `y` is `SortDesc` by `-y`);
 *  - `SortLex(s, key)`: `s.sort()` without a comparator, which orders elements
 *    by their string forms.
 *
 * Both are insertion sorts; each element is inserted after every element
 * already placed that does not come strictly after it, which is what makes
 * them stable.
 */
module Sorting {
  import opened Text
  import opened Seqs

  ghost predicate SortedDesc<T>(s: seq<T>, key: T -> real) {
    forall i, j :: 0 <= i < j < |s| ==> key(s[i]) >= key(s[j])
  }

  function Insert<T(!new)>(x: T, s: seq<T>, key: T -> real): (r: seq<T>)
    requires SortedDesc(s, key)
    ensures |r| == |s| + 1
    ensures forall y :: y in r <==> y in s || y == x
    ensures SortedDesc(r, key)
  {
    if s == [] then [x]
    else if key(s[0]) >= key(x) then
      var t := Insert(x, s[1..], key);
      HeadAboveRest(s, key);
      SortedCons(s[0], t, key);
      assert s == [s[0]] + s[1..];
      [s[0]] + t
    else
      HeadAboveRest(s, key);
      SortedCons(x, s, key);
      [x] + s
  }

  /** The head of a sorted sequence is at least every element of its tail. */
  lemma HeadAboveRest<T>(s: seq<T>, key: T -> real)
    requires s != [] && SortedDesc(s, key)
    ensures forall y :: y in s ==> key(s[0]) >= key(y)
  {
    forall y | y in s ensures key(s[0]) >= key(y) {
      var k :| 0 <= k < |s| && s[k] == y;
    }
  }

  /** Putting a large enough element in front keeps a sequence sorted. */
  lemma SortedCons<T>(h: T, t: seq<T>, key: T -> real)
    requires SortedDesc(t, key)
    requires forall y :: y in t ==> key(h) >= key(y)
    ensures SortedDesc([h] + t, key)
  {
    var r := [h] + t;
    forall i, j | 0 <= i < j < |r| ensures key(r[i]) >= key(r[j]) {
      assert r[j] == t[j - 1];
      if i > 0 {
        assert r[i] == t[i - 1];
      } else {
        assert t[j - 1] in t;
      }
    }
  }

  function SortDesc<T(!new)>(s: seq<T>, key: T -> real): (r: seq<T>)
    ensures |r| == |s|
    ensures forall y :: y in r <==> y in s
    ensures SortedDesc(r, key)
  {
    if s == [] then []
    else
      assert s == s[..|s| - 1] + [s[|s| - 1]];
      Insert(s[|s| - 1], SortDesc(s[..|s| - 1], key), key)
  }

  lemma {:induction false} InsertMultiset<T(!new)>(x: T, s: seq<T>, key: T -> real)
    requires SortedDesc(s, key)
    ensures multiset(Insert(x, s, key)) == multiset(s) + multiset{x}
  {
    if s != [] && key(s[0]) >= key(x) {
      var t := Insert(x, s[1..], key);
      assert Insert(x, s, key) == [s[0]] + t;
      InsertMultiset(x, s[1..], key);
      assert s == [s[0]] + s[1..];
      calc {
        multiset(Insert(x, s, key));
        multiset([s[0]]) + multiset(t);
        multiset([s[0]]) + multiset(s[1..]) + multiset{x};
        multiset(s) + multiset{x};
      }
    }
  }

  /** The sort is a permutation of its input. */
  lemma {:induction false} SortDescMultiset<T(!new)>(s: seq<T>, key: T -> real)
    ensures multiset(SortDesc(s, key)) == multiset(s)
  {
    if s != [] {
      var init := s[..|s| - 1];
      SortDescMultiset(init, key);
      InsertMultiset(s[|s| - 1], SortDesc(init, key), key);
      assert s == init + [s[|s| - 1]];
    }
  }

  /** The elements of `s` whose key is `k`, in their order in `s`. */
  function WithKey<T>(s: seq<T>, key: T -> real, k: real): seq<T> {
    if s == [] then []
    else
      var init := WithKey(s[..|s| - 1], key, k);
      if key(s[|s| - 1]) == k then init + [s[|s| - 1]] else init
  }

  lemma {:induction false} WithKeyCons<T>(x: T, s: seq<T>, key: T -> real, k: real)
    ensures WithKey([x] + s, key, k) == (if key(x) == k then [x] else []) + WithKey(s, key, k)
    decreases |s|
  {
    if s == [] {
      assert ([x] + s)[..0] == [];
    } else {
      var init := s[..|s| - 1];
      assert ([x] + s)[..|s|] == [x] + init;
      WithKeyCons(x, init, key, k);
    }
  }

  lemma {:induction false} WithKeyNone<T>(s: seq<T>, key: T -> real, k: real)
    requires forall i :: 0 <= i < |s| ==> key(s[i]) != k
    ensures WithKey(s, key, k) == []
  {
    if s != [] {
      WithKeyNone(s[..|s| - 1], key, k);
    }
  }

  lemma {:induction false} InsertWithKey<T(!new)>(x: T, s: seq<T>, key: T -> real, k: real)
    requires SortedDesc(s, key)
    ensures WithKey(Insert(x, s, key), key, k) == WithKey(s, key, k) + (if key(x) == k then [x] else [])
  {
    if s == [] {
      WithKeyCons(x, [], key, k);
    } else if key(s[0]) >= key(x) {
      var t := Insert(x, s[1..], key);
      var head := if key(s[0]) == k then [s[0]] else [];
      var tail := if key(x) == k then [x] else [];
      assert Insert(x, s, key) == [s[0]] + t;
      assert s == [s[0]] + s[1..];
      calc {
        WithKey(Insert(x, s, key), key, k);
        { WithKeyCons(s[0], t, key, k); }
        head + WithKey(t, key, k);
        { InsertWithKey(x, s[1..], key, k); }
        head + (WithKey(s[1..], key, k) + tail);
        (head + WithKey(s[1..], key, k)) + tail;
        { WithKeyCons(s[0], s[1..], key, k); }
        WithKey(s, key, k) + tail;
      }
    } else {
      InsertWithKeyFront(x, s, key, k);
    }
  }

  /** An element placed in front of every element whose key is smaller. */
  lemma InsertWithKeyFront<T(!new)>(x: T, s: seq<T>, key: T -> real, k: real)
    requires SortedDesc(s, key) && s != [] && key(s[0]) < key(x)
    ensures WithKey(Insert(x, s, key), key, k) == WithKey(s, key, k) + (if key(x) == k then [x] else [])
  {
    assert Insert(x, s, key) == [x] + s;
    WithKeyCons(x, s, key, k);
    if key(x) == k {
      WithKeyNone(s, key, k);
    }
  }

  /**
   * Stability: the elements sharing any one key keep their relative order.
   */
  lemma {:induction false} SortDescStable<T(!new)>(s: seq<T>, key: T -> real, k: real)
    ensures WithKey(SortDesc(s, key), key, k) == WithKey(s, key, k)
  {
    if s != [] {
      var init := s[..|s| - 1];
      SortDescStable(init, key, k);
      InsertWithKey(s[|s| - 1], SortDesc(init, key), key, k);
    }
  }

  ghost predicate StrictlyDesc<T>(s: seq<T>, key: T -> real) {
    forall i, j :: 0 <= i < j < |s| ==> key(s[i]) > key(s[j])
  }

  lemma {:induction false} InsertStrict<T(!new)>(x: T, s: seq<T>, key: T -> real)
    requires StrictlyDesc(s, key)
    requires forall y :: y in s ==> key(y) != key(x)
    ensures StrictlyDesc(Insert(x, s, key), key)
  {
    if s != [] && key(s[0]) >= key(x) {
      var t := Insert(x, s[1..], key);
      assert Insert(x, s, key) == [s[0]] + t;
      assert s[0] in s;
      InsertStrict(x, s[1..], key);
      HeadAbove(s, key);
      StrictCons(s[0], t, key);
    } else if s != [] {
      assert Insert(x, s, key) == [x] + s;
      forall y | y in s ensures key(x) > key(y) {
        var k :| 0 <= k < |s| && s[k] == y;
        if k > 0 {
          assert key(s[0]) > key(s[k]);
        }
      }
      StrictCons(x, s, key);
    }
  }

  lemma HeadAbove<T>(s: seq<T>, key: T -> real)
    requires StrictlyDesc(s, key) && s != []
    ensures forall y :: y in s[1..] ==> key(s[0]) > key(y)
  {
    forall y | y in s[1..] ensures key(s[0]) > key(y) {
      var k :| 0 <= k < |s[1..]| && s[1..][k] == y;
      assert s[k + 1] == y;
    }
  }

  lemma StrictCons<T>(a: T, t: seq<T>, key: T -> real)
    requires StrictlyDesc(t, key)
    requires forall y :: y in t ==> key(a) > key(y)
    ensures StrictlyDesc([a] + t, key)
  {
    forall i, j | 0 <= i < j < |[a] + t| ensures key(([a] + t)[i]) > key(([a] + t)[j]) {
      assert ([a] + t)[j] == t[j - 1];
      if i > 0 {
        assert ([a] + t)[i] == t[i - 1];
      } else {
        assert t[j - 1] in t;
      }
    }
  }

  /** Sorting elements with pairwise different keys orders them strictly. */
  lemma {:induction false} SortDescStrict<T(!new)>(s: seq<T>, key: T -> real)
    requires forall i, j :: 0 <= i < j < |s| ==> key(s[i]) != key(s[j])
    ensures StrictlyDesc(SortDesc(s, key), key)
  {
    if s != [] {
      var init := s[..|s| - 1];
      assert s == init + [s[|s| - 1]];
      SortDescStrict(init, key);
      forall y | y in SortDesc(init, key) ensures key(y) != key(s[|s| - 1]) {
        var k :| 0 <= k < |init| && init[k] == y;
      }
      InsertStrict(s[|s| - 1], SortDesc(init, key), key);
    }
  }

  ghost predicate SortedLex<T>(s: seq<T>, key: T -> string) {
    forall i, j :: 0 <= i < j < |s| ==> LexLe(key(s[i]), key(s[j]))
  }

  function InsertLex<T(!new)>(x: T, s: seq<T>, key: T -> string): (r: seq<T>)
    requires SortedLex(s, key)
    ensures |r| == |s| + 1
    ensures forall y :: y in r <==> y in s || y == x
    ensures SortedLex(r, key)
  {
    if s == [] then [x]
    else if LexLe(key(s[0]), key(x)) then
      var t := InsertLex(x, s[1..], key);
      assert forall y :: y in t ==> LexLe(key(s[0]), key(y)) by {
        forall y | y in t ensures LexLe(key(s[0]), key(y)) {
          if y != x {
            var k :| 0 <= k < |s[1..]| && s[1..][k] == y;
            assert s[k + 1] == y;
          }
        }
      }
      assert s == [s[0]] + s[1..];
      [s[0]] + t
    else
      LexLeTotal(key(s[0]), key(x));
      assert forall j :: 0 <= j < |s| ==> LexLe(key(x), key(s[j])) by {
        forall j | 0 <= j < |s| ensures LexLe(key(x), key(s[j])) {
          if j > 0 {
            LexLeTransitive(key(x), key(s[0]), key(s[j]));
          }
        }
      }
      [x] + s
  }

  /** `s.sort()`: ascending by the string form `key` of each element. */
  function SortLex<T(!new)>(s: seq<T>, key: T -> string): (r: seq<T>)
    ensures |r| == |s|
    ensures forall y :: y in r <==> y in s
    ensures SortedLex(r, key)
  {
    if s == [] then []
    else
      assert s == s[..|s| - 1] + [s[|s| - 1]];
      InsertLex(s[|s| - 1], SortLex(s[..|s| - 1], key), key)
  }

  lemma {:induction false} InsertLexDistinct<T(!new)>(x: T, s: seq<T>, key: T -> string)
    requires SortedLex(s, key)
    requires Distinct(s) && x !in s
    ensures Distinct(InsertLex(x, s, key))
  {
    if s != [] && LexLe(key(s[0]), key(x)) {
      var t := InsertLex(x, s[1..], key);
      assert InsertLex(x, s, key) == [s[0]] + t;
      assert s == [s[0]] + s[1..];
      InsertLexDistinct(x, s[1..], key);
      assert s[0] !in s[1..];
      assert s[0] !in t;
    }
  }

  /** Sorting a duplicate-free sequence leaves it duplicate-free. */
  lemma {:induction false} SortLexDistinct<T(!new)>(s: seq<T>, key: T -> string)
    requires Distinct(s)
    ensures Distinct(SortLex(s, key))
  {
    if s != [] {
      var init := s[..|s| - 1];
      assert s == init + [s[|s| - 1]];
      SortLexDistinct(init, key);
      InsertLexDistinct(s[|s| - 1], SortLex(init, key), key);
    }
  }

  function Self(s: string): string {
    s
  }

  /** `Array.from(new Set(s)).sort()` on strings: each value once, in code-point order. */
  function SortedSet(s: seq<string>): (r: seq<string>)
    ensures Distinct(r)
    ensures SortedLex(r, Self)
    ensures forall x :: x in r <==> x in s
  {
    var d := Dedup(s);
    SortLexDistinct(d, Self);
    SortLex(d, Self)
  }

  /**
   * `Array.from(new Set(ys)).sort()` on numbers: each value once, ordered by
   * its decimal string, as the default comparator of `sort` does.
   */
  function SortedNumbers(ys: seq<int>): (r: seq<int>)
    ensures Distinct(r)
    ensures SortedLex(r, IntString)
    ensures forall y :: y in r <==> y in ys
  {
    var d := Dedup(ys);
    SortLexDistinct(d, IntString);
    SortLex(d, IntString)
  }

  /** For four-digit years the string order is the numeric order, so the list ascends. */
  lemma SortedNumbersAscending(ys: seq<int>)
    requires forall y :: y in ys ==> 1000 <= y <= 9999
    ensures forall i, j :: 0 <= i < j < |SortedNumbers(ys)| ==> SortedNumbers(ys)[i] < SortedNumbers(ys)[j]
  {
    var r := SortedNumbers(ys);
    forall i, j | 0 <= i < j < |r| ensures r[i] < r[j] {
      assert r[i] in ys && r[j] in ys;
      FourDigitYearsOrder(r[i], r[j]);
    }
  }
}
