/**
 * The handful of table operations that the endpoints are built from, stated
 * over sequences: descending sort, `unique`, `dict(zip(...))`, `head`, a
 * guarded percentage and Python's ordering of strings.
 */
module Tabular {

  datatype Option<T> = None | Some(value: T)

  function Min(a: int, b: int): int { if a < b then a else b }

  function Max(a: int, b: int): int { if a < b then b else a }

  // ---------------------------------------------------------------------
  // Descending sort
  // ---------------------------------------------------------------------

  /** Entries appear in non-increasing order of `key`. */
  ghost predicate SortedDesc<T>(s: seq<T>, key: T -> real) {
    forall i, j :: 0 <= i < j < |s| ==> key(s[i]) >= key(s[j])
  }

  /**
   * `r` is `s` rearranged into non-increasing order of `key`. This is all
   * that a descending `sort_values` promises: its quicksort leaves the
   * order of equal keys unspecified.
   */
  ghost predicate RankedDesc<T>(r: seq<T>, s: seq<T>, key: T -> real) {
    multiset(r) == multiset(s) && SortedDesc(r, key)
  }

  function Insert<T>(x: T, s: seq<T>, key: T -> real): (r: seq<T>)
    ensures |r| == |s| + 1
  {
    if |s| == 0 then [x]
    else if key(x) >= key(s[0]) then [x] + s
    else [s[0]] + Insert(x, s[1..], key)
  }

  lemma {:induction false} InsertMultiset<T>(x: T, s: seq<T>, key: T -> real)
    ensures multiset(Insert(x, s, key)) == multiset{x} + multiset(s)
  {
    if |s| > 0 && key(x) < key(s[0]) {
      assert s == [s[0]] + s[1..];
      InsertMultiset(x, s[1..], key);
    }
  }

  /** Putting an entry no smaller than the first in front keeps a sequence descending. */
  lemma ConsSorted<T>(h: T, t: seq<T>, key: T -> real)
    requires SortedDesc(t, key)
    requires |t| > 0 ==> key(h) >= key(t[0])
    ensures SortedDesc([h] + t, key)
  {
    var r := [h] + t;
    forall i, j | 0 <= i < j < |r| ensures key(r[i]) >= key(r[j]) {
      if i == 0 {
        assert r[j] == t[j - 1];
        if j > 1 { assert key(t[0]) >= key(t[j - 1]); }
      } else {
        assert r[i] == t[i - 1] && r[j] == t[j - 1];
      }
    }
  }

  lemma {:induction false} InsertSorted<T>(x: T, s: seq<T>, key: T -> real)
    requires SortedDesc(s, key)
    ensures SortedDesc(Insert(x, s, key), key)
    ensures Insert(x, s, key)[0] == (if |s| > 0 && key(x) < key(s[0]) then s[0] else x)
  {
    if |s| == 0 {
    } else if key(x) >= key(s[0]) {
      ConsSorted(x, s, key);
    } else {
      var t := s[1..];
      assert SortedDesc(t, key) by {
        forall i, j | 0 <= i < j < |t| ensures key(t[i]) >= key(t[j]) {
          assert t[i] == s[i + 1] && t[j] == s[j + 1];
        }
      }
      InsertSorted(x, t, key);
      var rest := Insert(x, t, key);
      if |t| > 0 && key(x) < key(t[0]) {
        assert key(s[0]) >= key(s[1]);
      }
      ConsSorted(s[0], rest, key);
    }
  }

  /**
   * One descending sort. It happens to keep equal keys in input order;
   * nothing proved about the endpoints depends on that.
   */
  function SortDesc<T>(s: seq<T>, key: T -> real): (r: seq<T>)
    ensures |r| == |s|
  {
    if |s| == 0 then [] else Insert(s[0], SortDesc(s[1..], key), key)
  }

  /** The sort leaves its input in non-increasing order. */
  lemma {:induction false} SortDescSorted<T>(s: seq<T>, key: T -> real)
    ensures SortedDesc(SortDesc(s, key), key)
  {
    if |s| > 0 {
      SortDescSorted(s[1..], key);
      InsertSorted(s[0], SortDesc(s[1..], key), key);
    }
  }

  /** The sort only rearranges its input. */
  lemma {:induction false} SortDescPermutes<T>(s: seq<T>, key: T -> real)
    ensures multiset(SortDesc(s, key)) == multiset(s)
  {
    if |s| > 0 {
      assert s == [s[0]] + s[1..];
      SortDescPermutes(s[1..], key);
      InsertMultiset(s[0], SortDesc(s[1..], key), key);
    }
  }

  lemma SortDescSpec<T>(s: seq<T>, key: T -> real)
    ensures RankedDesc(SortDesc(s, key), s, key)
  {
    SortDescSorted(s, key);
    SortDescPermutes(s, key);
  }

  /** Any two entries of a sort, in order, have non-increasing keys. */
  lemma SortedAt<T>(s: seq<T>, key: T -> real, i: nat, j: nat)
    requires i <= j < |s|
    ensures key(SortDesc(s, key)[i]) >= key(SortDesc(s, key)[j])
  {
    SortDescSorted(s, key);
  }

  /** A prefix of a descending sequence is descending. */
  lemma SortedPrefix<T>(s: seq<T>, n: nat, key: T -> real)
    requires SortedDesc(s, key) && n <= |s|
    ensures SortedDesc(s[..n], key)
  {
  }

  /**
   * Splitting a ranking after its first `n` entries: what is left out ranks
   * no higher than anything kept, and kept plus left out is the whole input.
   */
  lemma {:induction false} RankedSplit<T>(r: seq<T>, s: seq<T>, n: nat, key: T -> real)
    requires RankedDesc(r, s, key) && n <= |r|
    ensures multiset(r[..n]) <= multiset(s)
    ensures forall x, y :: x in multiset(s) - multiset(r[..n]) && y in r[..n] ==> key(x) <= key(y)
  {
    var kept, rest := r[..n], r[n..];
    SplitMultiset(r, n);
    assert multiset(s) - multiset(kept) == multiset(rest);
    forall x, y | x in multiset(rest) && y in kept ensures key(x) <= key(y) {
      var i :| 0 <= i < n && kept[i] == y;
      assert x in rest;
      var j :| 0 <= j < |rest| && rest[j] == x;
      assert key(r[i]) >= key(r[n + j]);
    }
  }

  lemma SplitMultiset<T>(r: seq<T>, n: nat)
    requires n <= |r|
    ensures multiset(r) == multiset(r[..n]) + multiset(r[n..])
  {
    assert r == r[..n] + r[n..];
  }

  /** Occurrences of `x` in a non-empty sequence: its head, then its tail. */
  lemma ConsCount<T>(s: seq<T>, x: T)
    requires |s| > 0
    ensures multiset(s)[x] == (if s[0] == x then 1 else 0) + multiset(s[1..])[x]
  {
    assert s == [s[0]] + s[1..];
  }

  // ---------------------------------------------------------------------
  // Distinct values
  // ---------------------------------------------------------------------

  ghost predicate Distinct<T>(s: seq<T>) {
    forall i, j :: 0 <= i < j < |s| ==> s[i] != s[j]
  }

  /** The distinct values of `s`, in order of first appearance. */
  function Unique<T(==,!new)>(s: seq<T>): (r: seq<T>)
    ensures forall x :: x in r <==> x in s
    ensures Distinct(r)
  {
    if |s| == 0 then []
    else
      var init := s[..|s| - 1];
      var u := Unique(init);
      assert s == init + [s[|s| - 1]];
      if s[|s| - 1] in u then u else u + [s[|s| - 1]]
  }

  /** In a sequence without repetitions every value occurs at most once. */
  lemma {:induction false} DistinctMultiplicity<T>(s: seq<T>, x: T)
    requires Distinct(s)
    ensures multiset(s)[x] <= 1
  {
    if |s| > 0 {
      assert s == [s[0]] + s[1..];
      DistinctMultiplicity(s[1..], x);
      if x == s[0] {
        assert x !in s[1..];
      }
    }
  }

  /** Rearranging a sequence without repetitions gives one without repetitions. */
  lemma PermutationDistinct<T>(r: seq<T>, s: seq<T>)
    requires multiset(r) == multiset(s) && Distinct(s)
    ensures Distinct(r)
  {
    forall i, j | 0 <= i < j < |r| ensures r[i] != r[j] {
      if r[i] == r[j] {
        assert r == r[..j] + [r[j]] + r[j + 1..];
        assert r[i] in r[..j];
        assert multiset(r)[r[i]] >= 2;
        DistinctMultiplicity(s, r[i]);
      }
    }
  }

  /** A sequence without repetitions has as many distinct values as entries. */
  lemma {:induction false} DistinctCardinality<T>(s: seq<T>)
    requires Distinct(s)
    ensures |set x | x in s| == |s|
  {
    if |s| > 0 {
      var init := s[..|s| - 1];
      DistinctCardinality(init);
      assert (set x | x in s) == (set x | x in init) + {s[|s| - 1]};
      assert s[|s| - 1] !in init;
    }
  }

  /** No sequence has more distinct values than entries. */
  lemma {:induction false} SetCardinality<T>(s: seq<T>)
    ensures |set x | x in s| <= |s|
  {
    if |s| > 0 {
      var init := s[..|s| - 1];
      SetCardinality(init);
      assert (set x | x in s) == (set x | x in init) + {s[|s| - 1]};
    }
  }

  /** A subset has no more elements than its superset. */
  lemma SubsetCardinality<T>(a: set<T>, b: set<T>)
    requires a <= b
    ensures |a| <= |b|
  {
    assert b == a + (b - a);
  }

  // ---------------------------------------------------------------------
  // Dictionaries built from pairs
  // ---------------------------------------------------------------------

  /**
   * The dictionary built from `pairs` left to right: a key that occurs
   * several times keeps the value of its last occurrence.
   */
  function DictOf<K(==), V>(pairs: seq<(K, V)>): map<K, V> {
    if |pairs| == 0 then map[]
    else DictOf(pairs[..|pairs| - 1])[pairs[|pairs| - 1].0 := pairs[|pairs| - 1].1]
  }

  /** The keys are the first components of the pairs. */
  lemma {:induction false} DictOfKeys<K, V>(pairs: seq<(K, V)>)
    ensures DictOf(pairs).Keys == set i | 0 <= i < |pairs| :: pairs[i].0
  {
    if |pairs| > 0 {
      var init := pairs[..|pairs| - 1];
      DictOfKeys(init);
      assert (set i | 0 <= i < |pairs| :: pairs[i].0) == (set i | 0 <= i < |init| :: init[i].0) + {pairs[|pairs| - 1].0} by {
        assert forall i :: 0 <= i < |init| ==> init[i] == pairs[i];
      }
    }
  }

  /** There are no more keys than pairs. */
  lemma {:induction false} DictOfSize<K, V>(pairs: seq<(K, V)>)
    ensures |DictOf(pairs)| <= |pairs|
  {
    if |pairs| > 0 {
      var init := pairs[..|pairs| - 1];
      DictOfSize(init);
      var m0 := DictOf(init);
      var k := pairs[|pairs| - 1].0;
      assert DictOf(pairs).Keys == m0.Keys + {k};
      assert |m0.Keys + {k}| <= |m0.Keys| + 1;
    }
  }

  /** Entry `i` of `pairs` is `(k, v)` and no later entry has key `k`. */
  ghost predicate LastPair<K, V>(pairs: seq<(K, V)>, i: int, k: K, v: V) {
    0 <= i < |pairs| && pairs[i] == (k, v) && forall j :: i < j < |pairs| ==> pairs[j].0 != k
  }

  /** A key's value is the one it is paired with last. */
  lemma {:induction false} LastPairWins<K, V>(pairs: seq<(K, V)>, k: K)
    requires k in DictOf(pairs)
    ensures exists i :: LastPair(pairs, i, k, DictOf(pairs)[k])
  {
    var n := |pairs| - 1;
    var init := pairs[..n];
    if pairs[n].0 == k {
      assert LastPair(pairs, n, k, DictOf(pairs)[k]);
    } else {
      assert k in DictOf(init);
      LastPairWins(init, k);
      var i :| LastPair(init, i, k, DictOf(init)[k]);
      assert pairs[i] == init[i];
      assert LastPair(pairs, i, k, DictOf(pairs)[k]);
    }
  }

  // ---------------------------------------------------------------------
  // Percentages and Python string order
  // ---------------------------------------------------------------------

  /** `part` as a percentage of `whole`, and 0 when there is nothing to divide by. */
  function Percent(part: nat, whole: nat): (p: real)
    ensures whole == 0 ==> p == 0.0
    ensures part <= whole ==> 0.0 <= p <= 100.0
    ensures 0 < whole ==> (p == 100.0 <==> part == whole)
    ensures 0 < whole ==> (p == 0.0 <==> part == 0)
  {
    if whole > 0 then (part as real) / (whole as real) * 100.0 else 0.0
  }

  /** Python's order on strings: lexicographic by code point, a proper prefix first. */
  predicate StrLess(a: string, b: string) {
    if |b| == 0 then false
    else if |a| == 0 then true
    else if a[0] != b[0] then a[0] < b[0]
    else StrLess(a[1..], b[1..])
  }

  lemma {:induction false} StrLessIrreflexive(a: string)
    ensures !StrLess(a, a)
  {
    if |a| > 0 { StrLessIrreflexive(a[1..]); }
  }

  lemma {:induction false} StrLessTransitive(a: string, b: string, c: string)
    requires StrLess(a, b) && StrLess(b, c)
    ensures StrLess(a, c)
  {
    if |a| > 0 && a[0] == b[0] && b[0] == c[0] {
      StrLessTransitive(a[1..], b[1..], c[1..]);
    }
  }

  /** Any two different strings are ordered one way or the other. */
  lemma {:induction false} StrLessTotal(a: string, b: string)
    ensures a == b || StrLess(a, b) || StrLess(b, a)
  {
    if |a| > 0 && |b| > 0 && a[0] == b[0] {
      StrLessTotal(a[1..], b[1..]);
      if a[1..] == b[1..] {
        assert a == [a[0]] + a[1..] && b == [b[0]] + b[1..];
      }
    }
  }
}
