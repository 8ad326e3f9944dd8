/** Sorting by an integer key, standing in for `std::sort`, and the facts
    about permutations the callers need. */
module Sorting {

  ghost predicate SortedBy<T>(s: seq<T>, key: T -> int) {
    forall i, j :: 0 <= i < j < |s| ==> key(s[i]) <= key(s[j])
  }

  predicate Distinct<T(==)>(s: seq<T>) {
    forall i, j :: 0 <= i < j < |s| ==> s[i] != s[j]
  }

  ghost predicate LowerBound<T>(s: seq<T>, key: T -> int, k: int) {
    forall i :: 0 <= i < |s| ==> k <= key(s[i])
  }

  function Insert<T>(x: T, s: seq<T>, key: T -> int): (r: seq<T>)
    ensures multiset(r) == multiset(s) + multiset{x}
    ensures |r| == |s| + 1
  {
    if |s| == 0 then [x]
    else if key(x) <= key(s[0]) then
      [x] + s
    else
      var rest := Insert(x, s[1..], key);
      assert s == [s[0]] + s[1..];
      [s[0]] + rest
  }
  lemma {:induction false} InsertSorted<T>(x: T, s: seq<T>, key: T -> int)
    requires SortedBy(s, key)
    ensures SortedBy(Insert(x, s, key), key)
    ensures forall k :: LowerBound(s, key, k) && k <= key(x) ==> LowerBound(Insert(x, s, key), key, k)
  {
    var r := Insert(x, s, key);
    if |s| == 0 {
    } else if key(x) <= key(s[0]) {
      assert r == [x] + s;
      forall i, j | 0 <= i < j < |r| ensures key(r[i]) <= key(r[j]) {
        if i > 0 { assert r[i] == s[i-1] && r[j] == s[j-1]; }
        else { assert r[j] == s[j-1]; assert key(s[0]) <= key(s[j-1]) || j == 1; }
      }
      forall k | LowerBound(s, key, k) && k <= key(x) ensures LowerBound(r, key, k) {
        forall i | 0 <= i < |r| ensures k <= key(r[i]) {
          if i > 0 { assert r[i] == s[i-1]; }
        }
      }
    } else {
      var t := s[1..];
      var rest := Insert(x, t, key);
      assert r == [s[0]] + rest;
      assert SortedBy(t, key);
      InsertSorted(x, t, key);
      assert LowerBound(t, key, key(s[0]));
      assert LowerBound(rest, key, key(s[0]));
      forall i, j | 0 <= i < j < |r| ensures key(r[i]) <= key(r[j]) {
        assert r[j] == rest[j-1];
        if i > 0 { assert r[i] == rest[i-1]; }
      }
      forall k | LowerBound(s, key, k) && k <= key(x) ensures LowerBound(r, key, k) {
        assert LowerBound(t, key, k);
        assert LowerBound(rest, key, k);
        forall i | 0 <= i < |r| ensures k <= key(r[i]) {
          if i > 0 { assert r[i] == rest[i-1]; }
        }
      }
    }
  }

  /** Insertion sort; ties keep their input order, which is one of the
      orders `std::sort` may produce. */
  function SortBy<T>(s: seq<T>, key: T -> int): (r: seq<T>)
    ensures multiset(r) == multiset(s)
    ensures SortedBy(r, key)
  {
    if |s| == 0 then []
    else
      assert s == s[..|s| - 1] + [s[|s| - 1]];
      var sorted := SortBy(s[..|s| - 1], key);
      InsertSorted(s[|s| - 1], sorted, key);
      Insert(s[|s| - 1], sorted, key)
  }

  lemma DistinctMultiset<T>(s: seq<T>)
    ensures Distinct(s) <==> forall x :: multiset(s)[x] <= 1
  {
    if |s| > 0 {
      var init := s[..|s| - 1];
      var last := s[|s| - 1];
      assert s == init + [last];
      DistinctMultiset(init);
      if Distinct(s) {
        assert Distinct(init);
        assert last !in init;
      }
      if forall x :: multiset(s)[x] <= 1 {
        assert forall x :: multiset(init)[x] <= 1 by {
          forall x ensures multiset(init)[x] <= 1 {
            assert multiset(s)[x] == multiset(init)[x] + multiset([last])[x];
          }
        }
        assert multiset(s)[last] == multiset(init)[last] + 1;
        assert last !in multiset(init);
        forall i, j | 0 <= i < j < |s| ensures s[i] != s[j] {
          if j == |s| - 1 {
            assert s[i] in init;
          } else {
            assert init[i] != init[j];
          }
        }
      }
    }
  }

  /** A duplicate-free sequence of exactly two distinct values lists each
      of them once. */
  lemma DistinctPair<T>(s: seq<T>, a: T, b: T)
    requires Distinct(s) && a != b
    requires forall x :: x in s <==> x == a || x == b
    ensures s == [a, b] || s == [b, a]
  {
    DistinctMultiset(s);
    forall x ensures multiset(s)[x] == multiset{a, b}[x] {
      assert x in s <==> x in multiset(s);
    }
    assert multiset(s) == multiset{a, b};
    assert |s| == |multiset(s)| == 2;
  }

  /** Reordering keeps a sequence free of duplicates. */
  lemma PermutationKeepsDistinct<T>(a: seq<T>, b: seq<T>)
    requires multiset(a) == multiset(b)
    requires Distinct(a)
    ensures Distinct(b)
  {
    DistinctMultiset(a);
    DistinctMultiset(b);
  }

  predicate Ascending(s: seq<int>) {
    forall i, j :: 0 <= i < j < |s| ==> s[i] <= s[j]
  }

  lemma AscendingIsSorted(s: seq<int>)
    ensures Ascending(s) <==> SortedBy(s, x => x)
  {
  }

  /** `std::sort` over integers with the default `<`. */
  function SortInts(s: seq<int>): (r: seq<int>)
    ensures |r| == |s|
    ensures multiset(r) == multiset(s)
    ensures Ascending(r)
  {
    var r := SortBy(s, x => x);
    assert |r| == |multiset(r)| == |multiset(s)| == |s|;
    AscendingIsSorted(r);
    r
  }

  /** The first element of an ascending sequence is its least element. */
  lemma AscendingHeadIsLeast(s: seq<int>, x: int)
    requires Ascending(s) && x in multiset(s)
    ensures s[0] <= x
  {
    assert x in s;
    var i :| 0 <= i < |s| && s[i] == x;
  }

  lemma TailMultiset<T>(s: seq<T>)
    requires |s| > 0
    ensures multiset(s[1..]) == multiset(s) - multiset{s[0]}
  {
    assert s == [s[0]] + s[1..];
  }

  lemma AscendingTail(s: seq<int>)
    requires |s| > 0 && Ascending(s)
    ensures Ascending(s[1..])
  {
    forall i, j | 0 <= i < j < |s| - 1 ensures s[1..][i] <= s[1..][j] {
      assert s[1..][i] == s[i + 1] && s[1..][j] == s[j + 1];
    }
  }

  /** Two ascending arrangements of the same integers are the same sequence:
      a sorted permutation is unique. */
  lemma {:induction false} SortedPermutationUnique(a: seq<int>, b: seq<int>)
    requires multiset(a) == multiset(b)
    requires Ascending(a) && Ascending(b)
    ensures a == b
    decreases |a|
  {
    assert |a| == |multiset(a)| == |multiset(b)| == |b|;
    if |a| > 0 {
      assert a[0] == b[0] by {
        assert a[0] in multiset(a) && b[0] in multiset(b);
        AscendingHeadIsLeast(a, b[0]);
        AscendingHeadIsLeast(b, a[0]);
      }
      assert multiset(a[1..]) == multiset(b[1..]) by {
        TailMultiset(a);
        TailMultiset(b);
      }
      AscendingTail(a);
      AscendingTail(b);
      SortedPermutationUnique(a[1..], b[1..]);
      assert a == [a[0]] + a[1..];
      assert b == [b[0]] + b[1..];
    }
  }
}
