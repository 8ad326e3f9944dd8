/** Lexicographic order on sequences, the order of `std::string::compare`,
    of `std::set<std::string>` / `std::map<std::string, _>` iteration and of
    LevelDB's default byte-wise comparator: a proper prefix comes first,
    otherwise the first differing element decides. */
module LexOrder {

  ghost predicate StrictTotalOrder<T(!new)>(lt: (T, T) -> bool) {
    && (forall x :: !lt(x, x))
    && (forall x, y, z :: lt(x, y) && lt(y, z) ==> lt(x, z))
    && (forall x, y :: x != y ==> lt(x, y) || lt(y, x))
  }

  predicate LexLess<T(==)>(a: seq<T>, b: seq<T>, lt: (T, T) -> bool) {
    if |a| == 0 then |b| > 0
    else if |b| == 0 then false
    else if a[0] == b[0] then LexLess(a[1..], b[1..], lt)
    else lt(a[0], b[0])
  }

  function CharLess(a: char, b: char): bool { a < b }

  /** `a < b` for `std::string`: code units compare as unsigned values. */
  predicate StringLess(a: string, b: string) {
    LexLess(a, b, CharLess)
  }

  lemma CharLessIsStrictTotal()
    ensures StrictTotalOrder(CharLess)
  {
  }

  lemma {:induction false} LexIrreflexive<T(!new)>(a: seq<T>, lt: (T, T) -> bool)
    requires StrictTotalOrder(lt)
    ensures !LexLess(a, a, lt)
  {
    if |a| > 0 {
      LexIrreflexive(a[1..], lt);
    }
  }

  lemma {:induction false} LexTransitive<T(!new)>(a: seq<T>, b: seq<T>, c: seq<T>, lt: (T, T) -> bool)
    requires StrictTotalOrder(lt)
    requires LexLess(a, b, lt) && LexLess(b, c, lt)
    ensures LexLess(a, c, lt)
  {
    if |a| > 0 && |b| > 0 && |c| > 0 {
      if a[0] == b[0] && b[0] == c[0] {
        LexTransitive(a[1..], b[1..], c[1..], lt);
      }
    }
  }

  lemma {:induction false} LexTotal<T(!new)>(a: seq<T>, b: seq<T>, lt: (T, T) -> bool)
    requires StrictTotalOrder(lt)
    requires a != b
    ensures LexLess(a, b, lt) || LexLess(b, a, lt)
  {
    if |a| > 0 && |b| > 0 && a[0] == b[0] {
      assert a == [a[0]] + a[1..] && b == [b[0]] + b[1..];
      LexTotal(a[1..], b[1..], lt);
    }
  }

  lemma LexAsymmetric<T(!new)>(a: seq<T>, b: seq<T>, lt: (T, T) -> bool)
    requires StrictTotalOrder(lt)
    requires LexLess(a, b, lt)
    ensures !LexLess(b, a, lt)
  {
    if LexLess(b, a, lt) {
      LexTransitive(a, b, a, lt);
      LexIrreflexive(a, lt);
    }
  }

  /** A common prefix does not change the order of two sequences. */
  lemma {:induction false} LexCommonPrefix<T(!new)>(p: seq<T>, a: seq<T>, b: seq<T>, lt: (T, T) -> bool)
    ensures LexLess(p + a, p + b, lt) <==> LexLess(a, b, lt)
  {
    if |p| > 0 {
      assert (p + a)[1..] == p[1..] + a;
      assert (p + b)[1..] == p[1..] + b;
      LexCommonPrefix(p[1..], a, b, lt);
    } else {
      assert p + a == a && p + b == b;
    }
  }

  /** Sequences that differ at an index before either ends are ordered by
      the elements there, whatever follows. */
  lemma {:induction false} LexFirstDifference<T(!new)>(a: seq<T>, b: seq<T>, j: nat, lt: (T, T) -> bool)
    requires j < |a| && j < |b|
    requires a[..j] == b[..j] && a[j] != b[j]
    ensures LexLess(a, b, lt) <==> lt(a[j], b[j])
  {
    if j > 0 {
      assert a[0] == a[..j][0] && b[0] == b[..j][0];
      assert a[1..][..j - 1] == a[..j][1..];
      assert b[1..][..j - 1] == b[..j][1..];
      LexFirstDifference(a[1..], b[1..], j - 1, lt);
    }
  }

  /** A proper prefix comes first. */
  lemma {:induction false} LexPrefixFirst<T(!new)>(a: seq<T>, b: seq<T>, lt: (T, T) -> bool)
    requires |a| < |b| && b[..|a|] == a
    ensures LexLess(a, b, lt)
  {
    if |a| > 0 {
      assert a[0] == b[..|a|][0];
      assert b[1..][..|a| - 1] == b[..|a|][1..];
      LexPrefixFirst(a[1..], b[1..], lt);
    }
  }

  // ---------------------------------------------------------------------
  // Ascending enumeration of a finite set: the iteration order of std::set,
  // of std::map keys and of a LevelDB iterator.

  ghost predicate StrictlyAscending<T>(s: seq<seq<T>>, lt: (T, T) -> bool) {
    forall i, j :: 0 <= i < j < |s| ==> LexLess(s[i], s[j], lt)
  }

  lemma {:induction false} LeastExists<T(!new)>(s: set<seq<T>>, lt: (T, T) -> bool)
    requires StrictTotalOrder(lt)
    requires s != {}
    ensures exists m :: m in s && forall k :: k in s && k != m ==> LexLess(m, k, lt)
    decreases |s|
  {
    var x :| x in s;
    if s != {x} {
      var rest := s - {x};
      LeastExists(rest, lt);
      var m :| m in rest && forall k :: k in rest && k != m ==> LexLess(m, k, lt);
      if LexLess(x, m, lt) {
        forall k | k in s && k != x
          ensures LexLess(x, k, lt)
        {
          if k != m {
            LexTransitive(x, m, k, lt);
          }
        }
      } else {
        LexTotal(x, m, lt);
        assert forall k :: k in s && k != m ==> LexLess(m, k, lt);
      }
    }
  }

  ghost function Least<T(!new)>(s: set<seq<T>>, lt: (T, T) -> bool): (m: seq<T>)
    requires StrictTotalOrder(lt)
    requires s != {}
    ensures m in s
    ensures forall k :: k in s && k != m ==> LexLess(m, k, lt)
  {
    LeastExists(s, lt);
    var m :| m in s && forall k :: k in s && k != m ==> LexLess(m, k, lt);
    m
  }

  /** The elements of `s` in ascending order, each exactly once. */
  ghost function Enumerate<T(!new)>(s: set<seq<T>>, lt: (T, T) -> bool): (r: seq<seq<T>>)
    requires StrictTotalOrder(lt)
    ensures |r| == |s|
    ensures forall x :: x in r <==> x in s
    ensures StrictlyAscending(r, lt)
    decreases |s|
  {
    if s == {} then []
    else
      var m := Least(s, lt);
      var rest := Enumerate(s - {m}, lt);
      forall j | 0 <= j < |rest|
        ensures LexLess(m, rest[j], lt)
      {
        assert rest[j] in s - {m};
      }
      [m] + rest
  }

  lemma AscendingIsDistinct<T(!new)>(s: seq<seq<T>>, lt: (T, T) -> bool)
    requires StrictTotalOrder(lt)
    requires StrictlyAscending(s, lt)
    ensures forall i, j :: 0 <= i < j < |s| ==> s[i] != s[j]
  {
    forall i, j | 0 <= i < j < |s|
      ensures s[i] != s[j]
    {
      if s[i] == s[j] {
        LexIrreflexive(s[i], lt);
      }
    }
  }

  /** std::set<std::string> iteration order. */
  ghost function SortedStrings(s: set<string>): (r: seq<string>)
    ensures |r| == |s|
    ensures forall x :: x in r <==> x in s
    ensures forall i, j :: 0 <= i < j < |r| ==> StringLess(r[i], r[j])
    ensures forall i, j :: 0 <= i < j < |r| ==> r[i] != r[j]
  {
    CharLessIsStrictTotal();
    AscendingIsDistinct(Enumerate(s, CharLess), CharLess);
    var r :| && |r| == |s| && (forall x :: x in r <==> x in s)
             && (forall i, j :: 0 <= i < j < |r| ==> StringLess(r[i], r[j]))
             && (forall i, j :: 0 <= i < j < |r| ==> r[i] != r[j]);
    r
  }
}
