/**
 * Sequence helpers shared by the store's queries and the renderer:
 * `Array.prototype.filter`, an insertion sort standing for `ORDER BY`, and
 * the facts about them the rest of the model relies on.
 */
module Ordering {

  /** `a` is `b` with some elements dropped and the rest kept in order. */
  ghost predicate IsSubsequence<T>(a: seq<T>, b: seq<T>)
    decreases |b|
  {
    a == [] || (b != [] && ((a[0] == b[0] && IsSubsequence(a[1..], b[1..])) || IsSubsequence(a, b[1..])))
  }

  /** No element occurs twice. */
  ghost predicate Distinct<T>(s: seq<T>) {
    forall i, j | 0 <= i < j < |s| :: s[i] != s[j]
  }

  /** Every element is related by `le` to every later one. */
  ghost predicate Ordered<T>(s: seq<T>, le: (T, T) -> bool) {
    forall i, j | 0 <= i < j < |s| :: le(s[i], s[j])
  }

  /** Every element is related by `le` to the next one. */
  ghost predicate Chained<T>(s: seq<T>, le: (T, T) -> bool) {
    forall i | 0 < i < |s| :: le(s[i - 1], s[i])
  }

  ghost predicate Total<T(!new)>(le: (T, T) -> bool) {
    forall a, b :: le(a, b) || le(b, a)
  }

  ghost predicate Transitive<T(!new)>(le: (T, T) -> bool) {
    forall a, b, c :: le(a, b) && le(b, c) ==> le(a, c)
  }

  /** `s.filter(p)`: the elements satisfying `p`, in their original order. */
  function Filter<T>(s: seq<T>, p: T -> bool): (r: seq<T>)
    ensures |r| <= |s|
    ensures forall x | x in r :: x in s && p(x)
    ensures forall x | x in s && p(x) :: x in r
    ensures multiset(r) <= multiset(s)
    ensures IsSubsequence(r, s)
  {
    if s == [] then []
    else
      var rest := Filter(s[1..], p);
      assert s == [s[0]] + s[1..];
      if p(s[0]) then [s[0]] + rest else rest
  }

  /** Two filters in a row keep what one filter with both conditions keeps. */
  lemma {:induction false} FilterTwo<T>(s: seq<T>, p: T -> bool, q: T -> bool, both: T -> bool)
    requires forall x | x in s :: both(x) == (p(x) && q(x))
    ensures Filter(Filter(s, p), q) == Filter(s, both)
  {
    if s != [] {
      var t := s[1..];
      assert forall x | x in t :: x in s;
      FilterTwo(t, p, q, both);
      var ft := Filter(t, p);
      if p(s[0]) {
        assert Filter(s, p) == [s[0]] + ft;
        assert ([s[0]] + ft)[1..] == ft;
      }
    }
  }

  /** A filter every element passes keeps the sequence. */
  lemma {:induction false} FilterAll<T>(s: seq<T>, p: T -> bool)
    requires forall x | x in s :: p(x)
    ensures Filter(s, p) == s
  {
    if s != [] {
      assert forall x | x in s[1..] :: x in s;
      FilterAll(s[1..], p);
      assert s == [s[0]] + s[1..];
    }
  }

  /** A filter no element passes keeps nothing. */
  lemma {:induction false} FilterNone<T>(s: seq<T>, p: T -> bool)
    requires forall x | x in s :: !p(x)
    ensures Filter(s, p) == []
  {
    if s != [] {
      assert forall x | x in s[1..] :: x in s;
      FilterNone(s[1..], p);
    }
  }

  /** Conditions that agree on the elements filter alike. */
  lemma {:induction false} FilterSame<T>(s: seq<T>, p: T -> bool, q: T -> bool)
    requires forall x | x in s :: p(x) == q(x)
    ensures Filter(s, p) == Filter(s, q)
  {
    if s != [] {
      assert forall x | x in s[1..] :: x in s;
      FilterSame(s[1..], p, q);
    }
  }

  /** Filtering keeps an ordering between the survivors. */
  lemma {:induction false} FilterOrdered<T>(s: seq<T>, p: T -> bool, le: (T, T) -> bool)
    requires Ordered(s, le)
    ensures Ordered(Filter(s, p), le)
  {
    if s != [] {
      assert Ordered(s[1..], le);
      FilterOrdered(s[1..], p, le);
      var rest := Filter(s[1..], p);
      forall x | x in rest ensures le(s[0], x) {
        var k :| 0 <= k < |s[1..]| && s[1..][k] == x;
        assert s[k + 1] == x;
      }
    }
  }

  /** Filtering cannot create duplicates. */
  lemma {:induction false} FilterDistinct<T>(s: seq<T>, p: T -> bool)
    requires Distinct(s)
    ensures Distinct(Filter(s, p))
  {
    if s != [] {
      assert Distinct(s[1..]);
      FilterDistinct(s[1..], p);
      assert s[0] !in s[1..] by {
        forall k | 0 <= k < |s[1..]| ensures s[1..][k] != s[0] {
          assert s[k + 1] != s[0];
        }
      }
    }
  }

  /** A sequence has no duplicates exactly when each of its elements occurs once. */
  lemma {:induction false} DistinctMultiplicity<T>(s: seq<T>)
    ensures Distinct(s) <==> forall x | x in s :: multiset(s)[x] == 1
  {
    if s != [] {
      DistinctMultiplicity(s[1..]);
      assert s == [s[0]] + s[1..];
      if Distinct(s) {
        assert Distinct(s[1..]);
        assert s[0] !in s[1..] by {
          forall k | 0 <= k < |s[1..]| ensures s[1..][k] != s[0] {
            assert s[k + 1] != s[0];
          }
        }
      } else {
        var i, j :| 0 <= i < j < |s| && s[i] == s[j];
        if i == 0 {
          assert s[j] in s[1..];
          assert multiset(s)[s[0]] >= 2;
        } else {
          assert !Distinct(s[1..]) by {
            assert s[1..][i - 1] == s[1..][j - 1];
          }
          var x :| x in s[1..] && multiset(s[1..])[x] != 1;
          assert multiset(s)[x] == multiset([s[0]])[x] + multiset(s[1..])[x];
          assert x in multiset(s[1..]);
          assert x in s && multiset(s)[x] != 1;
        }
      }
    }
  }

  /** Rearranging a sequence keeps it free of duplicates. */
  lemma DistinctPermutation<T>(a: seq<T>, b: seq<T>)
    requires Distinct(a) && multiset(a) == multiset(b)
    ensures Distinct(b)
  {
    DistinctMultiplicity(a);
    DistinctMultiplicity(b);
    forall x | x in b ensures multiset(b)[x] == 1 {
      assert x in multiset(b);
    }
  }

  /** A chain of a transitive relation relates every pair in order. */
  lemma {:induction false} ChainedOrdered<T(!new)>(s: seq<T>, le: (T, T) -> bool)
    requires Transitive(le) && Chained(s, le)
    ensures Ordered(s, le)
  {
    if |s| > 1 {
      assert Chained(s[1..], le);
      ChainedOrdered(s[1..], le);
      forall j | 0 < j < |s| ensures le(s[0], s[j]) {
        if j > 1 {
          assert le(s[1], s[j]) by { assert s[1..][0] == s[1] && s[1..][j - 1] == s[j]; }
        }
      }
      forall i, j | 0 <= i < j < |s| ensures le(s[i], s[j]) {
        if i > 0 { assert s[1..][i - 1] == s[i] && s[1..][j - 1] == s[j]; }
      }
    }
  }

  /** `x` inserted into a chained `s` before the first element it may precede. */
  function InsertBy<T(!new)>(x: T, s: seq<T>, le: (T, T) -> bool): (r: seq<T>)
    requires Total(le) && Chained(s, le)
    ensures Chained(r, le)
    ensures multiset(r) == multiset(s) + multiset{x}
    ensures r[0] == x || (s != [] && r[0] == s[0])
  {
    if s == [] || le(x, s[0]) then [x] + s
    else
      assert Chained(s[1..], le);
      var rest := InsertBy(x, s[1..], le);
      assert s == [s[0]] + s[1..];
      [s[0]] + rest
  }

  /** An insertion sort: a rearrangement of `s` in which each element is related to the next by `le`. */
  function SortBy<T(!new)>(s: seq<T>, le: (T, T) -> bool): (r: seq<T>)
    requires Total(le)
    ensures Chained(r, le)
    ensures multiset(r) == multiset(s)
  {
    if s == [] then []
    else
      assert s == [s[0]] + s[1..];
      InsertBy(s[0], SortBy(s[1..], le), le)
  }

  /**
   * Sorting by a total, transitive relation orders every pair, keeps exactly
   * the elements, and keeps a duplicate-free sequence duplicate-free.
   */
  lemma SortByFacts<T(!new)>(s: seq<T>, le: (T, T) -> bool)
    requires Total(le) && Transitive(le)
    ensures Ordered(SortBy(s, le), le)
    ensures forall x | x in SortBy(s, le) :: x in s
    ensures forall x | x in s :: x in SortBy(s, le)
    ensures Distinct(s) ==> Distinct(SortBy(s, le))
  {
    var r := SortBy(s, le);
    ChainedOrdered(r, le);
    if Distinct(s) {
      DistinctPermutation(s, r);
    }
    forall x | x in r ensures x in s { assert x in multiset(r); }
    forall x | x in s ensures x in r { assert x in multiset(s); }
  }
}
