/**
 * Orders used by the list's two sorts. A comparison follows the .NET convention
 * of IComparer<T>.Compare and IComparable<T>.CompareTo: a result at most zero
 * means "the first argument may come before the second". The sort itself is
 * specified only as "ordered by the comparison, and a permutation"; the body
 * below is one sort that meets that specification.
 */
module Ordering {

  type Comparison<!T> = (T, T) -> int

  /** Total (any two elements are comparable) and transitive: what a sort needs of its comparer. */
  ghost predicate TotalPreorder<T(!new)>(cmp: Comparison<T>) {
    && (forall x, y :: cmp(x, y) <= 0 || cmp(y, x) <= 0)
    && (forall x, y, z :: cmp(x, y) <= 0 && cmp(y, z) <= 0 ==> cmp(x, z) <= 0)
  }

  /** Every element may come before every later one. */
  predicate SortedBy<T>(cmp: Comparison<T>, s: seq<T>) {
    forall i, j :: 0 <= i < j < |s| ==> cmp(s[i], s[j]) <= 0
  }

  /** `r` is `s` reordered so that it is sorted by `cmp`: what List<T>.Sort promises. */
  predicate IsSortedPermutation<T(==)>(cmp: Comparison<T>, r: seq<T>, s: seq<T>) {
    SortedBy(cmp, r) && multiset(r) == multiset(s)
  }

  /** `x` placed into `s` before the first element it may precede. */
  function Insert<T>(cmp: Comparison<T>, x: T, s: seq<T>): (r: seq<T>)
    ensures multiset(r) == multiset(s) + multiset{x}
  {
    if s == [] || cmp(x, s[0]) <= 0 then [x] + s
    else
      assert s == [s[0]] + s[1..];
      [s[0]] + Insert(cmp, x, s[1..])
  }

  /** Every element of `t` may come after `y`. */
  predicate Precedes<T>(cmp: Comparison<T>, y: T, t: seq<T>) {
    forall j :: 0 <= j < |t| ==> cmp(y, t[j]) <= 0
  }

  lemma Transitive<T(!new)>(cmp: Comparison<T>, x: T, y: T, z: T)
    requires TotalPreorder(cmp) && cmp(x, y) <= 0 && cmp(y, z) <= 0
    ensures cmp(x, z) <= 0
  {
  }

  /** An element that may precede a sorted sequence, put in front of it, leaves it sorted. */
  lemma ConsSorted<T>(cmp: Comparison<T>, y: T, t: seq<T>)
    requires SortedBy(cmp, t) && Precedes(cmp, y, t)
    ensures SortedBy(cmp, [y] + t)
  {
    var r := [y] + t;
    forall i, j | 0 <= i < j < |r| ensures cmp(r[i], r[j]) <= 0 {
      assert r[j] == t[j - 1];
      if i > 0 {
        assert r[i] == t[i - 1];
      }
    }
  }

  /** What may precede every element of `s` and `x` too, may precede `Insert(cmp, x, s)`. */
  lemma PrecedesInsert<T>(cmp: Comparison<T>, y: T, x: T, s: seq<T>)
    requires Precedes(cmp, y, s) && cmp(y, x) <= 0
    ensures Precedes(cmp, y, Insert(cmp, x, s))
  {
    var t := Insert(cmp, x, s);
    forall j | 0 <= j < |t| ensures cmp(y, t[j]) <= 0 {
      assert t[j] in multiset(t);
      if t[j] != x {
        assert t[j] in multiset(s);
        var k :| 0 <= k < |s| && s[k] == t[j];
      }
    }
  }

  /** Inserting into a sorted sequence keeps it sorted. */
  lemma {:induction false} InsertSorted<T(!new)>(cmp: Comparison<T>, x: T, s: seq<T>)
    requires TotalPreorder(cmp) && SortedBy(cmp, s)
    ensures SortedBy(cmp, Insert(cmp, x, s))
  {
    if s == [] {
    } else if cmp(x, s[0]) <= 0 {
      forall j | 0 <= j < |s| ensures cmp(x, s[j]) <= 0 {
        if j > 0 {
          Transitive(cmp, x, s[0], s[j]);
        }
      }
      ConsSorted(cmp, x, s);
    } else {
      assert SortedBy(cmp, s[1..]);
      InsertSorted(cmp, x, s[1..]);
      assert Precedes(cmp, s[0], s[1..]) by {
        forall j | 0 <= j < |s[1..]| ensures cmp(s[0], s[1..][j]) <= 0 {
          assert s[1..][j] == s[j + 1];
        }
      }
      PrecedesInsert(cmp, s[0], x, s[1..]);
      ConsSorted(cmp, s[0], Insert(cmp, x, s[1..]));
    }
  }

  /** Insertion sort: a permutation of `s`, and sorted whenever `cmp` is a total preorder. */
  function InsertionSort<T(!new)>(cmp: Comparison<T>, s: seq<T>): (r: seq<T>)
    ensures multiset(r) == multiset(s)
    ensures TotalPreorder(cmp) ==> SortedBy(cmp, r)
  {
    if s == [] then []
    else
      var t := InsertionSort(cmp, s[1..]);
      assert s == [s[0]] + s[1..];
      assert TotalPreorder(cmp) ==> SortedBy(cmp, Insert(cmp, s[0], t)) by {
        if TotalPreorder(cmp) {
          InsertSorted(cmp, s[0], t);
        }
      }
      Insert(cmp, s[0], t)
  }

  /** A permutation of a sequence of length one is that sequence. */
  lemma SingletonPermutation<T>(r: seq<T>, x: T)
    requires multiset(r) == multiset{x}
    ensures r == [x]
  {
    assert |r| == |multiset(r)| == 1;
    assert r[0] in multiset(r);
  }

  /** A permutation of the empty sequence is empty. */
  lemma EmptyPermutation<T>(r: seq<T>)
    requires multiset(r) == multiset{}
    ensures r == []
  {
    assert |r| == |multiset(r)|;
  }
}
