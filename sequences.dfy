/**
 * Sequence operations that the list's removals and its duplicate policy are
 * stated with: duplicate-freedom, order-preserving subsequences, the index of
 * the first occurrence, deleting one position, and splitting a sequence by a
 * predicate.
 */
module Sequences {

  /** No two positions of `s` hold equal elements. */
  predicate NoDuplicates<T(==)>(s: seq<T>) {
    forall i, j :: 0 <= i < j < |s| ==> s[i] != s[j]
  }

  /** `a` is `b` with some elements left out and the rest kept in order. */
  predicate IsSubsequence<T(==)>(a: seq<T>, b: seq<T>)
    decreases |b|
  {
    if a == [] then true
    else if b == [] then false
    else (a[0] == b[0] && IsSubsequence(a[1..], b[1..])) || IsSubsequence(a, b[1..])
  }

  /**
   * The position of the first element equal to `x`, or -1 when there is none
   * (the convention of List<T>.IndexOf).
   */
  function IndexOf<T(==)>(s: seq<T>, x: T): (r: int)
    ensures -1 <= r < |s|
    ensures r == -1 <==> x !in s
    ensures 0 <= r ==> s[r] == x && x !in s[..r]
  {
    if s == [] then -1
    else if s[0] == x then 0
    else
      var k := IndexOf(s[1..], x);
      if k == -1 then -1
      else
        assert s[..k + 1] == [s[0]] + s[1..][..k];
        k + 1
  }

  /** Past a different head, the first occurrence is one further on than in the tail. */
  lemma IndexOfCons<T>(y: T, s: seq<T>, x: T)
    requires y != x
    ensures IndexOf([y] + s, x) == if x in s then IndexOf(s, x) + 1 else -1
  {
    assert ([y] + s)[1..] == s;
  }

  /** `s` without its element at position `i`: the elements before it stay put, those after it move down one. */
  function RemoveAt<T>(s: seq<T>, i: nat): (r: seq<T>)
    requires i < |s|
    ensures |r| == |s| - 1
    ensures forall k :: 0 <= k < i ==> r[k] == s[k]
    ensures forall k :: i <= k < |r| ==> r[k] == s[k + 1]
  {
    seq(|s| - 1, k requires 0 <= k < |s| - 1 => if k < i then s[k] else s[k + 1])
  }

  /** The elements of `s` that satisfy `p`, in their order in `s`. */
  function Filter<T>(s: seq<T>, p: T -> bool): (r: seq<T>)
    ensures |r| <= |s|
    ensures forall i :: 0 <= i < |r| ==> p(r[i])
  {
    if s == [] then []
    else (if p(s[0]) then [s[0]] else []) + Filter(s[1..], p)
  }

  /** The elements of `s` that do not satisfy `p`, in their order in `s`. */
  function Exclude<T>(s: seq<T>, p: T -> bool): (r: seq<T>)
    ensures |r| <= |s|
    ensures forall i :: 0 <= i < |r| ==> !p(r[i])
  {
    if s == [] then []
    else (if p(s[0]) then [] else [s[0]]) + Exclude(s[1..], p)
  }

  /** Membership in `xs`, as a predicate value (C#'s method group `collection.Contains`). */
  function ContainedIn<T(==,!new)>(xs: seq<T>): (r: T -> bool)
    ensures forall x :: r(x) <==> x in xs
  {
    x => x in xs
  }

  lemma NoDuplicatesCons<T>(x: T, s: seq<T>)
    ensures NoDuplicates([x] + s) <==> x !in s && NoDuplicates(s)
  {
    var t := [x] + s;
    if x !in s && NoDuplicates(s) {
      forall i, j | 0 <= i < j < |t| ensures t[i] != t[j] {
        if i == 0 {
          assert t[j] == s[j - 1];
        } else {
          assert t[i] == s[i - 1] && t[j] == s[j - 1];
        }
      }
    }
    if NoDuplicates(t) {
      forall i, j | 0 <= i < j < |s| ensures s[i] != s[j] {
        assert s[i] == t[i + 1] && s[j] == t[j + 1];
      }
      forall k | 0 <= k < |s| ensures s[k] != x {
        assert t[0] == x && t[k + 1] == s[k];
      }
    }
  }

  lemma NoDuplicatesSnoc<T>(s: seq<T>, x: T)
    ensures NoDuplicates(s + [x]) <==> x !in s && NoDuplicates(s)
  {
    var t := s + [x];
    if x !in s && NoDuplicates(s) {
      forall i, j | 0 <= i < j < |t| ensures t[i] != t[j] {
        assert t[i] == s[i];
        if j < |s| {
          assert t[j] == s[j];
        }
      }
    }
    if NoDuplicates(t) {
      forall i, j | 0 <= i < j < |s| ensures s[i] != s[j] {
        assert s[i] == t[i] && s[j] == t[j];
      }
      forall k | 0 <= k < |s| ensures s[k] != x {
        assert t[|s|] == x && t[k] == s[k];
      }
    }
  }

  /** Every element of a subsequence occurs in the sequence it was taken from. */
  lemma {:induction false} SubsequenceMembers<T>(a: seq<T>, b: seq<T>)
    requires IsSubsequence(a, b)
    ensures forall x :: x in a ==> x in b
    decreases |b|
  {
    if a != [] {
      assert b == [b[0]] + b[1..];
      if a[0] == b[0] && IsSubsequence(a[1..], b[1..]) {
        SubsequenceMembers(a[1..], b[1..]);
        assert a == [a[0]] + a[1..];
      } else {
        SubsequenceMembers(a, b[1..]);
      }
    }
  }

  /** Leaving elements out cannot create a duplicate. */
  lemma {:induction false} SubsequenceNoDuplicates<T>(a: seq<T>, b: seq<T>)
    requires IsSubsequence(a, b) && NoDuplicates(b)
    ensures NoDuplicates(a)
    decreases |b|
  {
    if a != [] {
      NoDuplicatesCons(b[0], b[1..]);
      assert b == [b[0]] + b[1..];
      if a[0] == b[0] && IsSubsequence(a[1..], b[1..]) {
        SubsequenceNoDuplicates(a[1..], b[1..]);
        SubsequenceMembers(a[1..], b[1..]);
        NoDuplicatesCons(a[0], a[1..]);
        assert a == [a[0]] + a[1..];
      } else {
        SubsequenceNoDuplicates(a, b[1..]);
      }
    }
  }

  /** Prepending the same element to both sides keeps the subsequence relation. */
  lemma SubsequenceCons<T>(x: T, a: seq<T>, b: seq<T>)
    requires IsSubsequence(a, b)
    ensures IsSubsequence([x] + a, [x] + b)
  {
    assert ([x] + a)[1..] == a && ([x] + b)[1..] == b;
  }

  /** Prepending an element to the larger side keeps the subsequence relation. */
  lemma SubsequenceSkip<T>(x: T, a: seq<T>, b: seq<T>)
    requires IsSubsequence(a, b)
    ensures IsSubsequence(a, [x] + b)
  {
    assert ([x] + b)[1..] == b;
  }

  /** Deleting one position keeps the other elements in order. */
  lemma {:induction false} RemoveAtIsSubsequence<T>(s: seq<T>, i: nat)
    requires i < |s|
    ensures IsSubsequence(RemoveAt(s, i), s)
  {
    if i == 0 {
      assert RemoveAt(s, 0) == s[1..];
      SubsequenceReflexive(s[1..]);
      SubsequenceSkip(s[0], s[1..], s[1..]);
      assert [s[0]] + s[1..] == s;
    } else {
      RemoveAtIsSubsequence(s[1..], i - 1);
      assert RemoveAt(s, i) == [s[0]] + RemoveAt(s[1..], i - 1);
      SubsequenceCons(s[0], RemoveAt(s[1..], i - 1), s[1..]);
      assert [s[0]] + s[1..] == s;
    }
  }

  lemma {:induction false} SubsequenceReflexive<T>(s: seq<T>)
    ensures IsSubsequence(s, s)
    decreases |s|
  {
    if s != [] {
      SubsequenceReflexive(s[1..]);
    }
  }

  /** Deleting position `i` takes exactly one copy of `s[i]` out of the multiset. */
  lemma RemoveAtMultiset<T>(s: seq<T>, i: nat)
    requires i < |s|
    ensures multiset(RemoveAt(s, i)) == multiset(s) - multiset{s[i]}
  {
    var a, b := s[..i], s[i + 1..];
    assert RemoveAt(s, i) == a + b by {
      forall k | 0 <= k < |a + b| ensures RemoveAt(s, i)[k] == (a + b)[k] {
      }
    }
    assert s == a + [s[i]] + b;
  }

  /** Deleting the first occurrence of `x` takes exactly one `x` out of the multiset. */
  lemma RemoveFirstOccurrence<T>(s: seq<T>, x: T)
    requires x in s
    ensures multiset(RemoveAt(s, IndexOf(s, x))) == multiset(s) - multiset{x}
  {
    RemoveAtMultiset(s, IndexOf(s, x));
  }

  /** `Filter` keeps exactly the elements that satisfy `p`. */
  lemma {:induction false} FilterMembers<T>(s: seq<T>, p: T -> bool)
    ensures forall x :: x in Filter(s, p) <==> x in s && p(x)
  {
    if s != [] {
      FilterMembers(s[1..], p);
      assert s == [s[0]] + s[1..];
    }
  }

  /** `Exclude` keeps exactly the elements that do not satisfy `p`. */
  lemma {:induction false} ExcludeMembers<T>(s: seq<T>, p: T -> bool)
    ensures forall x :: x in Exclude(s, p) <==> x in s && !p(x)
  {
    if s != [] {
      ExcludeMembers(s[1..], p);
      assert s == [s[0]] + s[1..];
    }
  }

  /** Together, the matches and the rest are the original elements, none lost and none added. */
  lemma {:induction false} FilterExcludePartition<T>(s: seq<T>, p: T -> bool)
    ensures multiset(Filter(s, p)) + multiset(Exclude(s, p)) == multiset(s)
    ensures |Filter(s, p)| + |Exclude(s, p)| == |s|
  {
    if s != [] {
      FilterExcludePartition(s[1..], p);
      assert s == [s[0]] + s[1..];
    }
  }

  /** The matches are in their original relative order. */
  lemma {:induction false} FilterIsSubsequence<T>(s: seq<T>, p: T -> bool)
    ensures IsSubsequence(Filter(s, p), s)
  {
    if s != [] {
      FilterIsSubsequence(s[1..], p);
      assert [s[0]] + s[1..] == s;
      if p(s[0]) {
        assert Filter(s, p) == [s[0]] + Filter(s[1..], p);
        SubsequenceCons(s[0], Filter(s[1..], p), s[1..]);
      } else {
        assert Filter(s, p) == Filter(s[1..], p);
        SubsequenceSkip(s[0], Filter(s[1..], p), s[1..]);
      }
    }
  }

  /** The elements that are kept are in their original relative order. */
  lemma {:induction false} ExcludeIsSubsequence<T>(s: seq<T>, p: T -> bool)
    ensures IsSubsequence(Exclude(s, p), s)
  {
    if s != [] {
      ExcludeIsSubsequence(s[1..], p);
      assert [s[0]] + s[1..] == s;
      if p(s[0]) {
        assert Exclude(s, p) == Exclude(s[1..], p);
        SubsequenceSkip(s[0], Exclude(s[1..], p), s[1..]);
      } else {
        assert Exclude(s, p) == [s[0]] + Exclude(s[1..], p);
        SubsequenceCons(s[0], Exclude(s[1..], p), s[1..]);
      }
    }
  }

  /** Multiplicities: a duplicate-free sequence holds each value at most once. */
  lemma {:induction false} NoDuplicatesMultiplicity<T>(s: seq<T>, x: T)
    requires NoDuplicates(s)
    ensures multiset(s)[x] <= 1
  {
    if s != [] {
      NoDuplicatesCons(s[0], s[1..]);
      assert s == [s[0]] + s[1..];
      NoDuplicatesMultiplicity(s[1..], x);
    }
  }

  /** Two equal positions make the value occur at least twice. */
  lemma RepeatedMultiplicity<T>(s: seq<T>, i: nat, j: nat)
    requires i < j < |s| && s[i] == s[j]
    ensures multiset(s)[s[i]] >= 2
  {
    assert s == s[..j] + s[j..];
    assert s[i] in s[..j];
    assert s[j..] == [s[j]] + s[j + 1..];
  }

  /** Reordering cannot create or remove a duplicate. */
  lemma PermutationNoDuplicates<T>(a: seq<T>, b: seq<T>)
    requires multiset(a) == multiset(b) && NoDuplicates(a)
    ensures NoDuplicates(b)
  {
    forall i, j | 0 <= i < j < |b| ensures b[i] != b[j] {
      if b[i] == b[j] {
        RepeatedMultiplicity(b, i, j);
        NoDuplicatesMultiplicity(a, b[i]);
        assert false;
      }
    }
  }
}
