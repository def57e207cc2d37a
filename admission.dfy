/**
 * The admission policy of the list: the `AllowDuplicates` and `AllowNull`
 * flags decide whether an offered element is taken in, and `Accepted` is what
 * a run of offers takes in, one element at a time, each offer seeing the
 * elements accepted before it.
 */
module Admission {
  import opened Options
  import opened Sequences

  /**
   * An item is turned away when duplicates are not allowed and the list already
   * holds an equal element, or when nulls are not allowed and the item is null.
   */
  function Admissible<T(==)>(allowDuplicates: bool, allowNull: bool, s: seq<Option<T>>, x: Option<T>): (r: bool)
    ensures allowDuplicates && allowNull ==> r
    ensures x.Some? && x !in s ==> r
    ensures r && !allowDuplicates ==> x !in s
    ensures r && !allowNull ==> x.Some?
  {
    !((!allowDuplicates && x in s) || (!allowNull && x.None?))
  }

  /** The items of `xs` that are accepted, in offered order, when offered one by one to a list holding `s`. */
  function Accepted<T(==)>(allowDuplicates: bool, allowNull: bool, s: seq<Option<T>>, xs: seq<Option<T>>): (r: seq<Option<T>>)
    ensures !allowNull ==> None !in r
    decreases |xs|
  {
    if xs == [] then []
    else if Admissible(allowDuplicates, allowNull, s, xs[0]) then
      [xs[0]] + Accepted(allowDuplicates, allowNull, s + [xs[0]], xs[1..])
    else
      Accepted(allowDuplicates, allowNull, s, xs[1..])
  }

  /** Offering one more item at the end: it is judged against everything accepted before it. */
  lemma {:induction false} AcceptedSnoc<T>(allowDuplicates: bool, allowNull: bool, s: seq<Option<T>>, xs: seq<Option<T>>, x: Option<T>)
    ensures Accepted(allowDuplicates, allowNull, s, xs + [x])
         == Accepted(allowDuplicates, allowNull, s, xs)
          + (if Admissible(allowDuplicates, allowNull, s + Accepted(allowDuplicates, allowNull, s, xs), x) then [x] else [])
    decreases |xs|
  {
    if xs == [] {
      assert xs + [x] == [x] && [x][1..] == [] && s + [] == s;
    } else {
      var y := xs[0];
      assert (xs + [x])[0] == y && (xs + [x])[1..] == xs[1..] + [x];
      if Admissible(allowDuplicates, allowNull, s, y) {
        AcceptedSnoc(allowDuplicates, allowNull, s + [y], xs[1..], x);
        assert s + Accepted(allowDuplicates, allowNull, s, xs)
            == (s + [y]) + Accepted(allowDuplicates, allowNull, s + [y], xs[1..]);
      } else {
        AcceptedSnoc(allowDuplicates, allowNull, s, xs[1..], x);
      }
    }
  }

  /** The state the policy protects: no two equal elements, and no null, where these are forbidden. */
  predicate Conforms<T(==)>(allowDuplicates: bool, allowNull: bool, s: seq<Option<T>>) {
    && (!allowDuplicates ==> NoDuplicates(s))
    && (!allowNull ==> None !in s)
  }

  /**
   * Appending an admissible item keeps each half of the policy on its own: a
   * duplicate-free list stays duplicate-free when duplicates are forbidden,
   * and a null-free list stays null-free when nulls are forbidden.
   */
  lemma AdmitKeepsPolicy<T>(allowDuplicates: bool, allowNull: bool, s: seq<Option<T>>, x: Option<T>)
    requires Admissible(allowDuplicates, allowNull, s, x)
    ensures !allowDuplicates && NoDuplicates(s) ==> NoDuplicates(s + [x])
    ensures !allowNull && None !in s ==> None !in s + [x]
  {
    NoDuplicatesSnoc(s, x);
  }

  /** Taking in a run of offers keeps each half of the policy on its own. */
  lemma {:induction false} AcceptedKeepsPolicy<T>(allowDuplicates: bool, allowNull: bool, s: seq<Option<T>>, xs: seq<Option<T>>)
    ensures !allowDuplicates && NoDuplicates(s) ==> NoDuplicates(s + Accepted(allowDuplicates, allowNull, s, xs))
    ensures !allowNull && None !in s ==> None !in s + Accepted(allowDuplicates, allowNull, s, xs)
    decreases |xs|
  {
    if xs != [] {
      var x := xs[0];
      if Admissible(allowDuplicates, allowNull, s, x) {
        AdmitKeepsPolicy(allowDuplicates, allowNull, s, x);
        AcceptedKeepsPolicy(allowDuplicates, allowNull, s + [x], xs[1..]);
        assert s + Accepted(allowDuplicates, allowNull, s, xs)
            == (s + [x]) + Accepted(allowDuplicates, allowNull, s + [x], xs[1..]);
      } else {
        AcceptedKeepsPolicy(allowDuplicates, allowNull, s, xs[1..]);
      }
    }
  }

  /** The accepted items are the offered ones with some left out, in offered order. */
  lemma {:induction false} AcceptedIsSubsequence<T>(allowDuplicates: bool, allowNull: bool, s: seq<Option<T>>, xs: seq<Option<T>>)
    ensures IsSubsequence(Accepted(allowDuplicates, allowNull, s, xs), xs)
    decreases |xs|
  {
    if xs != [] {
      var x := xs[0];
      assert [x] + xs[1..] == xs;
      if Admissible(allowDuplicates, allowNull, s, x) {
        AcceptedIsSubsequence(allowDuplicates, allowNull, s + [x], xs[1..]);
        SubsequenceCons(x, Accepted(allowDuplicates, allowNull, s + [x], xs[1..]), xs[1..]);
      } else {
        AcceptedIsSubsequence(allowDuplicates, allowNull, s, xs[1..]);
        SubsequenceSkip(x, Accepted(allowDuplicates, allowNull, s, xs[1..]), xs[1..]);
      }
    }
  }

  /** With both flags set, every offered item is accepted. */
  lemma {:induction false} AcceptedPermissive<T>(s: seq<Option<T>>, xs: seq<Option<T>>)
    ensures Accepted(true, true, s, xs) == xs
    decreases |xs|
  {
    if xs != [] {
      AcceptedPermissive(s + [xs[0]], xs[1..]);
      assert [xs[0]] + xs[1..] == xs;
    }
  }

  /**
   * After the offers, the list holds exactly what it held before plus every
   * offered item that the null policy lets through: an item turned away as a
   * duplicate is one the list already holds.
   */
  lemma {:induction false} AcceptedMembers<T>(allowDuplicates: bool, allowNull: bool, s: seq<Option<T>>, xs: seq<Option<T>>)
    ensures forall y :: y in s + Accepted(allowDuplicates, allowNull, s, xs)
                    <==> y in s || (y in xs && (allowNull || y.Some?))
    decreases |xs|
  {
    if xs != [] {
      var x := xs[0];
      assert xs == [x] + xs[1..];
      if Admissible(allowDuplicates, allowNull, s, x) {
        AcceptedMembers(allowDuplicates, allowNull, s + [x], xs[1..]);
        assert s + Accepted(allowDuplicates, allowNull, s, xs)
            == (s + [x]) + Accepted(allowDuplicates, allowNull, s + [x], xs[1..]);
      } else {
        AcceptedMembers(allowDuplicates, allowNull, s, xs[1..]);
      }
    }
  }

  /** With duplicates forbidden, no accepted item is one the list already held. */
  lemma {:induction false} AcceptedFresh<T>(allowNull: bool, s: seq<Option<T>>, xs: seq<Option<T>>)
    ensures forall y :: y in Accepted(false, allowNull, s, xs) ==> y !in s
    decreases |xs|
  {
    if xs != [] {
      var x := xs[0];
      if Admissible(false, allowNull, s, x) {
        AcceptedFresh(allowNull, s + [x], xs[1..]);
      } else {
        AcceptedFresh(allowNull, s, xs[1..]);
      }
    }
  }

  /** The elements of `r` come in the order of their first occurrences in `xs`. */
  predicate InFirstOccurrenceOrder<T(==)>(r: seq<T>, xs: seq<T>) {
    forall i, j :: 0 <= i < j < |r| ==> OccursFirstBefore(xs, r[i], r[j])
  }

  /** Both occur in `xs`, and `a` first occurs before `b` first does. */
  predicate OccursFirstBefore<T(==)>(xs: seq<T>, a: T, b: T) {
    0 <= IndexOf(xs, a) < IndexOf(xs, b)
  }

  /** The order survives putting one element in front of the offers that `r` avoids. */
  lemma {:induction false} FirstOccurrenceSkip<T>(x: T, r: seq<T>, xs: seq<T>)
    requires forall y :: y in r ==> y != x && y in xs
    requires InFirstOccurrenceOrder(r, xs)
    ensures InFirstOccurrenceOrder(r, [x] + xs)
  {
    var ys := [x] + xs;
    forall i, j | 0 <= i < j < |r| ensures OccursFirstBefore(ys, r[i], r[j]) {
      assert r[i] in r && r[j] in r;
      assert OccursFirstBefore(xs, r[i], r[j]);
      IndexOfCons(x, xs, r[i]);
      IndexOfCons(x, xs, r[j]);
    }
  }

  lemma HeadOccursFirst<T>(x: T, xs: seq<T>, b: T)
    requires b != x && b in xs
    ensures OccursFirstBefore([x] + xs, x, b)
  {
    IndexOfCons(x, xs, b);
  }

  /** ... and putting that same element in front of both. */
  lemma {:induction false} FirstOccurrenceCons<T>(x: T, r: seq<T>, xs: seq<T>)
    requires forall y :: y in r ==> y != x && y in xs
    requires InFirstOccurrenceOrder(r, xs)
    ensures InFirstOccurrenceOrder([x] + r, [x] + xs)
  {
    FirstOccurrenceSkip(x, r, xs);
    forall j | 0 < j < |r| + 1 ensures OccursFirstBefore([x] + xs, x, ([x] + r)[j]) {
      assert ([x] + r)[j] == r[j - 1] && r[j - 1] in r;
      HeadOccursFirst(x, xs, r[j - 1]);
    }
  }


  /**
   * With duplicates forbidden, the accepted items keep the order of their
   * first occurrences among the offers: a later repeat is the one dropped.
   */
  lemma {:induction false} AcceptedFirstOccurrenceOrder<T>(allowNull: bool, s: seq<Option<T>>, xs: seq<Option<T>>)
    ensures InFirstOccurrenceOrder(Accepted(false, allowNull, s, xs), xs)
    decreases |xs|
  {
    if xs != [] {
      var x := xs[0];
      assert xs == [x] + xs[1..];
      if Admissible(false, allowNull, s, x) {
        var t := Accepted(false, allowNull, s + [x], xs[1..]);
        AcceptedFirstOccurrenceOrder(allowNull, s + [x], xs[1..]);
        AcceptedFresh(allowNull, s + [x], xs[1..]);
        AcceptedIsSubsequence(false, allowNull, s + [x], xs[1..]);
        SubsequenceMembers(t, xs[1..]);
        assert x in s + [x];
        FirstOccurrenceCons(x, t, xs[1..]);
      } else {
        var t := Accepted(false, allowNull, s, xs[1..]);
        AcceptedFirstOccurrenceOrder(allowNull, s, xs[1..]);
        AcceptedFresh(allowNull, s, xs[1..]);
        AcceptedIsSubsequence(false, allowNull, s, xs[1..]);
        SubsequenceMembers(t, xs[1..]);
        AcceptedMembers(false, allowNull, s, xs[1..]);
        forall y | y in t ensures y != x {
          assert y in s + t;
        }
        FirstOccurrenceSkip(x, t, xs[1..]);
      }
    }
  }

  /** Leaving elements out cannot create a duplicate or a null. */
  lemma SubsequenceKeepsPolicy<T>(a: seq<Option<T>>, b: seq<Option<T>>)
    requires IsSubsequence(a, b)
    ensures NoDuplicates(b) ==> NoDuplicates(a)
    ensures None !in b ==> None !in a
  {
    SubsequenceMembers(a, b);
    if NoDuplicates(b) {
      SubsequenceNoDuplicates(a, b);
    }
  }

  /** Deleting one position cannot create a duplicate or a null. */
  lemma RemoveAtKeepsPolicy<T>(s: seq<Option<T>>, i: nat)
    requires i < |s|
    ensures NoDuplicates(s) ==> NoDuplicates(RemoveAt(s, i))
    ensures None !in s ==> None !in RemoveAt(s, i)
  {
    RemoveAtIsSubsequence(s, i);
    SubsequenceKeepsPolicy(RemoveAt(s, i), s);
  }

  /** Taking out the elements that satisfy `p` cannot create a duplicate or a null. */
  lemma ExcludeKeepsPolicy<T>(s: seq<Option<T>>, p: Option<T> -> bool)
    ensures NoDuplicates(s) ==> NoDuplicates(Exclude(s, p))
    ensures None !in s ==> None !in Exclude(s, p)
  {
    ExcludeIsSubsequence(s, p);
    SubsequenceKeepsPolicy(Exclude(s, p), s);
  }

  /** Reordering cannot create a duplicate or a null. */
  lemma PermutationKeepsPolicy<T>(a: seq<Option<T>>, b: seq<Option<T>>)
    requires multiset(a) == multiset(b)
    ensures NoDuplicates(a) ==> NoDuplicates(b)
    ensures None !in a ==> None !in b
  {
    if NoDuplicates(a) {
      PermutationNoDuplicates(a, b);
    }
    assert None in b ==> None in multiset(b);
  }
}
