/** The `ToEList` conversion of andrefmello91.EList's extension class. */
module Extensions {
  import opened Options
  import opened Ordering
  import opened Admission
  import opened EventList

  /**
   * A null collection gives null; an empty one a fresh empty list; any other a
   * fresh list built from it. Both lists have the default policy (no
   * duplicates, no nulls), have raised nothing and are not sorted.
   */
  method ToEList<T(==,!new)>(collection: Option<seq<Option<T>>>, natural: Comparison<Option<T>>)
    returns (r: EList?<T>)
    requires TotalPreorder(natural)
    ensures collection.None? <==> r == null
    ensures r != null ==> fresh(r) && r.Valid() && r.natural == natural
    ensures r != null ==> !r.allowDuplicates && !r.allowNull && r.events == []
    ensures collection == Some([]) ==> r != null && r.elems == []
    ensures collection.Some? ==> r != null && r.elems == Accepted(false, false, [], collection.value)
  {
    if collection.None? {
      r := null;
    } else if collection.value == [] {
      r := new EList(natural);
    } else {
      r := new EList.FromCollection(collection.value, natural);
    }
  }

  /**
   * What the default policy leaves of a collection: each non-null value once,
   * in the order of its first occurrence, and nothing else.
   */
  lemma DefaultPolicyContents<T>(xs: seq<Option<T>>)
    ensures var r := Accepted(false, false, [], xs);
      && Conforms(false, false, r)
      && (forall y :: y in r <==> y in xs && y.Some?)
      && InFirstOccurrenceOrder(r, xs)
  {
    var r := Accepted(false, false, [], xs);
    AcceptedKeepsPolicy(false, false, [], xs);
    AcceptedMembers(false, false, [], xs);
    AcceptedFirstOccurrenceOrder(false, [], xs);
    assert [] + r == r;
  }
}
