/**
 * EList<T>: a list with an admission policy and change events.
 *
 * Every mutating operation does the same things in the same order: apply the
 * policy, change the elements in place, raise its events (when asked to), then
 * re-sort (when asked to). Raising an event is modelled as appending what its
 * handlers would receive to the log `events`; who is subscribed is left out.
 */
module EventList {
  import opened Options
  import opened Sequences
  import opened Ordering
  import opened Admission

  /** The payload of each event the list raises. */
  datatype Event<T> =
    | CountChanged(count: nat)
    | ItemAdded(item: Option<T>, index: int)
    | ItemRemoved(item: Option<T>, index: int)
    | RangeAdded(items: seq<Option<T>>)
    | RangeRemoved(items: seq<Option<T>>)
    | Sorted

  /** Which of the two item events is raised. */
  datatype ItemHandler = OnItemAdded | OnItemRemoved

  /** Which of the two range events is raised. */
  datatype RangeHandler = OnRangeAdded | OnRangeRemoved

  class EList<T(==,!new)> {
    /** When false, an item equal to one already held is not added. */
    var allowDuplicates: bool
    /** When false, a null item is not added. */
    var allowNull: bool
    /** The contents of the list, `None` standing for a null item. */
    var elems: seq<Option<T>>
    /** Everything raised so far, oldest first. */
    var events: seq<Event<T>>
    /** The element type's own order (IComparable<T>.CompareTo), used by the parameterless sort. */
    const natural: Comparison<Option<T>>

    ghost predicate Valid() {
      TotalPreorder(natural)
    }

    /** No two elements are equal. */
    predicate DuplicateFree()
      reads this
    {
      NoDuplicates(elems)
    }

    /** No element is null. */
    predicate NullFree()
      reads this
    {
      None !in elems
    }

    /** The contents satisfy the current policy. */
    predicate PolicyHolds()
      reads this
    {
      Conforms(allowDuplicates, allowNull, elems)
    }

    /** An empty list with the given policy. */
    constructor (natural: Comparison<Option<T>>, allowDuplicates: bool := false, allowNull: bool := false)
      requires TotalPreorder(natural)
      ensures Valid() && this.natural == natural
      ensures this.allowDuplicates == allowDuplicates && this.allowNull == allowNull
      ensures elems == [] && events == []
      ensures PolicyHolds()
    {
      this.natural := natural;
      this.allowDuplicates := allowDuplicates;
      this.allowNull := allowNull;
      elems := [];
      events := [];
    }

    /**
     * A list with the given policy holding the elements of `collection` that
     * the policy accepts, offered one by one in order; nothing is raised and
     * nothing is sorted.
     */
    constructor FromCollection(collection: seq<Option<T>>, natural: Comparison<Option<T>>,
                               allowDuplicates: bool := false, allowNull: bool := false)
      requires TotalPreorder(natural)
      ensures Valid() && this.natural == natural
      ensures this.allowDuplicates == allowDuplicates && this.allowNull == allowNull
      ensures elems == Accepted(allowDuplicates, allowNull, [], collection)
      ensures events == []
      ensures PolicyHolds()
    {
      this.natural := natural;
      this.allowDuplicates := allowDuplicates;
      this.allowNull := allowNull;
      elems := [];
      events := [];
      new;
      var _ := AddRange(Some(collection), false, false);
    }

    method RaiseCountEvent()
      modifies this`events
      ensures events == old(events) + [CountChanged(|elems|)]
    {
      events := events + [CountChanged(|elems|)];
    }

    /** The index defaults to the last position. */
    method RaiseItemEvent(handler: ItemHandler, item: Option<T>, index: Option<int> := None)
      modifies this`events
      ensures var i := if index.Some? then index.value else |elems| - 1;
        events == old(events) + [if handler == OnItemAdded then ItemAdded(item, i) else ItemRemoved(item, i)]
    {
      var i := if index.Some? then index.value else |elems| - 1;
      var e := if handler == OnItemAdded then ItemAdded(item, i) else ItemRemoved(item, i);
      events := events + [e];
    }

    method RaiseRangeEvent(handler: RangeHandler, collection: seq<Option<T>>)
      modifies this`events
      ensures events == old(events) + [if handler == OnRangeAdded then RangeAdded(collection) else RangeRemoved(collection)]
    {
      var e := if handler == OnRangeAdded then RangeAdded(collection) else RangeRemoved(collection);
      events := events + [e];
    }

    method RaiseSortEvent()
      modifies this`events
      ensures events == old(events) + [Sorted]
    {
      events := events + [Sorted];
    }

    /**
     * Adds `item` at the end unless the policy turns it away. When accepted,
     * raises CountChanged then ItemAdded with the end position, and only then
     * sorts, so the reported index is the one before sorting.
     */
    method Add(item: Option<T>, raiseEvents: bool := true, sort: bool := true) returns (added: bool)
      requires Valid()
      modifies this`elems, this`events
      ensures added == Admissible(allowDuplicates, allowNull, old(elems), item)
      ensures !added ==> elems == old(elems) && events == old(events)
      ensures added && !sort ==> elems == old(elems) + [item]
      ensures added && sort ==> IsSortedPermutation(natural, elems, old(elems) + [item])
      ensures added ==> (events == old(events)
        + (if raiseEvents then [CountChanged(|old(elems)| + 1), ItemAdded(item, |old(elems)|)] else [])
        + (if raiseEvents && sort then [Sorted] else []))
      ensures !allowDuplicates && old(DuplicateFree()) ==> DuplicateFree()
      ensures !allowNull && old(NullFree()) ==> NullFree()
    {
      if (!allowDuplicates && item in elems) || (!allowNull && item.None?) {
        return false;
      }
      assert && (!allowDuplicates && NoDuplicates(elems) ==> NoDuplicates(elems + [item]))
             && (!allowNull && None !in elems ==> None !in elems + [item]) by {
        AdmitKeepsPolicy(allowDuplicates, allowNull, elems, item);
      }
      elems := elems + [item];
      if raiseEvents {
        RaiseCountEvent();
        RaiseItemEvent(OnItemAdded, item);
      }
      if sort {
        Sort(raiseEvents);
      }
      return true;
    }

    /**
     * Offers the items of `xs` to `Add` one by one, without events or sorting,
     * and returns those it accepted (the `Where(item => Add(item, false, false))`
     * of `AddRange`).
     */
    method AddEach(xs: seq<Option<T>>) returns (added: seq<Option<T>>)
      requires Valid()
      modifies this`elems, this`events
      ensures added == Accepted(allowDuplicates, allowNull, old(elems), xs)
      ensures elems == old(elems) + added && events == old(events)
      ensures !allowDuplicates && old(DuplicateFree()) ==> DuplicateFree()
      ensures !allowNull && old(NullFree()) ==> NullFree()
    {
      added := [];
      var i := 0;
      while i < |xs|
        invariant 0 <= i <= |xs|
        invariant elems == old(elems) + added
        invariant added == Accepted(allowDuplicates, allowNull, old(elems), xs[..i])
        invariant events == old(events)
        invariant !allowDuplicates && old(DuplicateFree()) ==> DuplicateFree()
        invariant !allowNull && old(NullFree()) ==> NullFree()
      {
        assert xs[..i + 1] == xs[..i] + [xs[i]];
        AcceptedSnoc(allowDuplicates, allowNull, old(elems), xs[..i], xs[i]);
        var ok := Add(xs[i], false, false);
        if ok {
          added := added + [xs[i]];
        }
        i := i + 1;
      }
      assert xs[..i] == xs;
    }

    /**
     * Offers every item of `collection` to `Add` without events or sorting.
     * A null or empty collection changes nothing. Otherwise raises one
     * CountChanged and one RangeAdded with the accepted items (even when none
     * was accepted), then sorts once.
     */
    method AddRange(collection: Option<seq<Option<T>>>, raiseEvents: bool := true, sort: bool := true)
      returns (count: nat)
      requires Valid()
      modifies this`elems, this`events
      ensures collection.None? || collection.value == [] ==>
        count == 0 && elems == old(elems) && events == old(events)
      ensures collection.Some? && collection.value != [] ==>
        count == |Accepted(allowDuplicates, allowNull, old(elems), collection.value)|
      ensures collection.Some? && collection.value != [] && !sort ==>
        elems == old(elems) + Accepted(allowDuplicates, allowNull, old(elems), collection.value)
      ensures collection.Some? && collection.value != [] && sort ==>
        IsSortedPermutation(natural, elems, old(elems) + Accepted(allowDuplicates, allowNull, old(elems), collection.value))
      ensures collection.Some? && collection.value != [] ==> (events == old(events)
        + (if raiseEvents then [CountChanged(|old(elems)| + count),
                                RangeAdded(Accepted(allowDuplicates, allowNull, old(elems), collection.value))] else [])
        + (if raiseEvents && sort then [Sorted] else []))
      ensures !allowDuplicates && old(DuplicateFree()) ==> DuplicateFree()
      ensures !allowNull && old(NullFree()) ==> NullFree()
    {
      if collection.None? || collection.value == [] {
        return 0;
      }
      var added := AddEach(collection.value);
      if raiseEvents {
        RaiseCountEvent();
        RaiseRangeEvent(OnRangeAdded, added);
      }
      assert events == old(events)
        + (if raiseEvents then [CountChanged(|old(elems)| + |added|), RangeAdded(added)] else []);
      if sort {
        Sort(raiseEvents);
      }
      assert added == Accepted(allowDuplicates, allowNull, old(elems), collection.value);
      return |added|;
    }

    /** Empties the list; raises CountChanged(0) then RangeRemoved with the old contents. Never sorts. */
    method Clear(raiseEvents: bool := true)
      modifies this`elems, this`events
      ensures elems == []
      ensures events == old(events) + (if raiseEvents then [CountChanged(0), RangeRemoved(old(elems))] else [])
      ensures PolicyHolds()
    {
      var list := elems;
      elems := [];
      if !raiseEvents {
        return;
      }
      RaiseCountEvent();
      RaiseRangeEvent(OnRangeRemoved, list);
    }

    /**
     * Removes the first element equal to `item`, if there is one. Raises
     * CountChanged then ItemRemoved with the index the item had before removal,
     * then sorts.
     */
    method Remove(item: Option<T>, raiseEvents: bool := true, sort: bool := true) returns (removed: bool)
      requires Valid()
      modifies this`elems, this`events
      ensures removed == (item in old(elems))
      ensures !removed ==> elems == old(elems) && events == old(events)
      ensures removed && !sort ==> elems == RemoveAt(old(elems), IndexOf(old(elems), item))
      ensures removed && sort ==> IsSortedPermutation(natural, elems, RemoveAt(old(elems), IndexOf(old(elems), item)))
      ensures removed ==> (events == old(events)
        + (if raiseEvents then [CountChanged(|old(elems)| - 1), ItemRemoved(item, IndexOf(old(elems), item))] else [])
        + (if raiseEvents && sort then [Sorted] else []))
      ensures old(DuplicateFree()) ==> DuplicateFree()
      ensures old(NullFree()) ==> NullFree()
    {
      var index := IndexOf(elems, item);
      if index < 0 {
        return false;
      }
      var rest := RemoveAt(elems, index);
      assert (NoDuplicates(elems) ==> NoDuplicates(rest)) && (None !in elems ==> None !in rest) by {
        RemoveAtKeepsPolicy(elems, index);
      }
      elems := rest;
      if raiseEvents {
        RaiseCountEvent();
        RaiseItemEvent(OnItemRemoved, item, Some(index));
      }
      assert events == old(events)
        + (if raiseEvents then [CountChanged(|old(elems)| - 1), ItemRemoved(item, index)] else []);
      if sort {
        Sort(raiseEvents);
      }
      return true;
    }

    /**
     * Removes every element that satisfies `matches` and returns how many there
     * were. Raises RangeRemoved with the matches in their original order and
     * only then CountChanged (the reverse of the order `Add` uses), even when
     * nothing matched; then sorts.
     */
    method RemoveAll(matches: Option<T> -> bool, raiseEvents: bool := true, sort: bool := true)
      returns (count: nat)
      requires Valid()
      modifies this`elems, this`events
      ensures count == |Filter(old(elems), matches)|
      ensures if sort then IsSortedPermutation(natural, elems, Exclude(old(elems), matches))
              else elems == Exclude(old(elems), matches)
      ensures events == old(events)
        + (if raiseEvents then [RangeRemoved(Filter(old(elems), matches)), CountChanged(|Exclude(old(elems), matches)|)] else [])
        + (if raiseEvents && sort then [Sorted] else [])
      ensures old(DuplicateFree()) ==> DuplicateFree()
      ensures old(NullFree()) ==> NullFree()
    {
      var removed := Filter(elems, matches);
      var rest := Exclude(elems, matches);
      var before := |elems|;
      assert before == |removed| + |rest| by {
        FilterExcludePartition(elems, matches);
      }
      assert (NoDuplicates(elems) ==> NoDuplicates(rest)) && (None !in elems ==> None !in rest) by {
        ExcludeKeepsPolicy(elems, matches);
      }
      elems := rest;
      count := before - |elems|;
      if raiseEvents {
        RaiseRangeEvent(OnRangeRemoved, removed);
        RaiseCountEvent();
      }
      assert events == old(events)
        + (if raiseEvents then [RangeRemoved(removed), CountChanged(|rest|)] else []);
      if sort {
        Sort(raiseEvents);
      }
    }

    /**
     * A null or empty collection changes nothing; otherwise this is `RemoveAll`
     * with membership in `collection` as the matches, so every element equal to
     * some member goes, however often it occurs on either side.
     */
    method RemoveRange(collection: Option<seq<Option<T>>>, raiseEvents: bool := true, sort: bool := true)
      returns (count: nat)
      requires Valid()
      modifies this`elems, this`events
      ensures collection.None? || collection.value == [] ==>
        count == 0 && elems == old(elems) && events == old(events)
      ensures collection.Some? && collection.value != [] ==>
        var matches := ContainedIn(collection.value);
        && count == |Filter(old(elems), matches)|
        && (if sort then IsSortedPermutation(natural, elems, Exclude(old(elems), matches))
            else elems == Exclude(old(elems), matches))
        && events == old(events)
          + (if raiseEvents then [RangeRemoved(Filter(old(elems), matches)), CountChanged(|Exclude(old(elems), matches)|)] else [])
          + (if raiseEvents && sort then [Sorted] else [])
      ensures old(DuplicateFree()) ==> DuplicateFree()
      ensures old(NullFree()) ==> NullFree()
    {
      if collection.None? || collection.value == [] {
        return 0;
      }
      count := RemoveAll(ContainedIn(collection.value), raiseEvents, sort);
    }

    /** Sorts by the element type's own order; raises Sorted and nothing else. */
    method Sort(raiseEvents: bool := true)
      requires Valid()
      modifies this`elems, this`events
      ensures IsSortedPermutation(natural, elems, old(elems))
      ensures events == old(events) + (if raiseEvents then [Sorted] else [])
      ensures old(DuplicateFree()) ==> DuplicateFree()
      ensures old(NullFree()) ==> NullFree()
    {
      var sorted := InsertionSort(natural, elems);
      assert (NoDuplicates(elems) ==> NoDuplicates(sorted)) && (None !in elems ==> None !in sorted) by {
        PermutationKeepsPolicy(elems, sorted);
      }
      elems := sorted;
      if raiseEvents {
        RaiseSortEvent();
      }
    }

    /** Sorts by `comparer`; raises Sorted and nothing else. */
    method SortWith(comparer: Comparison<Option<T>>, raiseEvents: bool := true)
      requires TotalPreorder(comparer)
      modifies this`elems, this`events
      ensures IsSortedPermutation(comparer, elems, old(elems))
      ensures events == old(events) + (if raiseEvents then [Sorted] else [])
      ensures old(DuplicateFree()) ==> DuplicateFree()
      ensures old(NullFree()) ==> NullFree()
    {
      var sorted := InsertionSort(comparer, elems);
      assert (NoDuplicates(elems) ==> NoDuplicates(sorted)) && (None !in elems ==> None !in sorted) by {
        PermutationKeepsPolicy(elems, sorted);
      }
      elems := sorted;
      if raiseEvents {
        RaiseSortEvent();
      }
    }
  }
}
