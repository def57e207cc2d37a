/**
 * Runs of the list's operations on small inputs, each stating the complete
 * outcome (contents and event log) that the operations' contracts determine.
 */
module Scenarios {
  import opened Options
  import opened Sequences
  import opened Ordering
  import opened Admission
  import opened EventList
  import opened Extensions

  /** The ordering of `int?` that puts null first, as Comparer<int?>.Default does. */
  function CompareNullableInts(a: Option<int>, b: Option<int>): (r: int)
    ensures r == 0 <==> a == b
    ensures r < 0 <==> (a.None? && b.Some?) || (a.Some? && b.Some? && a.value < b.value)
  {
    match (a, b)
    case (None, None) => 0
    case (None, Some(_)) => -1
    case (Some(_), None) => 1
    case (Some(x), Some(y)) => if x < y then -1 else if x == y then 0 else 1
  }

  lemma NullableIntsTotalPreorder()
    ensures TotalPreorder(CompareNullableInts)
  {
  }

  /**
   * On an empty list with the default policy, adding `x` and removing it again
   * leaves the list empty after raising count, item-added at 0 and sorted, then
   * count, item-removed at 0 and sorted.
   */
  method AddThenRemove<T(==,!new)>(x: T, natural: Comparison<Option<T>>)
    returns (added: bool, removed: bool, contents: seq<Option<T>>, log: seq<Event<T>>)
    requires TotalPreorder(natural)
    ensures added && removed && contents == []
    ensures log == [CountChanged(1), ItemAdded(Some(x), 0), Sorted,
                    CountChanged(0), ItemRemoved(Some(x), 0), Sorted]
  {
    var list := new EList(natural);
    added := list.Add(Some(x));
    SingletonPermutation(list.elems, Some(x));
    removed := list.Remove(Some(x));
    EmptyPermutation(list.elems);
    contents, log := list.elems, list.events;
  }

  /** With duplicates forbidden, offering an item already held changes nothing and raises nothing. */
  method RejectedDuplicateIsSilent<T(==,!new)>(x: T, natural: Comparison<Option<T>>)
    returns (again: bool, contents: seq<Option<T>>, log: seq<Event<T>>)
    requires TotalPreorder(natural)
    ensures !again && contents == [Some(x)]
    ensures log == [CountChanged(1), ItemAdded(Some(x), 0)]
  {
    var list := new EList(natural);
    var first := list.Add(Some(x), sort := false);
    again := list.Add(Some(x));
    contents, log := list.elems, list.events;
  }

  /** A null item is turned away by the default policy and admitted once nulls are allowed. */
  method NullPolicy<T(==,!new)>(natural: Comparison<Option<T>>)
    returns (rejected: bool, accepted: bool, contents: seq<Option<T>>)
    requires TotalPreorder(natural)
    ensures !rejected && accepted && contents == [None]
  {
    var list := new EList(natural);
    rejected := list.Add(None, false, false);
    list.allowNull := true;
    accepted := list.Add(None, false, false);
    contents := list.elems;
  }

  /**
   * The duplicate policy holds on its own: a list that took in a null while
   * nulls were allowed, and then forbade them, still takes in no duplicate.
   */
  method NoDuplicatesBesideHeldNull<T(==,!new)>(xs: seq<Option<T>>, natural: Comparison<Option<T>>)
    returns (contents: seq<Option<T>>)
    requires TotalPreorder(natural)
    ensures None in contents && NoDuplicates(contents)
  {
    var list := new EList(natural, allowNull := true);
    var first := list.Add(None, false, false);
    list.allowNull := false;
    assert list.elems == [None];
    var count := list.AddRange(Some(xs), false, false);
    assert list.elems[0] == None;
    contents := list.elems;
  }

  /** The default policy takes in all of 1, 2, 3 offered to an empty list. */
  lemma AcceptedDistinct()
    ensures Accepted(false, false, [], [Some(1), Some(2), Some(3)]) == [Some(1), Some(2), Some(3)]
  {
    assert Accepted(false, false, [Some(1), Some(2)], [Some(3)]) == [Some(3)] by {
      assert Some(3) !in [Some(1), Some(2)];
      assert [Some(3)][1..] == [];
    }
    assert Accepted(false, false, [Some(1)], [Some(2), Some(3)]) == [Some(2), Some(3)] by {
      assert [Some(1)] + [Some(2)] == [Some(1), Some(2)];
      assert [Some(2), Some(3)][1..] == [Some(3)];
    }
    assert [] + [Some(1)] == [Some(1)];
    assert [Some(1), Some(2), Some(3)][1..] == [Some(2), Some(3)];
  }

  /**
   * Adding a range of three acceptable items without sorting appends them in
   * order and raises one count event and one range event, not three item events.
   */
  method AddRangeBatches(natural: Comparison<Option<int>>)
    returns (count: nat, contents: seq<Option<int>>, log: seq<Event<int>>)
    requires TotalPreorder(natural)
    ensures count == 3 && contents == [Some(1), Some(2), Some(3)]
    ensures log == [CountChanged(3), RangeAdded([Some(1), Some(2), Some(3)])]
  {
    var list := new EList(natural);
    AcceptedDistinct();
    count := list.AddRange(Some([Some(1), Some(2), Some(3)]), sort := false);
    contents, log := list.elems, list.events;
  }

  /** Removing by predicate reports the range of matches first and the new count after it. */
  method RemoveAllReportsRangeFirst(natural: Comparison<Option<int>>)
    returns (log: seq<Event<int>>)
    requires TotalPreorder(natural)
    ensures log == [RangeRemoved([Some(2)]), CountChanged(1)]
  {
    var list := new EList(natural);
    var one := list.Add(Some(1), false, false);
    var two := list.Add(Some(2), false, false);
    assert Filter([Some(1), Some(2)], x => x == Some(2)) == [Some(2)];
    assert Exclude([Some(1), Some(2)], x => x == Some(2)) == [Some(1)];
    var n := list.RemoveAll(x => x == Some(2), sort := false);
    log := list.events;
  }

  /** Clearing reports the new count first and the range of removed items after it. */
  method ClearReportsCountFirst(natural: Comparison<Option<int>>)
    returns (log: seq<Event<int>>)
    requires TotalPreorder(natural)
    ensures log == [CountChanged(0), RangeRemoved([Some(1)])]
  {
    var list := new EList.FromCollection([Some(1)], natural);
    assert list.elems == [Some(1)] by {
      assert [Some(1)][1..] == [];
    }
    list.Clear();
    log := list.events;
  }

  /** Converting [1, 2, 2] keeps the first 2 and drops the second. */
  method ToEListDropsLaterDuplicates() returns (contents: seq<Option<int>>)
    ensures contents == [Some(1), Some(2)]
  {
    NullableIntsTotalPreorder();
    var xs := [Some(1), Some(2), Some(2)];
    var list := ToEList(Some(xs), CompareNullableInts);
    assert Accepted(false, false, [], xs) == [Some(1), Some(2)] by {
      assert xs[1..] == [Some(2), Some(2)] && xs[1..][1..] == [Some(2)];
    }
    contents := list.elems;
  }

  /** Converting null gives null, and converting an empty collection gives an empty list. */
  method ToEListEdgeCases<T(==,!new)>(natural: Comparison<Option<T>>)
    returns (fromNull: bool, emptyContents: seq<Option<T>>, emptyPolicy: (bool, bool))
    requires TotalPreorder(natural)
    ensures fromNull && emptyContents == [] && emptyPolicy == (false, false)
  {
    var none := ToEList(None, natural);
    fromNull := none == null;
    var empty := ToEList(Some([]), natural);
    emptyContents := empty.elems;
    emptyPolicy := (empty.allowDuplicates, empty.allowNull);
  }
}
