# EList: an observable list with an admission policy, in Dafny

This project models `EList<T>` of andrefmello91.EList: a list that can refuse
duplicates (`AllowDuplicates`) and nulls (`AllowNull`), raises change events
(count changed, item added or removed with its index, range added or removed,
sorted), and can re-sort itself after each change. It also models the
`ToEList` extension, which turns a possibly null collection into an `EList`.

The model is a Dafny class, `EventList.EList`, with these fields:

- `elems: seq<Option<T>>` holds the contents, with `None` for a C# `null`.
- `allowDuplicates` and `allowNull` are the two mutable policy flags.
- `events: seq<Event<T>>` is a log. Raising an event appends its payload.
- `natural` is the element type's own order (`IComparable<T>.CompareTo`). The
  parameterless `Sort` uses it.

Each mutating method states its whole new state: the new contents and the
events appended in their exact order. It also states, for each half of the
policy on its own, that the half still holds: a list that held no duplicates
still holds none while duplicates are forbidden, and a list that held no null
still holds none while nulls are forbidden. Both constructors establish the
policy. Those contents are given by specification functions:

- `Admission.Accepted` says what a run of `Add` calls takes in.
- `Sequences.Exclude` and `Sequences.Filter` say what `RemoveAll` keeps and
  removes.
- `Ordering.IsSortedPermutation` says what a sort produces.

Lemmas prove what these functions mean. Kept elements stay in order. The
duplicate and null policies are preserved, each on its own. Accepted items
follow the order of first occurrence. Nothing is lost or invented. The module
`Scenarios` states small cases whose complete outcome the verifier proves from
the contracts. One is add-then-remove on an empty list. Others cover batched
range events, the event order of removals, the duplicate policy holding beside
a null taken in earlier, and `ToEList([1, 2, 2]) == [1, 2]`.

Comparisons follow the .NET convention: `cmp(x, y) <= 0` means `x` may come
before `y`. A comparer must be total and transitive (`Ordering.TotalPreorder`).
Mapping of C# to Dafny:

- The two `Sort` overloads become `Sort` and `SortWith`.
- The C# default arguments become Dafny default arguments.
- `EList()` and `EList(bool, bool)` become the unnamed constructor.
- `EList(IEnumerable<T>, bool, bool)` becomes `FromCollection`.
- A nullable `IEnumerable` parameter becomes `Option<seq<Option<T>>>`.
- A `Predicate<T>` becomes `Option<T> -> bool`.

## Model

| member | source | states |
|---|---|---|
| `EventList.EList.constructor` | andrefmello91.EList/Elist.cs:74-88 | an empty list with the given policy flags (default: no duplicates, no nulls) and an empty event log; the policy holds |
| `EventList.EList.FromCollection` | andrefmello91.EList/Elist.cs:94-96 | flags set first, then contents are exactly the items `AddRange(collection, false, false)` accepts, in acceptance order; no event logged, no sort; the policy holds |
| `EventList.EList.RaiseCountEvent` | andrefmello91.EList/Elist.cs:105-110 | appends `CountChanged` carrying the current count |
| `EventList.EList.RaiseItemEvent` | andrefmello91.EList/Elist.cs:115-120 | appends `ItemAdded` or `ItemRemoved` with the item and the given index, defaulting to count - 1 |
| `EventList.EList.RaiseRangeEvent` | andrefmello91.EList/Elist.cs:125-130 | appends `RangeAdded` or `RangeRemoved` carrying exactly the given items |
| `EventList.EList.RaiseSortEvent` | andrefmello91.EList/Elist.cs:135-140 | appends `Sorted` |
| `EventList.EList.Add` | andrefmello91.EList/Elist.cs:143-160 | returns false and changes neither contents nor log exactly when duplicates are forbidden and the item is held, or nulls are forbidden and it is null; otherwise appends it, logs `CountChanged(n+1)` then `ItemAdded(item, n)` (pre-sort index) when raising, then sorts (logging `Sorted` only when raising); while duplicates are forbidden a duplicate-free list stays duplicate-free, and while nulls are forbidden a null-free list stays null-free, each independently of the other flag |
| `EventList.EList.AddEach` | andrefmello91.EList/Elist.cs:169 | offers the items to `Add(item, false, false)` one by one in order; returns exactly the accepted ones, appends exactly them, logs nothing; each policy half is kept on its own |
| `EventList.EList.AddRange` | andrefmello91.EList/Elist.cs:163-181 | null or empty collection: returns 0, no change, no event; otherwise appends the accepted items in offered order, returns their number (new count minus old), logs one `CountChanged` and one `RangeAdded(accepted)` even if none was accepted, never per-item events, then sorts once; each policy half is kept on its own |
| `EventList.EList.Clear` | andrefmello91.EList/Elist.cs:184-196 | always empties the list; when raising logs `CountChanged(0)` then `RangeRemoved(previous contents in order)`, also for an empty list; never sorts |
| `EventList.EList.Remove` | andrefmello91.EList/Elist.cs:199-216 | absent item: returns false, no change; otherwise deletes the first occurrence at `IndexOf(item)`, keeps the rest in order, logs `CountChanged(n-1)` then `ItemRemoved(item, pre-removal index)`, then sorts; a duplicate-free list stays duplicate-free and a null-free list stays null-free, whatever the flags |
| `EventList.EList.RemoveAll` | andrefmello91.EList/Elist.cs:219-236 | returns the number of matching elements; leaves the non-matching ones in order; logs `RangeRemoved(matches in original order)` before `CountChanged(new count)`, even when nothing matched; then sorts; duplicate-freedom and null-freedom are each kept |
| `EventList.EList.RemoveRange` | andrefmello91.EList/Elist.cs:239-242 | null or empty collection: returns 0, no change, no event; otherwise behaves as `RemoveAll` with membership in the collection as the match; duplicate-freedom and null-freedom are each kept |
| `EventList.EList.Sort` | andrefmello91.EList/Elist.cs:245-251 | the result is a permutation of the contents ordered by the natural order; the only event is one `Sorted` when raising; duplicate-freedom and null-freedom are each kept |
| `EventList.EList.SortWith` | andrefmello91.EList/Elist.cs:254-260 | the result is a permutation of the contents ordered by the given comparer; the only event is one `Sorted` when raising; duplicate-freedom and null-freedom are each kept |
| `Extensions.ToEList` | andrefmello91.EList/Extensions.cs:21-27 | null gives null; empty gives a fresh empty list with no-duplicates/no-nulls policy; otherwise a fresh list holding what the default policy accepts from the input; no event logged, not sorted |
| `Extensions.DefaultPolicyContents` | andrefmello91.EList/Extensions.cs:27 | under the default policy the result holds each non-null input value exactly once, nothing else, in the order of first occurrence |
| `Admission.Admissible` | andrefmello91.EList/Elist.cs:145 | the guard of `Add`: with both flags set every item passes; a non-null item not yet held always passes; an item that passes is not held when duplicates are forbidden and is not null when nulls are forbidden |
| `Admission.Accepted` | andrefmello91.EList/Elist.cs:169 | the items a run of `Add(item, false, false)` calls takes in, each judged against the list as the earlier calls left it; none is null when nulls are forbidden |
| `Admission.AcceptedSnoc` | andrefmello91.EList/Elist.cs:169 | offering one more item at the end accepts exactly what was accepted before, plus that item when it is admissible against the list as it then stands |
| `Admission.AdmitKeepsPolicy` | andrefmello91.EList/Elist.cs:145-148 | appending an admitted item keeps a duplicate-free list duplicate-free while duplicates are forbidden, and separately keeps a null-free list null-free while nulls are forbidden |
| `Admission.AcceptedKeepsPolicy` | andrefmello91.EList/Elist.cs:163-169 | a run of offers keeps a duplicate-free list duplicate-free while duplicates are forbidden, and separately keeps a null-free list null-free while nulls are forbidden |
| `Admission.AcceptedIsSubsequence` | andrefmello91.EList/Elist.cs:169 | the accepted items are the offered ones with some left out, in offered order |
| `Admission.AcceptedPermissive` | andrefmello91.EList/Elist.cs:145-146 | with both flags set every offered item is accepted |
| `Admission.AcceptedMembers` | andrefmello91.EList/Elist.cs:145-148 | after the offers the list holds exactly its old elements plus every offered item the null policy lets through |
| `Admission.AcceptedFresh` | andrefmello91.EList/Elist.cs:145 | with duplicates forbidden no accepted item was already in the list |
| `Admission.AcceptedFirstOccurrenceOrder` | andrefmello91.EList/Elist.cs:169 | with duplicates forbidden the accepted items keep the order of their first occurrences, so a later repeat is the one dropped |
| `Admission.SubsequenceKeepsPolicy` | andrefmello91.EList/Elist.cs:203-224 | leaving elements out keeps a duplicate-free list duplicate-free and, separately, a null-free list null-free |
| `Admission.RemoveAtKeepsPolicy` | andrefmello91.EList/Elist.cs:203 | deleting one position keeps a duplicate-free list duplicate-free and, separately, a null-free list null-free |
| `Admission.ExcludeKeepsPolicy` | andrefmello91.EList/Elist.cs:224 | taking out the matches keeps a duplicate-free list duplicate-free and, separately, a null-free list null-free |
| `Admission.PermutationKeepsPolicy` | andrefmello91.EList/Elist.cs:247 | reordering keeps a duplicate-free list duplicate-free and, separately, a null-free list null-free |
| `Sequences.IndexOf` | andrefmello91.EList/Elist.cs:201 | -1 exactly when the item is absent, otherwise a position holding it with no earlier one |
| `Sequences.RemoveAt` | andrefmello91.EList/Elist.cs:203 | one element shorter; the elements before the position stay where they are and those after it move down one |
| `Sequences.RemoveAtMultiset` | andrefmello91.EList/Elist.cs:203 | deleting a position takes exactly one copy of the element there out of the multiset |
| `Sequences.RemoveFirstOccurrence` | andrefmello91.EList/Elist.cs:201-203 | deleting at `IndexOf(x)` removes exactly one `x` and nothing else |
| `Sequences.RemoveAtIsSubsequence` | andrefmello91.EList/Elist.cs:203 | deleting one position keeps the other elements in their order |
| `Sequences.Filter` | andrefmello91.EList/Elist.cs:222 | the snapshot of matches is no longer than the list and every element of it matches |
| `Sequences.Exclude` | andrefmello91.EList/Elist.cs:224 | what `List<T>.RemoveAll` leaves is no longer than the list and no element of it matches |
| `Sequences.ContainedIn` | andrefmello91.EList/Elist.cs:242 | the method group `collection.Contains` as a predicate: true exactly for the members of the collection |
| `Sequences.FilterMembers` | andrefmello91.EList/Elist.cs:222 | the removed snapshot holds exactly the elements that match |
| `Sequences.ExcludeMembers` | andrefmello91.EList/Elist.cs:224 | what remains holds exactly the elements that do not match |
| `Sequences.FilterExcludePartition` | andrefmello91.EList/Elist.cs:222-235 | matches and survivors together are the old contents as a multiset, so the returned count is old count minus new count |
| `Sequences.FilterIsSubsequence` | andrefmello91.EList/Elist.cs:222 | the removed items are reported in their original relative order |
| `Sequences.ExcludeIsSubsequence` | andrefmello91.EList/Elist.cs:224 | the remaining elements keep their relative order |
| `Sequences.SubsequenceNoDuplicates` | andrefmello91.EList/Elist.cs:224 | leaving elements out cannot create a duplicate |
| `Sequences.PermutationNoDuplicates` | andrefmello91.EList/Elist.cs:247 | reordering cannot create a duplicate |
| `Ordering.Insert` | andrefmello91.EList/Elist.cs:247 | one element is added to the multiset and nothing else changes |
| `Ordering.InsertSorted` | andrefmello91.EList/Elist.cs:247 | inserting into a sequence sorted by a total preorder keeps it sorted |
| `Ordering.InsertionSort` | andrefmello91.EList/Elist.cs:247 | a permutation of its input, sorted whenever the comparer is a total preorder |
| `Scenarios.AddThenRemove` | andrefmello91.EList/Elist.cs:143-216 | on an empty default list, `Add(x)` then `Remove(x)` leaves it empty and logs count 1, item added at 0, sorted, count 0, item removed at 0, sorted |
| `Scenarios.RejectedDuplicateIsSilent` | andrefmello91.EList/Elist.cs:145-146 | adding a held item again with duplicates forbidden returns false, keeps the contents and logs nothing |
| `Scenarios.NullPolicy` | andrefmello91.EList/Elist.cs:33 | null is refused under the default policy and accepted after `AllowNull` is set |
| `Scenarios.AcceptedDistinct` | andrefmello91.EList/Elist.cs:145-169 | offered 1, 2, 3 in turn, an empty default-policy list takes in all three, in that order |
| `Scenarios.AddRangeBatches` | andrefmello91.EList/Elist.cs:163-181 | adding three acceptable items without sorting appends all three in order and logs one `CountChanged(3)` and one `RangeAdded` of all three, with no per-item event |
| `Scenarios.NoDuplicatesBesideHeldNull` | andrefmello91.EList/Elist.cs:163-181 | a list that took in a null while nulls were allowed, then forbade nulls, still holds the null and takes in no duplicate from any range |
| `Scenarios.RemoveAllReportsRangeFirst` | andrefmello91.EList/Elist.cs:219-236 | removing the matches of a predicate from `[1, 2]` logs `RangeRemoved([2])` before `CountChanged(1)` |
| `Scenarios.ClearReportsCountFirst` | andrefmello91.EList/Elist.cs:184-196 | clearing `[1]` logs `CountChanged(0)` before `RangeRemoved([1])` |
| `Scenarios.ToEListDropsLaterDuplicates` | andrefmello91.EList/Extensions.cs:27 | converting `[1, 2, 2]` gives `[1, 2]` |
| `Scenarios.ToEListEdgeCases` | andrefmello91.EList/Extensions.cs:23-26 | converting null gives null; converting an empty collection gives an empty list with both flags false |

## Left out

- Subscription and dispatch are not modelled. That covers subscribe and
  unsubscribe, handler order, and the copy-to-a-local idiom. Every raise
  appends to `events`, whether or not a handler is subscribed. With no
  subscriber, `tmp?.Invoke` delivers nothing.
- Re-entrant handlers are not modelled. A handler that changes the list while
  it is being called cannot happen here, because raising an event is a plain
  append.
- Members inherited from `List<T>` are not modelled: the indexer setter,
  `Insert`, `InsertRange` and the rest. The policy lemmas hold only for the
  modelled operations. In the model, `elems` is a public field, the analogue of
  those unchecked paths.
- The .NET sort algorithm is not modelled. It is an unstable introsort, and
  `Comparer<T>.Default` decides where nulls go. The contract of both sorts,
  `IsSortedPermutation`, promises only a sorted permutation, so it leaves the
  order among equal elements open. The insertion sort in their bodies is
  deterministic, but no contract depends on its particular order.
- The element type's `IEquatable<T>` and `IComparable<T>` are not modelled.
  Equality is Dafny's `==`. The natural order is the `natural` comparison given
  to the constructor (and to `ToEList`). A member with no body would be an
  unproved axiom, so the order is a parameter and the sorts require it to be a
  total preorder.
- RemoveAll: `match` is called twice on each element, once for the snapshot
  (Elist.cs:222) and once by `List<T>.RemoveAll` (Elist.cs:224). The model's
  predicate is a pure, total Dafny function, so a predicate with side effects,
  one that answers differently on the second call, or one that throws is not
  modelled.
- SortWith: `List<T>.Sort(null)` falls back to the default comparer. The model
  takes a comparison value that is always present, so the null comparer is not
  modelled.
- `IEnumerable` laziness and re-enumeration (`Any()` and then `Where`) are not
  modelled. Collections are `seq` values.
- The `IEList<T>` interface and the event-argument classes are not part of
  this model. Only their payloads are kept.
- `Count` is a 32-bit `int` in the source. In the model counts and indices are
  unbounded, and no list comes near 2^31 elements.
