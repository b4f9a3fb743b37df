/**
 * `handleDragEnd` of `src/components/app/links/Sections/index.tsx`: after a
 * drop, the cached list of groups is rearranged in place with two `splice`
 * calls (remove at the source offset, insert at the destination offset) and
 * the resulting id list is submitted as the new order.
 */
module DragReorder {
  import opened Wrappers

  /** A group (section) as `section.getWithLinks` returns it; the handler only reads its id. */
  datatype Group = Group(id: string, name: Option<string>)

  /** Where a drag started or ended: a droppable list and an offset in it. */
  datatype Location = Location(droppableId: string, index: nat)

  /** What the drag-and-drop library hands to `onDragEnd`. */
  datatype DropResult = DropResult(draggableId: string, source: Location, destination: Option<Location>)

  function Ids(items: seq<Group>): (r: seq<string>)
    ensures |r| == |items| && forall i :: 0 <= i < |items| ==> r[i] == items[i].id
  {
    if items == [] then [] else [items[0].id] + Ids(items[1..])
  }

  /** `Array.prototype.findIndex` by id: the first offset holding `id`, or `|items|`. */
  function FindIndex(items: seq<Group>, id: string): (k: nat)
    ensures k <= |items|
    ensures forall j :: 0 <= j < k ==> items[j].id != id
    ensures k < |items| ==> items[k].id == id
  {
    if items == [] then 0
    else if items[0].id == id then 0
    else 1 + FindIndex(items[1..], id)
  }

  /** `items.find((group) => group.id === draggableId)`. */
  function Find(items: seq<Group>, id: string): (r: Option<Group>)
    ensures r.None? <==> forall i :: 0 <= i < |items| ==> items[i].id != id
    ensures r.Some? ==> r.value.id == id && r.value in items
  {
    var k := FindIndex(items, id);
    if k < |items| then Some(items[k]) else None
  }

  /** `items.splice(start, 1)` with a non-negative start: the element at
      `start` goes, the later ones move up by one; past the end nothing happens. */
  function SpliceRemove<T>(items: seq<T>, start: nat): (r: seq<T>)
    ensures start < |items| ==> |r| == |items| - 1
    ensures start < |items| ==> forall i :: 0 <= i < |r| ==> r[i] == if i < start then items[i] else items[i + 1]
    ensures |items| <= start ==> r == items
  {
    if start < |items| then items[..start] + items[start + 1..] else items
  }

  /** `items.splice(start, 0, item)` with a non-negative start: `item` lands
      at `start`, or at the end when `start` is past it. */
  function SpliceInsert<T>(items: seq<T>, start: nat, item: T): (r: seq<T>)
    ensures |r| == |items| + 1
    ensures var at := if start < |items| then start else |items|;
      && r[at] == item
      && forall i :: 0 <= i < |items| ==> items[i] == if i < at then r[i] else r[i + 1]
  {
    var at := if start < |items| then start else |items|;
    items[..at] + [item] + items[at..]
  }

  /** The list after the two splices of `handleDragEnd`. */
  function Move<T>(items: seq<T>, from: nat, to: nat, item: T): seq<T>
  {
    SpliceInsert(SpliceRemove(items, from), to, item)
  }

  /** Drops that `handleDragEnd` ignores: no destination, or the same place it started. */
  predicate IsIgnored(result: DropResult)
  {
    || result.destination.None?
    || (result.destination.value.droppableId == result.source.droppableId
        && result.destination.value.index == result.source.index)
  }

  ghost predicate UniqueIds(items: seq<Group>)
  {
    forall i, j :: 0 <= i < j < |items| ==> items[i].id != items[j].id
  }

  /** Moving the item at `from` keeps every item: the result is a permutation. */
  lemma MoveIsPermutation<T>(items: seq<T>, from: nat, to: nat)
    requires from < |items|
    ensures |Move(items, from, to, items[from])| == |items|
    ensures multiset(Move(items, from, to, items[from])) == multiset(items)
  {
    var rest := SpliceRemove(items, from);
    assert items == items[..from] + [items[from]] + items[from + 1..];
    assert multiset(items) == multiset(rest) + multiset{items[from]};
    var at := if to < |rest| then to else |rest|;
    assert rest == rest[..at] + rest[at..];
  }

  lemma IdsOfRemove(items: seq<Group>, from: nat)
    ensures Ids(SpliceRemove(items, from)) == SpliceRemove(Ids(items), from)
  {
    var a, b := Ids(SpliceRemove(items, from)), SpliceRemove(Ids(items), from);
    assert |a| == |b|;
    forall i | 0 <= i < |a|
      ensures a[i] == b[i]
    {
    }
  }

  lemma IdsOfInsert(items: seq<Group>, to: nat, item: Group)
    ensures Ids(SpliceInsert(items, to, item)) == SpliceInsert(Ids(items), to, item.id)
  {
    var inserted := SpliceInsert(items, to, item);
    var a, b := Ids(inserted), SpliceInsert(Ids(items), to, item.id);
    var at := if to < |items| then to else |items|;
    assert |a| == |b|;
    forall i | 0 <= i < |a|
      ensures a[i] == b[i]
    {
      if i < at {
        assert inserted[i] == items[i];
      } else if i > at {
        assert inserted[i] == items[i - 1];
      }
    }
  }

  /** Taking the ids of the moved list is moving the id in the list of ids. */
  lemma IdsOfMove(items: seq<Group>, from: nat, to: nat, item: Group)
    ensures Ids(Move(items, from, to, item)) == Move(Ids(items), from, to, item.id)
  {
    IdsOfRemove(items, from);
    IdsOfInsert(SpliceRemove(items, from), to, item);
  }

  /** The submitted ids are a permutation of the ids before the drop,
      whenever the dragged item is the one at the source offset. */
  lemma MoveKeepsIds(items: seq<Group>, from: nat, to: nat, item: Group)
    requires from < |items| && items[from].id == item.id
    ensures multiset(Ids(Move(items, from, to, item))) == multiset(Ids(items))
  {
    IdsOfMove(items, from, to, item);
    MoveIsPermutation(Ids(items), from, to);
  }

  /** Within bounds, the moved item ends at the destination offset and the
      other items keep their relative order: taking it out again gives the
      list with it taken out of its source offset. */
  lemma MoveLandsAtDestination(items: seq<Group>, from: nat, to: nat, item: Group)
    requires from < |items| && to < |items|
    ensures Move(items, from, to, item)[to] == item
    ensures SpliceRemove(Move(items, from, to, item), to) == SpliceRemove(items, from)
  {
    var rest := SpliceRemove(items, from);
    var moved := Move(items, from, to, item);
    assert |moved| == |items|;
    var back := SpliceRemove(moved, to);
    assert |back| == |rest|;
    forall i | 0 <= i < |rest|
      ensures back[i] == rest[i]
    {
    }
  }

  /** Dragging the item back to where it came from restores the list. */
  lemma MoveBackRestores(items: seq<Group>, from: nat, to: nat)
    requires from < |items| && to < |items|
    ensures Move(Move(items, from, to, items[from]), to, from, items[from]) == items
  {
    var item := items[from];
    var moved := Move(items, from, to, item);
    MoveLandsAtDestination(items, from, to, item);
    var back := Move(moved, to, from, item);
    assert SpliceRemove(moved, to) == SpliceRemove(items, from);
    assert |back| == |items|;
    forall i | 0 <= i < |items|
      ensures back[i] == items[i]
    {
    }
  }

  /** With unique ids, the item found by id is the one at the source offset. */
  lemma FindIsAtSource(items: seq<Group>, from: nat, id: string)
    requires UniqueIds(items) && from < |items| && items[from].id == id
    ensures Find(items, id) == Some(items[from])
  {
    var k := FindIndex(items, id);
    assert k <= from;
  }

  /** The state `handleDragEnd` works on: the list cached by the
      `section.getWithLinks` query, which the handler rearranges itself. */
  class SectionsView {
    var data: seq<Group>

    constructor (fetched: seq<Group>)
      ensures data == fetched
    {
      data := fetched;
    }

    /** Returns the `newOrder` submitted to `section.reorder`, or `None`
        when the handler returns before submitting anything. */
    method HandleDragEnd(result: DropResult) returns (submitted: Option<seq<string>>)
      modifies this
      ensures IsIgnored(result) ==> data == old(data) && submitted.None?
      ensures !IsIgnored(result) && Find(old(data), result.draggableId).None? ==>
        data == old(data) && submitted.None?
      ensures !IsIgnored(result) && Find(old(data), result.draggableId).Some? ==>
        && data == Move(old(data), result.source.index, result.destination.value.index,
                        Find(old(data), result.draggableId).value)
        && submitted == Some(Ids(data))
    {
      if result.destination.None? {
        return None;
      }
      var destination := result.destination.value;
      if destination.droppableId == result.source.droppableId && destination.index == result.source.index {
        return None;
      }
      var item := Find(data, result.draggableId);
      if item.None? {
        return None;
      }
      data := SpliceRemove(data, result.source.index);
      data := SpliceInsert(data, destination.index, item.value);
      submitted := Some(Ids(data));
    }
  }

  /** A drop that the library reports consistently (the source offset holds
      the dragged group) and that is not ignored submits every id exactly as
      often as before, with the dragged group at the destination. */
  lemma DropSubmitsPermutation(items: seq<Group>, result: DropResult)
    requires !IsIgnored(result) && UniqueIds(items)
    requires result.source.index < |items| && items[result.source.index].id == result.draggableId
    ensures Find(items, result.draggableId) == Some(items[result.source.index])
    ensures var moved := Move(items, result.source.index, result.destination.value.index, items[result.source.index]);
      && multiset(Ids(moved)) == multiset(Ids(items))
      && (result.destination.value.index < |items| ==>
            moved[result.destination.value.index] == items[result.source.index])
  {
    var from, to := result.source.index, result.destination.value.index;
    FindIsAtSource(items, from, result.draggableId);
    MoveKeepsIds(items, from, to, items[from]);
    if to < |items| {
      MoveLandsAtDestination(items, from, to, items[from]);
    }
  }
}
