/** The tree store: a flat, ordered array of items linked by parent ids,
    with an id-to-item map rebuilt whenever the array is replaced. */
module TreeStore {
  import opened Types
  import opened StoreModel

  class Index {
    /** The items, in insertion order. */
    var items: seq<Item>
    /** The derived id-to-item map; it holds no state of its own. */
    var itemsMapping: map<Id, Item>

    /** The map is the one rebuilt from the current array. */
    ghost predicate Valid()
      reads this
    {
      itemsMapping == IdMap(items)
    }

    /** The store takes the given array as it is; nothing is checked. */
    constructor (initial: seq<Item>)
      ensures Valid() && items == initial
    {
      items := initial;
      itemsMapping := map[];
      new;
      BuildIdMap();
    }

    /** Clears the map and enters every item in array order. */
    method BuildIdMap()
      modifies this`itemsMapping
      ensures Valid()
    {
      itemsMapping := map[];
      for i := 0 to |items|
        invariant itemsMapping == IdMap(items[..i])
      {
        assert items[..i + 1][..i] == items[..i];
        itemsMapping := itemsMapping[items[i].id := items[i]];
      }
      assert items[..|items|] == items;
    }

    /** Replaces the array and rebuilds the map. */
    method SetWorkData(newItems: seq<Item>)
      modifies this
      ensures items == newItems && Valid()
    {
      items := newItems;
      BuildIdMap();
    }

    /** The current array. */
    function GetAll(): seq<Item>
      reads this
    {
      items
    }

    /** The item stored under `id`, or `None`. */
    function GetItem(id: Id): (r: Option<Item>)
      reads this
      requires Valid()
      ensures r == Lookup(items, id)
    {
      IdMapAgrees(items, id);
      if id in itemsMapping then Some(itemsMapping[id]) else None
    }

    /** The items whose parent is `id`, in array order. */
    function GetChildren(id: Id): (r: seq<Item>)
      reads this
      ensures forall x :: x in r <==> x in items && x.parent == Some(id)
    {
      Children(items, id)
    }

    /** All transitive descendants of `id`. A stack starts with the children
        of `id`; each step pops the top item, emits it and pushes its own
        children in array order. */
    method GetAllChildren(id: Id) returns (allChildren: seq<Item>)
      requires Acyclic(items)
      ensures allChildren == AllChildren(items, id)
    {
      allChildren := [];
      var stack := GetChildren(id);
      while |stack| > 0
        invariant allChildren + Subtrees(items, stack) == AllChildren(items, id)
        decreases |Subtrees(items, stack)|
      {
        SubtreesPop(items, stack);
        ghost var emitted := allChildren;
        var child := stack[|stack| - 1];
        stack := stack[..|stack| - 1];
        allChildren := allChildren + [child];
        var grandchildren := GetChildren(child.id);
        stack := stack + grandchildren;
        ConcatAssoc(emitted, [child], Subtrees(items, stack));
      }
    }

    /** The chain from the furthest reachable ancestor down to the item
        stored under `id`; empty when `id` does not resolve. Each step
        resolves the current item's parent id and puts that item in front. */
    method GetAllParents(id: Id) returns (result: seq<Item>)
      requires Valid() && Acyclic(items)
      ensures result == AllParents(items, id)
    {
      var found := GetItem(id);
      if found.None? {
        return [];
      }
      var currentItem := found.value;
      result := [currentItem];
      ghost var above: seq<Item> := [];
      while currentItem.parent.Some?
        invariant currentItem in items
        invariant result == [currentItem] + above
        invariant Ancestors(items, currentItem) + above == Ancestors(items, found.value)
        decreases RankBound(items, items) - Rank(items)(currentItem.id)
      {
        var parentItem := GetItem(currentItem.parent.value);
        if parentItem.None? {
          break;
        }
        RankDrops(items, currentItem, currentItem.parent.value);
        RankBelowTop(items, currentItem);
        RankBelowTop(items, parentItem.value);
        AncestorsStep(items, currentItem, parentItem.value);
        ConcatAssoc(Ancestors(items, parentItem.value), [currentItem], above);
        above := result;
        result := [parentItem.value] + result;
        currentItem := parentItem.value;
      }
      AncestorsTop(items, currentItem);
    }

    /** Appends `item`; no id is checked for duplicates. */
    method AddItem(item: Item)
      modifies this
      ensures Valid() && items == old(items) + [item]
    {
      SetWorkData(items + [item]);
    }

    /** Deletes the item stored under `id` and every descendant of `id`:
        every item whose id is one of theirs goes. When there is nothing
        to delete the array is left as it is. */
    method RemoveItem(id: Id)
      requires Valid() && Acyclic(items)
      modifies this
      ensures Valid()
      ensures items == Without(old(items), RemovalIds(old(items), id))
      ensures Acyclic(items)
    {
      RemovalCascades(items, id);
      var self := GetItem(id);
      var descendants := GetAllChildren(id);
      var idsToRemove := (if self.Some? then {self.value.id} else {})
        + set c | c in descendants :: c.id;
      if idsToRemove == {} {
        WithoutNothing(items);
        return;
      }
      SetWorkData(Without(items, idsToRemove));
    }

    /** Replaces, at its position, the first item whose id is that of
        `updatedItem`; when no item has that id nothing changes. */
    method UpdateItem(updatedItem: Item)
      requires Valid()
      modifies this
      ensures Valid()
      ensures var i := FindIndex(old(items), updatedItem.id);
        items == if i < 0 then old(items) else old(items)[i := updatedItem]
    {
      var index := FindIndex(items, updatedItem.id);
      if index != -1 {
        var newItems := items[index := updatedItem];
        SetWorkData(newItems);
      }
    }
  }
}
