/**
 * The two drag-and-drop reordering front ends: ListViewReorderer, a component
 * attached to a ListView that raises a Reorder event, and ListViewEx, a
 * ListView subclass that reorders silently. Both own the list's items and
 * selection; the geometry of a drop (positions, heights) comes in as
 * parameters.
 */
module ListViews {
  import opened Wrappers
  import opened Seqs
  import opened ListReorder

  /** ListViewReorderEventArgs: the items moved, in move order, and the normalised index. */
  datatype ListViewReorderEventArgs = ListViewReorderEventArgs(items: seq<Item>, index: int)

  /**
   * What one MoveSelectedTo(index) leaves behind: the new list and whether
   * every Insert succeeded.
   */
  predicate MovedTo(before: seq<Item>, sel: set<Item>, index: int, after: seq<Item>, ok: bool)
    requires Distinct(before)
  {
    var t := NormalizeIndex(index, |before|);
    if Only(before, sel) == [] then ok && after == before
    else if 0 <= t <= |before| then ok && after == Moved(before, sel, t)
    else !ok && after == RemoveAt(before, FirstSelected(before, sel))
  }

  /** Whatever MoveSelectedTo does, the list stays free of duplicates. */
  lemma MovedToDistinct(before: seq<Item>, sel: set<Item>, index: int, after: seq<Item>, ok: bool)
    requires Distinct(before) && MovedTo(before, sel, index, after, ok)
    ensures Distinct(after)
  {
    var t := NormalizeIndex(index, |before|);
    if Only(before, sel) != [] {
      if 0 <= t <= |before| {
        MovedDistinct(before, sel, t);
      } else {
        RemoveAtDistinct(before, FirstSelected(before, sel));
      }
    }
  }

  /**
   * A move that succeeds permutes the list; one that throws has lost exactly
   * the first selected item, which was removed before the failing Insert.
   */
  lemma MovedToItems(before: seq<Item>, sel: set<Item>, index: int, after: seq<Item>, ok: bool)
    requires Distinct(before) && MovedTo(before, sel, index, after, ok)
    ensures ok ==> multiset(after) == multiset(before)
    ensures !ok ==>
      Only(before, sel) != [] && multiset(after) + multiset{Only(before, sel)[0]} == multiset(before)
  {
    var t := NormalizeIndex(index, |before|);
    if Only(before, sel) != [] {
      if 0 <= t <= |before| {
        MovedIsPermutation(before, sel, t);
      } else {
        RemoveAtMultiset(before, FirstSelected(before, sel));
      }
    }
  }

  class ListViewReorderer {
    /** View.Items, in display order. */
    var items: seq<Item>
    /** View.SelectedItems, as a set of items. */
    var selected: set<Item>
    /** Whether a Reorder handler is attached (`Reorder != null`). */
    var hasHandler: bool
    /** Every Reorder event raised so far, oldest first. */
    var raised: seq<ListViewReorderEventArgs>

    ghost predicate Valid()
      reads this
    {
      Distinct(items)
    }

    constructor(items: seq<Item>, selected: set<Item>, hasHandler: bool)
      requires Distinct(items)
      ensures Valid()
      ensures this.items == items && this.selected == selected && this.hasHandler == hasHandler
      ensures raised == []
    {
      this.items := items;
      this.selected := selected;
      this.hasHandler := hasHandler;
      raised := [];
    }

    /**
     * MoveSelectedTo(index): moves the selection to the index (negative
     * counts from after the end) and, when every Insert succeeded and a
     * handler is attached, raises Reorder with the moved items and the
     * normalised index. `ok` is false when an Insert threw.
     */
    method MoveSelectedTo(index: int) returns (ok: bool)
      requires Valid()
      modifies this
      ensures Valid()
      ensures MovedTo(old(items), old(selected), index, items, ok)
      ensures selected == old(selected) && hasHandler == old(hasHandler)
      ensures raised == old(raised) +
        if ok && hasHandler
        then [ListViewReorderEventArgs(Only(old(items), selected), NormalizeIndex(index, |old(items)|))]
        else []
    {
      var t := NormalizeIndex(index, |items|);
      var before := items;
      var result, moved;
      result, moved, ok := MoveSelected(items, selected, index);
      MovedToDistinct(before, selected, index, result, ok);
      items := result;
      if ok && hasHandler {
        raised := raised + [ListViewReorderEventArgs(moved, t)];
      }
    }

    /**
     * OnDragDrop: the drop point's Y, the item GetItemAt found there and the
     * first item's Y decide the target index, then MoveSelectedTo runs.
     * `ok` is false when Items[0] throws on an empty list or an Insert throws.
     */
    method OnDragDrop(target: Option<ItemBounds>, pointY: int, firstItemY: int) returns (ok: bool)
      requires Valid()
      modifies this
      ensures Valid()
      ensures selected == old(selected) && hasHandler == old(hasHandler)
      ensures match DropIndex(if old(items) == [] then None else Some(firstItemY), target, pointY)
        case None => !ok && items == old(items) && raised == old(raised)
        case Some(index) =>
          MovedTo(old(items), old(selected), index, items, ok)
          && raised == old(raised) +
            if ok && hasHandler
            then [ListViewReorderEventArgs(Only(old(items), selected), NormalizeIndex(index, |old(items)|))]
            else []
    {
      var drop := DropIndex(if items == [] then None else Some(firstItemY), target, pointY);
      match drop
      case None =>
        ok := false;
      case Some(index) =>
        ok := MoveSelectedTo(index);
    }
  }

  class ListViewEx {
    /** Items, in display order. */
    var items: seq<Item>
    /** SelectedItems, as a set of items. */
    var selected: set<Item>

    ghost predicate Valid()
      reads this
    {
      Distinct(items)
    }

    constructor(items: seq<Item>, selected: set<Item>)
      requires Distinct(items)
      ensures Valid()
      ensures this.items == items && this.selected == selected
    {
      this.items := items;
      this.selected := selected;
    }

    /** MoveSelectedTo(index): the same move as ListViewReorderer's, without an event. */
    method MoveSelectedTo(index: int) returns (ok: bool)
      requires Valid()
      modifies this
      ensures Valid()
      ensures MovedTo(old(items), old(selected), index, items, ok)
      ensures selected == old(selected)
    {
      var before := items;
      var result, moved;
      result, moved, ok := MoveSelected(items, selected, index);
      MovedToDistinct(before, selected, index, result, ok);
      items := result;
    }

    /** OnDragDrop: the same choice of target as ListViewReorderer's. */
    method OnDragDrop(target: Option<ItemBounds>, pointY: int, firstItemY: int) returns (ok: bool)
      requires Valid()
      modifies this
      ensures Valid()
      ensures selected == old(selected)
      ensures match DropIndex(if old(items) == [] then None else Some(firstItemY), target, pointY)
        case None => !ok && items == old(items)
        case Some(index) => MovedTo(old(items), old(selected), index, items, ok)
    {
      var drop := DropIndex(if items == [] then None else Some(firstItemY), target, pointY);
      match drop
      case None =>
        ok := false;
      case Some(index) =>
        ok := MoveSelectedTo(index);
    }
  }
}
