/**
 * The items screen: the client-side search over item names, the selection
 * of up to five items to compare, and the item whose price history is shown.
 *
 * A JavaScript `Set` iterates in insertion order, and the compared names are
 * read from it in that order, so the selection is a list without repeats.
 * Rendering and the price-history queries are not part of this model.
 */
module ItemsContent {
  import opened Wrappers
  import opened Text
  import opened Lists
  import opened Items

  /** How many items can be compared at once: one price-history query per slot. */
  const MaxCompared := 5

  // ---------------------------------------------------------------------
  // Search

  /** `item.name.toLowerCase().includes(lower)`. */
  predicate NameMatches(s: Summary, lower: string) {
    Contains(ToLower(s.name), lower)
  }

  /** `filteredItems`: everything for an empty search, else the items whose name contains it, ignoring case. */
  function FilteredItems(items: seq<Summary>, search: string): (r: seq<Summary>)
    ensures search == "" ==> r == items
    ensures search != "" ==> forall i | 0 <= i < |r| :: r[i] in items && Contains(ToLower(r[i].name), ToLower(search))
    ensures search != "" ==> forall i | 0 <= i < |items| && Contains(ToLower(items[i].name), ToLower(search)) :: items[i] in r
  {
    if search == "" then items else Filter(items, (s: Summary) => NameMatches(s, ToLower(search)))
  }

  /** The search keeps the list's order: searching two lists one after the other searches each. */
  lemma FilteredItemsInOrder(a: seq<Summary>, b: seq<Summary>, search: string)
    ensures FilteredItems(a + b, search) == FilteredItems(a, search) + FilteredItems(b, search)
  {
    if search != "" {
      FilterAppend(a, b, (s: Summary) => NameMatches(s, ToLower(search)));
    }
  }

  /** Typing an item's full name, in any case, finds that item. */
  lemma FullNameFound(items: seq<Summary>, search: string, i: nat)
    requires i < |items| && ToLower(items[i].name) == ToLower(search)
    ensures items[i] in FilteredItems(items, search)
  {
    ContainsSelf(ToLower(search));
  }

  // ---------------------------------------------------------------------
  // Selection

  /** No name occurs twice: the list is the iteration order of a `Set`. */
  predicate NoRepeats(s: seq<string>) {
    forall i, j | 0 <= i < j < |s| :: s[i] != s[j]
  }

  /** `set.delete(x)`: every other name stays, in its order. */
  function Removed(s: seq<string>, x: string): (r: seq<string>)
    ensures |r| <= |s|
    ensures x !in r
    ensures forall y | y != x :: y in r <==> y in s
  {
    Filter(s, (y: string) => y != x)
  }

  /** Deleting a name from a list without repeats leaves a list without repeats. */
  lemma {:induction false} RemovedNoRepeats(s: seq<string>, x: string)
    requires NoRepeats(s)
    ensures NoRepeats(Removed(s, x))
  {
    if s != [] {
      var front := s[..|s| - 1];
      var last := s[|s| - 1];
      assert s == front + [last];
      RemovedNoRepeats(front, x);
      FilterAppend(front, [last], (y: string) => y != x);
      FilterOne(last, (y: string) => y != x);
      assert last !in front;
      assert last !in Removed(front, x);
    }
  }

  /** Deleting a name that was just added gives the list back. */
  lemma RemovedAdded(s: seq<string>, x: string)
    requires x !in s
    ensures Removed(s + [x], x) == s
  {
    FilterAppend(s, [x], (y: string) => y != x);
    FilterOne(x, (y: string) => y != x);
    FilterAll(s, (y: string) => y != x);
  }

  /**
   * The selection after `toggleSelect(name)`: a selected name leaves; an unselected one joins,
   * at the end, only while fewer than five are selected; every other name stays.
   */
  function Toggled(sel: seq<string>, name: string): (r: seq<string>)
    ensures name in r <==> name !in sel && |sel| < MaxCompared
    ensures forall x | x != name :: x in r <==> x in sel
    ensures |sel| <= MaxCompared ==> |r| <= MaxCompared
  {
    if name in sel then Removed(sel, name)
    else if |sel| < MaxCompared then sel + [name]
    else sel
  }

  /** Toggling keeps the selection free of repeats. */
  lemma ToggledNoRepeats(sel: seq<string>, name: string)
    requires NoRepeats(sel)
    ensures NoRepeats(Toggled(sel, name))
  {
    if name in sel {
      RemovedNoRepeats(sel, name);
    }
  }

  /** Toggling an unselected name twice gives the selection back, whether or not there was room for it. */
  lemma ToggledTwice(sel: seq<string>, name: string)
    requires name !in sel
    ensures Toggled(Toggled(sel, name), name) == sel
  {
    if |sel| < MaxCompared {
      RemovedAdded(sel, name);
    }
  }

  // ---------------------------------------------------------------------
  // The shown item

  /** The shown item after a click on `name`: clicking the shown item hides it, any other shows it. */
  function Clicked(active: Option<string>, name: string): (r: Option<string>)
    ensures r.None? <==> active == Some(name)
    ensures r.Some? ==> r.value == name
  {
    if active == Some(name) then None else Some(name)
  }

  /** Two clicks on `name` restore the shown item exactly when nothing or `name` itself was shown. */
  lemma ClickedTwice(active: Option<string>, name: string)
    ensures Clicked(Clicked(active, name), name) == active <==> active.None? || active == Some(name)
  {
  }

  // ---------------------------------------------------------------------
  // The screen's state

  class Screen {
    var search: string
    var selectedItems: seq<string>
    var compareMode: bool
    var activeItem: Option<string>

    /** At most five names are selected, none twice. */
    predicate Valid()
      reads this
    {
      |selectedItems| <= MaxCompared && NoRepeats(selectedItems)
    }

    constructor ()
      ensures Valid()
      ensures search == "" && selectedItems == [] && !compareMode && activeItem == None
    {
      search := "";
      selectedItems := [];
      compareMode := false;
      activeItem := None;
    }

    /** `toggleSelect`: copy the set, delete the name if present, else add it if there is room, store the copy. */
    method ToggleSelect(name: string)
      requires Valid()
      modifies this`selectedItems
      ensures Valid()
      ensures selectedItems == Toggled(old(selectedItems), name)
    {
      var next := selectedItems;
      if name in next {
        next := Removed(next, name);
      } else if |next| < MaxCompared {
        next := next + [name];
      }
      ToggledNoRepeats(selectedItems, name);
      selectedItems := next;
    }

    /** `handleItemClick`: the click toggles the shown item, in compare mode as well. */
    method HandleItemClick(name: string)
      modifies this`activeItem
      ensures activeItem == Clicked(old(activeItem), name)
    {
      if activeItem == Some(name) {
        activeItem := None;
      } else {
        activeItem := Some(name);
      }
    }

    /** `startCompare`: enter compare mode and hide the shown item; the selection is kept. */
    method StartCompare()
      modifies this`compareMode, this`activeItem
      ensures compareMode && activeItem == None
    {
      compareMode := true;
      activeItem := None;
    }

    /** `exitCompare`: leave compare mode and clear the selection; the shown item is kept. */
    method ExitCompare()
      modifies this`compareMode, this`selectedItems
      ensures Valid()
      ensures !compareMode && selectedItems == []
    {
      compareMode := false;
      selectedItems := [];
    }
  }
}
