/**
 * The dialog that assigns custom categories to one entry
 * (src/components/CategorySelector.js): the selection starts as the entry's
 * current categories, checkboxes toggle ids in and out of it, and saving
 * sends one `assign-category` per newly selected id and then one
 * `remove-category` per deselected id.
 */
module CategorySelection {
  import opened Ordering
  import opened Schema
  import Operations
  import MainProcess

  /** `handleToggle(categoryId)`: drops every occurrence of a selected id, appends an unselected one. */
  function Toggle(selected: seq<int>, categoryId: int): (r: seq<int>)
    ensures categoryId in r <==> categoryId !in selected
    ensures forall x | x != categoryId :: x in r <==> x in selected
  {
    if categoryId in selected then Filter(selected, (x: int) => x != categoryId) else selected + [categoryId]
  }

  /** Toggling the same checkbox twice restores which ids are selected. */
  lemma ToggleTwice(selected: seq<int>, categoryId: int)
    ensures forall x :: x in Toggle(Toggle(selected, categoryId), categoryId) <==> x in selected
  {
  }

  /** A selection without duplicates keeps none after a toggle. */
  lemma {:induction false} ToggleKeepsDistinct(selected: seq<int>, categoryId: int)
    requires Distinct(selected)
    ensures Distinct(Toggle(selected, categoryId))
  {
    if categoryId in selected {
      FilterDistinct(selected, (x: int) => x != categoryId);
    } else {
      var r := selected + [categoryId];
      forall i, j | 0 <= i < j < |r| ensures r[i] != r[j] {
        if j == |selected| {
          assert r[i] in selected;
        }
      }
    }
  }

  /** `currentCategories.map(c => c.id)`. */
  function Ids(categories: seq<Category>): (r: seq<int>)
    ensures |r| == |categories| && forall i | 0 <= i < |r| :: r[i] == categories[i].id
  {
    seq(|categories|, i requires 0 <= i < |categories| => categories[i].id)
  }

  /** `toAdd`: the selected ids the entry does not have yet, in selection order. */
  function ToAdd(selected: seq<int>, currentIds: seq<int>): (r: seq<int>)
    ensures forall x :: x in r <==> x in selected && x !in currentIds
  {
    Filter(selected, (x: int) => x !in currentIds)
  }

  /** `toRemove`: the current ids no longer selected, in their current order. */
  function ToRemove(selected: seq<int>, currentIds: seq<int>): (r: seq<int>)
    ensures forall x :: x in r <==> x in currentIds && x !in selected
  {
    Filter(currentIds, (x: int) => x !in selected)
  }

  /** Nothing is both added and removed, and an unchanged selection sends no call at all. */
  lemma AddRemoveDisjoint(selected: seq<int>, currentIds: seq<int>)
    ensures forall x | x in ToAdd(selected, currentIds) :: x !in ToRemove(selected, currentIds)
    ensures (forall x :: x in selected <==> x in currentIds) ==>
      ToAdd(selected, currentIds) == [] && ToRemove(selected, currentIds) == []
  {
    if forall x :: x in selected <==> x in currentIds {
      FilterNone(selected, (x: int) => x !in currentIds);
      FilterNone(currentIds, (x: int) => x !in selected);
    }
  }

  /** The ids linked to `entryId`. */
  function LinkedIds(t: Tables, entryId: int): set<int> {
    set l | l in t.links && l.0 == entryId :: l.1
  }

  /** The `assign-category` calls for `ids`, one after another. */
  function AssignAll(t: Tables, entryId: int, ids: seq<int>): (r: Tables)
    ensures r.entries == t.entries && r.categories == t.categories
    ensures r.nextEntryId == t.nextEntryId && r.nextCategoryId == t.nextCategoryId
    ensures r.links == t.links + set id | id in ids && entryId in t.entries && id in t.categories :: (entryId, id)
  {
    if ids == [] then t
    else
      var prefix := ids[..|ids| - 1];
      var last := ids[|ids| - 1];
      assert ids == prefix + [last];
      Operations.AssignCategory(AssignAll(t, entryId, prefix), entryId, last).0
  }

  /** The `remove-category` calls for `ids`, one after another. */
  function RemoveAll(t: Tables, entryId: int, ids: seq<int>): (r: Tables)
    ensures r.entries == t.entries && r.categories == t.categories
    ensures r.nextEntryId == t.nextEntryId && r.nextCategoryId == t.nextCategoryId
    ensures r.links == t.links - set id | id in ids :: (entryId, id)
  {
    if ids == [] then t
    else
      var prefix := ids[..|ids| - 1];
      var last := ids[|ids| - 1];
      assert ids == prefix + [last];
      Operations.RemoveCategory(RemoveAll(t, entryId, prefix), entryId, last)
  }

  /** What `handleSave` does to the store: the additions, then the removals. */
  function Save(t: Tables, entryId: int, selected: seq<int>, currentIds: seq<int>): (r: Tables)
    ensures r.entries == t.entries && r.categories == t.categories
    ensures r.nextEntryId == t.nextEntryId && r.nextCategoryId == t.nextCategoryId
    ensures forall x | x in selected && x !in currentIds && entryId in t.entries && x in t.categories ::
      (entryId, x) in r.links
    ensures forall x | x in currentIds && x !in selected :: (entryId, x) !in r.links
    ensures forall l: (int, int) | l.0 != entryId :: l in r.links <==> l in t.links
  {
    RemoveAll(AssignAll(t, entryId, ToAdd(selected, currentIds)), entryId, ToRemove(selected, currentIds))
  }

  /**
   * When the dialog opened on the entry's actual categories and every selected
   * category still exists, saving links the entry to exactly the selected
   * categories, and no other entry's links change.
   */
  lemma SaveLinksSelection(t: Tables, entryId: int, selected: seq<int>, currentIds: seq<int>)
    requires entryId in t.entries
    requires forall x :: x in currentIds <==> x in LinkedIds(t, entryId)
    requires forall x | x in selected :: x in t.categories
    ensures forall x :: x in LinkedIds(Save(t, entryId, selected, currentIds), entryId) <==> x in selected
    ensures forall l: (int, int) | l.0 != entryId :: l in Save(t, entryId, selected, currentIds).links <==> l in t.links
  {
    var r := Save(t, entryId, selected, currentIds);
    forall x ensures x in LinkedIds(r, entryId) <==> x in selected {
      if x in selected {
        assert (entryId, x) in r.links;
      }
      if x in LinkedIds(r, entryId) {
        assert (entryId, x) in r.links;
        if (entryId, x) in t.links {
          assert x in LinkedIds(t, entryId);
        }
      }
    }
  }

  /** The dialog's state. */
  class CategorySelector {
    var open: bool
    var entryId: int
    var currentCategories: seq<Category>
    var selectedCategories: seq<int>

    constructor ()
      ensures !open && currentCategories == [] && selectedCategories == []
    {
      open := false;
      entryId := 0;
      currentCategories := [];
      selectedCategories := [];
    }

    /** Opening on an entry: the selection starts as the ids of its current categories. */
    method Open(entry: int, current: seq<Category>)
      modifies this
      ensures open && entryId == entry && currentCategories == current && selectedCategories == Ids(current)
    {
      open := true;
      entryId := entry;
      currentCategories := current;
      selectedCategories := Ids(current);
    }

    method HandleToggle(categoryId: int)
      modifies this
      ensures selectedCategories == Toggle(old(selectedCategories), categoryId)
      ensures open == old(open) && entryId == old(entryId) && currentCategories == old(currentCategories)
    {
      if categoryId in selectedCategories {
        selectedCategories := Filter(selectedCategories, (x: int) => x != categoryId);
      } else {
        selectedCategories := selectedCategories + [categoryId];
      }
    }

    /**
     * `handleSave`: one `assign-category` per id in `toAdd`, then one
     * `remove-category` per id in `toRemove`, then the dialog closes.
     */
    method HandleSave(main: MainProcess.MainState)
      requires main.Valid()
      modifies this, main.db
      ensures main.Valid()
      ensures main.db != null ==>
        main.db.State() == Save(old(main.db.State()), entryId, old(selectedCategories), Ids(old(currentCategories)))
      ensures !open && entryId == old(entryId) && selectedCategories == old(selectedCategories)
      ensures currentCategories == old(currentCategories)
    {
      var currentIds := Ids(currentCategories);
      ApplyAssigns(main, entryId, ToAdd(selectedCategories, currentIds));
      ApplyRemoves(main, entryId, ToRemove(selectedCategories, currentIds));
      open := false;
    }
  }

  /** `for (const categoryId of toAdd) await ipcRenderer.invoke('assign-category', entryId, categoryId)`. */
  method ApplyAssigns(main: MainProcess.MainState, entryId: int, ids: seq<int>)
    requires main.Valid()
    modifies main.db
    ensures main.Valid()
    ensures main.db != null ==> main.db.State() == AssignAll(old(main.db.State()), entryId, ids)
  {
    ghost var t0 := if main.db != null then main.db.State() else EmptyTables();
    var i := 0;
    while i < |ids|
      invariant 0 <= i <= |ids|
      invariant main.Valid()
      invariant main.db != null ==> main.db.State() == AssignAll(t0, entryId, ids[..i])
    {
      assert ids[..i + 1][..i] == ids[..i];
      var _ := main.HandleAssignCategory(entryId, ids[i]);
      i := i + 1;
    }
    assert ids[..|ids|] == ids;
  }

  /** `for (const categoryId of toRemove) await ipcRenderer.invoke('remove-category', entryId, categoryId)`. */
  method ApplyRemoves(main: MainProcess.MainState, entryId: int, ids: seq<int>)
    requires main.Valid()
    modifies main.db
    ensures main.Valid()
    ensures main.db != null ==> main.db.State() == RemoveAll(old(main.db.State()), entryId, ids)
  {
    ghost var t0 := if main.db != null then main.db.State() else EmptyTables();
    var i := 0;
    while i < |ids|
      invariant 0 <= i <= |ids|
      invariant main.Valid()
      invariant main.db != null ==> main.db.State() == RemoveAll(t0, entryId, ids[..i])
    {
      assert ids[..i + 1][..i] == ids[..i];
      var _ := main.HandleRemoveCategory(entryId, ids[i]);
      i := i + 1;
    }
    assert ids[..|ids|] == ids;
  }
}
