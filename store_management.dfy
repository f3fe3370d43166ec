/** The parent's reward-catalogue editor (src/components/StoreManagement.tsx): a list of
    items edited on screen, one of them expanded, and the reward-item table the list is
    saved to. Edits and additions change only the on-screen list until it is saved; a
    delete, once confirmed, removes the item from both. */
module StoreManagement {
  import opened Records

  /** The fields the editor's inputs change, each with its new value; the cost arrives as
      the number `Number(value)` makes of the input's text. */
  datatype FieldEdit = EditName(name: string) | EditDescription(description: string)
                     | EditImage(image: string) | EditCost(cost: int)

  /** `{ ...item, [field]: value }`. */
  function ApplyEdit(item: RewardItem, e: FieldEdit): RewardItem {
    match e
    case EditName(v) => item.(name := v)
    case EditDescription(v) => item.(description := v)
    case EditImage(v) => item.(image := v)
    case EditCost(v) => item.(cost := v)
  }

  /** The edit sets the named field and leaves every other field, the id included, as it was. */
  lemma ApplyEditOnlyThatField(item: RewardItem, e: FieldEdit)
    ensures var r := ApplyEdit(item, e);
      r.id == item.id
      && (e.EditName? ==> r.name == e.name && r.(name := item.name) == item)
      && (e.EditDescription? ==> r.description == e.description && r.(description := item.description) == item)
      && (e.EditImage? ==> r.image == e.image && r.(image := item.image) == item)
      && (e.EditCost? ==> r.cost == e.cost && r.(cost := item.cost) == item)
  {
  }

  /** `handleChange(id, field, value)` on the list. */
  function ChangeItem(items: seq<RewardItem>, id: nat, e: FieldEdit): (r: seq<RewardItem>)
    ensures |r| == |items|
  {
    seq(|items|, i requires 0 <= i < |items| => if items[i].id == id then ApplyEdit(items[i], e) else items[i])
  }

  /** A change keeps the list's length, order and ids; only the items with that id are
      edited; and making the same change twice is making it once. */
  lemma ChangeItemEffect(items: seq<RewardItem>, id: nat, e: FieldEdit)
    ensures var r := ChangeItem(items, id, e);
      (forall i :: 0 <= i < |items| ==> r[i].id == items[i].id)
      && (forall i :: 0 <= i < |items| && items[i].id != id ==> r[i] == items[i])
      && (forall i :: 0 <= i < |items| && items[i].id == id ==> r[i] == ApplyEdit(items[i], e))
      && ChangeItem(r, id, e) == r
  {
    var r := ChangeItem(items, id, e);
    forall i | 0 <= i < |items| ensures r[i].id == items[i].id {
      ApplyEditOnlyThatField(items[i], e);
    }
    forall i | 0 <= i < |items| ensures ChangeItem(r, id, e)[i] == r[i] {
      ApplyEditOnlyThatField(items[i], e);
    }
  }

  /** `items.filter(item => item.id !== id)`. */
  function DeleteItem(items: seq<RewardItem>, id: nat): (r: seq<RewardItem>)
    ensures |r| <= |items|
    decreases |items|
  {
    if items == [] then []
    else
      var last := items[|items| - 1];
      DeleteItem(items[..|items| - 1], id) + (if last.id == id then [] else [last])
  }

  /** The list after a delete holds exactly the items with another id. */
  lemma {:induction false} DeleteItemMembers(items: seq<RewardItem>, id: nat)
    ensures forall x :: x in DeleteItem(items, id) <==> x in items && x.id != id
    decreases |items|
  {
    if items != [] {
      var p := items[..|items| - 1];
      var last := items[|items| - 1];
      DeleteItemMembers(p, id);
      assert items == p + [last];
    }
  }

  /** Deleting keeps the other items in order: deleting from the two halves of a list
      and joining them is deleting from the list. */
  lemma {:induction false} DeleteItemAppend(a: seq<RewardItem>, b: seq<RewardItem>, id: nat)
    ensures DeleteItem(a + b, id) == DeleteItem(a, id) + DeleteItem(b, id)
    decreases |b|
  {
    if b == [] {
      assert a + b == a;
    } else {
      var b' := b[..|b| - 1];
      assert (a + b)[..|a + b| - 1] == a + b';
      DeleteItemAppend(a, b', id);
    }
  }

  /** A list without that id is left as it is. */
  lemma {:induction false} DeleteAbsentItem(items: seq<RewardItem>, id: nat)
    requires forall i :: 0 <= i < |items| ==> items[i].id != id
    ensures DeleteItem(items, id) == items
    decreases |items|
  {
    if items != [] {
      var p := items[..|items| - 1];
      var last := items[|items| - 1];
      DeleteAbsentItem(p, id);
      assert items == p + [last];
    }
  }

  /** The blank item `handleAdd` appends. */
  function BlankItem(newId: nat): RewardItem {
    RewardItem(newId, "", "", "", 0)
  }

  /** Deleting a just-added item with a fresh id gives the list back as it was. */
  lemma DeleteUndoesAdd(items: seq<RewardItem>, newId: nat)
    requires forall i :: 0 <= i < |items| ==> items[i].id != newId
    ensures DeleteItem(items + [BlankItem(newId)], newId) == items
  {
    DeleteItemAppend(items, [BlankItem(newId)], newId);
    DeleteAbsentItem(items, newId);
    assert DeleteItem([BlankItem(newId)], newId) == DeleteItem([], newId);
  }

  /** `bulkPut(items)`: each item is put under its id in list order, so of two items with
      the same id the later one is kept. */
  function PutAll(table: map<nat, RewardItem>, items: seq<RewardItem>): (r: map<nat, RewardItem>)
    ensures table.Keys <= r.Keys
    decreases |items|
  {
    if items == [] then table
    else
      var last := items[|items| - 1];
      PutAll(table, items[..|items| - 1])[last.id := last]
  }

  /** After saving, the stored ids are the old ones plus the list's. */
  lemma {:induction false} PutAllKeys(table: map<nat, RewardItem>, items: seq<RewardItem>)
    ensures forall id :: id in PutAll(table, items) <==> id in table || exists i :: 0 <= i < |items| && items[i].id == id
    decreases |items|
  {
    if items != [] {
      var n := |items| - 1;
      var p := items[..n];
      PutAllKeys(table, p);
      forall id | id in PutAll(table, items) && id !in table
        ensures exists i :: 0 <= i < |items| && items[i].id == id
      {
        if id != items[n].id {
          var i :| 0 <= i < |p| && p[i].id == id;
          assert items[i].id == id;
        }
      }
      forall id, i | 0 <= i < |items| && items[i].id == id ensures id in PutAll(table, items) {
        if i < n { assert p[i].id == id; }
      }
    }
  }

  /** After saving, an item of the list is stored under its id unless a later item has
      the same id. */
  lemma {:induction false} PutAllStores(table: map<nat, RewardItem>, items: seq<RewardItem>, i: nat)
    requires i < |items| && forall j :: i < j < |items| ==> items[j].id != items[i].id
    ensures items[i].id in PutAll(table, items) && PutAll(table, items)[items[i].id] == items[i]
    decreases |items|
  {
    var n := |items| - 1;
    var p := items[..n];
    var last := items[n];
    assert PutAll(table, items) == PutAll(table, p)[last.id := last];
    if i < n {
      assert p[i] == items[i];
      PutAllStores(table, p, i);
      assert last.id != items[i].id;
    }
  }

  /** Saving leaves every id that no item of the list has with its stored item. */
  lemma {:induction false} PutAllKeepsUnlisted(table: map<nat, RewardItem>, items: seq<RewardItem>)
    ensures forall id :: id in table && (forall i :: 0 <= i < |items| ==> items[i].id != id) ==>
      PutAll(table, items)[id] == table[id]
    decreases |items|
  {
    if items != [] {
      var n := |items| - 1;
      var p := items[..n];
      PutAllKeepsUnlisted(table, p);
      forall id | id in table && (forall i :: 0 <= i < |items| ==> items[i].id != id)
        ensures PutAll(table, items)[id] == table[id]
      {
        assert items[n].id != id;
        assert forall i :: 0 <= i < |p| ==> p[i].id != id;
      }
    }
  }

  /** `expandedItemId === item.id ? null : item.id`: clicking a header folds the expanded
      item and expands any other. */
  function ToggleExpanded(expanded: Option<nat>, id: nat): (r: Option<nat>)
    ensures r == Some(id) <==> expanded != Some(id)
    ensures r.Some? ==> r == Some(id)
  {
    if expanded == Some(id) then None else Some(id)
  }

  class StoreEditor {
    /** The list shown on screen. */
    var items: seq<RewardItem>
    var expandedItemId: Option<nat>
    /** The reward-item table. */
    var stored: map<nat, RewardItem>

    constructor (table: map<nat, RewardItem>)
      ensures items == [] && expandedItemId == None && stored == table
    {
      items, expandedItemId, stored := [], None, table;
    }

    method HandleChange(id: nat, e: FieldEdit)
      modifies this
      ensures items == ChangeItem(old(items), id, e)
      ensures expandedItemId == old(expandedItemId) && stored == old(stored)
    {
      items := ChangeItem(items, id, e);
    }

    /** `handleDelete`: nothing unless confirmed; then the item leaves the table and the list. */
    method HandleDelete(id: nat, confirmed: bool)
      modifies this
      ensures !confirmed ==> items == old(items) && stored == old(stored)
      ensures confirmed ==> stored == old(stored) - {id} && items == DeleteItem(old(items), id)
      ensures expandedItemId == old(expandedItemId)
    {
      if !confirmed { return; }
      stored := stored - {id};
      items := DeleteItem(items, id);
    }

    /** `handleAdd`: a blank item at the end of the list, and that item expanded. */
    method HandleAdd(newId: nat)
      modifies this
      ensures items == old(items) + [BlankItem(newId)] && expandedItemId == Some(newId)
      ensures stored == old(stored)
    {
      items := items + [BlankItem(newId)];
      expandedItemId := Some(newId);
    }

    method HandleSave()
      modifies this
      ensures stored == PutAll(old(stored), old(items))
      ensures items == old(items) && expandedItemId == old(expandedItemId)
    {
      stored := PutAll(stored, items);
    }

    method ToggleItem(id: nat)
      modifies this
      ensures expandedItemId == ToggleExpanded(old(expandedItemId), id)
      ensures items == old(items) && stored == old(stored)
    {
      expandedItemId := if expandedItemId == Some(id) then None else Some(id);
    }
  }
}
