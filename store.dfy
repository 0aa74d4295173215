/** The item store behind the HTTP handlers: the primary sequence stands for
    the contents of the data file, the mirror for the parsed-output file.
    Every handler loads the primary contents. Get, update and delete scan
    them left to right for the first record with the requested id; create
    computes the next id from all ids present. Only create, update and
    delete change the contents, write them back and then copy them to the
    mirror; list and get change nothing. */
module Store {
  import opened Items

  /** The message the delete handler answers with. */
  const DeletedMessage: string := "Deleted successfully"

  class ItemStore {
    /** Contents of the primary (data) file. */
    var primary: seq<Record>
    /** Contents of the mirror (parsed output) file. */
    var mirror: seq<Record>

    /** The store's invariant: the mirror holds a full copy of the primary
        contents, ids are pairwise distinct and every id is at least 1. */
    ghost predicate Valid()
      reads this
    {
      mirror == primary && UniqueIds(primary) && PositiveIds(primary)
    }

    /** Both files start out as empty arrays. */
    constructor ()
      ensures primary == [] && mirror == []
      ensures Valid()
    {
      primary := [];
      mirror := [];
    }

    /** Copies the whole primary contents over the mirror. */
    method Sync()
      modifies this`mirror
      ensures mirror == primary
    {
      var data := primary;
      mirror := data;
    }

    /** Validates the submitted fields, assigns the next id, appends the new
        record, rewrites the primary contents and syncs the mirror. */
    method Create(item: Item) returns (r: Result<Record>)
      modifies this
      ensures !ValidItem(item) ==>
                r == Err(Invalid) && primary == old(primary) && mirror == old(mirror)
      ensures ValidItem(item) ==>
                r.Ok? && r.value == WithId(NextId(old(primary)), item) &&
                primary == old(primary) + [r.value] && mirror == primary
      ensures r.Ok? ==> forall i :: 0 <= i < |old(primary)| ==> old(primary)[i].id < r.value.id
      ensures old(Valid()) ==> Valid()
    {
      if !ValidItem(item) {
        return Err(Invalid);
      }
      var data := primary;
      var created := WithId(NextId(data), item);
      AppendFreshPreservesIds(data, created);
      data := data + [created];
      primary := data;
      Sync();
      r := Ok(created);
    }

    /** Returns the primary contents as they are. */
    method List() returns (items: seq<Record>)
      ensures items == primary
    {
      items := primary;
    }

    /** Returns the first record whose id is `id`, or NotFound. */
    method Get(id: int) returns (r: Result<Record>)
      ensures r.Err? <==> forall j :: 0 <= j < |primary| ==> primary[j].id != id
      ensures r.Err? ==> r.error == NotFound
      ensures r.Ok? ==> exists k :: 0 <= k < |primary| && primary[k] == r.value &&
                          r.value.id == id && forall j :: 0 <= j < k ==> primary[j].id != id
    {
      var data := primary;
      var i := 0;
      while i < |data|
        invariant 0 <= i <= |data|
        invariant forall j :: 0 <= j < i ==> data[j].id != id
      {
        if data[i].id == id {
          return Ok(data[i]);
        }
        i := i + 1;
      }
      r := Err(NotFound);
    }

    /** Validates the submitted fields, replaces the first record whose id
        is `id` by those fields under the same id, rewrites the primary
        contents and syncs the mirror; NotFound when no record has `id`. */
    method Update(id: int, item: Item) returns (r: Result<Record>)
      modifies this
      ensures !ValidItem(item) ==>
                r == Err(Invalid) && primary == old(primary) && mirror == old(mirror)
      ensures ValidItem(item) && FirstIndex(old(primary), id).None? ==>
                r == Err(NotFound) && primary == old(primary) && mirror == old(mirror)
      ensures ValidItem(item) && FirstIndex(old(primary), id).Some? ==>
                var k := FirstIndex(old(primary), id).value;
                r == Ok(WithId(id, item)) &&
                primary == old(primary)[k := r.value] && mirror == primary
      ensures old(Valid()) ==> Valid()
    {
      if !ValidItem(item) {
        return Err(Invalid);
      }
      var data := primary;
      var i := 0;
      while i < |data|
        invariant 0 <= i <= |data|
        invariant data == primary
        invariant forall j :: 0 <= j < i ==> data[j].id != id
      {
        if data[i].id == id {
          var updated := WithId(id, item);
          ReplaceKeepsIds(data, i, updated);
          data := data[i := updated];
          primary := data;
          Sync();
          return Ok(updated);
        }
        i := i + 1;
      }
      r := Err(NotFound);
    }

    /** Removes the first record whose id is `id`, rewrites the primary
        contents and syncs the mirror; NotFound when no record has `id`. */
    method Delete(id: int) returns (r: Result<string>)
      modifies this
      ensures FirstIndex(old(primary), id).None? ==>
                r == Err(NotFound) && primary == old(primary) && mirror == old(mirror)
      ensures FirstIndex(old(primary), id).Some? ==>
                r == Ok(DeletedMessage) &&
                primary == RemoveAt(old(primary), FirstIndex(old(primary), id).value) &&
                mirror == primary
      ensures old(Valid()) ==> Valid()
    {
      var data := primary;
      var i := 0;
      while i < |data|
        invariant 0 <= i <= |data|
        invariant data == primary
        invariant forall j :: 0 <= j < i ==> data[j].id != id
      {
        if data[i].id == id {
          RemoveKeepsIds(data, i);
          data := RemoveAt(data, i);
          primary := data;
          Sync();
          return Ok(DeletedMessage);
        }
        i := i + 1;
      }
      r := Err(NotFound);
    }
  }

  /** The walk through create, get, update, list and delete that the
      repository's test drives, followed by a get of the deleted id. */
  method CrudWalkthrough() returns (created: Result<Record>, got: Result<Record>,
                                     updated: Result<Record>, listed: seq<Record>,
                                     deleted: Result<string>, gone: Result<Record>)
    ensures created == Ok(Record(1, "Item1", "First item", 10.0))
    ensures got == created
    ensures updated == Ok(Record(1, "Updated", "Updated item", 20.0))
    ensures listed == [updated.value]
    ensures deleted == Ok(DeletedMessage)
    ensures gone == Err(NotFound)
  {
    var store := new ItemStore();
    created := store.Create(Item("Item1", "First item", 10.0));
    FindAppended([], created.value);
    got := store.Get(created.value.id);
    updated := store.Update(created.value.id, Item("Updated", "Updated item", 20.0));
    listed := store.List();
    deleted := store.Delete(created.value.id);
    gone := store.Get(created.value.id);
  }

  /** Two creates, a delete of the record with the higher id and a third
      create: the third record gets the deleted id again. */
  method IdReuseScenario() returns (first: Result<Record>, second: Result<Record>,
                                    third: Result<Record>)
    ensures first.Ok? && first.value.id == 1
    ensures second.Ok? && second.value.id == 2
    ensures third.Ok? && third.value.id == second.value.id
  {
    var store := new ItemStore();
    first := store.Create(Item("A", "first", 1.0));
    second := store.Create(Item("B", "second", 2.0));
    var _ := store.Delete(2);
    third := store.Create(Item("C", "third", 3.0));
  }

  /** A create with a price of zero is refused and leaves both files as
      they were. */
  method RejectZeroPrice(store: ItemStore) returns (r: Result<Record>)
    modifies store
    ensures r == Err(Invalid)
    ensures store.primary == old(store.primary) && store.mirror == old(store.mirror)
  {
    r := store.Create(Item("Item1", "First item", 0.0));
  }

  /** On a valid store, a get of the id a create just assigned returns the
      created record, which carries the submitted fields. */
  method CreateThenGet(store: ItemStore, item: Item) returns (c: Result<Record>, g: Result<Record>)
    requires store.Valid()
    modifies store
    ensures store.Valid()
    ensures c.Ok? ==> g == c && Fields(g.value) == item
    ensures !ValidItem(item) ==> c == Err(Invalid)
  {
    c := store.Create(item);
    if c.Ok? {
      FindAppended(old(store.primary), c.value);
      g := store.Get(c.value.id);
    } else {
      g := Err(Invalid);
    }
  }

  /** On a valid store, a get after a successful update of `id` returns the
      updated record: the id kept and the new fields. */
  method UpdateThenGet(store: ItemStore, id: int, item: Item) returns (u: Result<Record>, g: Result<Record>)
    requires store.Valid()
    modifies store
    ensures store.Valid()
    ensures u.Ok? ==> g == u && g.value.id == id && Fields(g.value) == item
  {
    u := store.Update(id, item);
    if u.Ok? {
      FindReplaced(old(store.primary), id, u.value);
      g := store.Get(id);
    } else {
      g := Err(NotFound);
    }
  }

  /** On a valid store, where ids are unique, a get of an id just deleted
      is NotFound. */
  method DeleteThenGet(store: ItemStore, id: int) returns (d: Result<string>, g: Result<Record>)
    requires store.Valid()
    modifies store
    ensures store.Valid()
    ensures d.Ok? ==> g == Err(NotFound)
    ensures d.Err? ==> d.error == NotFound && g == Err(NotFound)
  {
    d := store.Delete(id);
    if d.Ok? {
      FindRemoved(old(store.primary), FirstIndex(old(store.primary), id).value);
    }
    g := store.Get(id);
  }

  /** On a valid store, deleting the record with the largest id and then
      creating a record assigns an id no greater than the deleted one, and
      exactly the deleted id when the id just below it is still present. */
  method DeleteMaxThenCreate(store: ItemStore, item: Item) returns (deletedId: int, c: Result<Record>)
    requires store.Valid() && |store.primary| > 0 && ValidItem(item)
    modifies store
    ensures store.Valid()
    ensures c.Ok? && c.value.id <= deletedId
    ensures (exists j :: 0 <= j < |old(store.primary)| && old(store.primary)[j].id == deletedId - 1) ==>
              c.value.id == deletedId
  {
    deletedId := MaxId(store.primary);
    var k :| 0 <= k < |store.primary| && store.primary[k].id == deletedId;
    assert FirstIndex(store.primary, deletedId) == Some(k);
    NextIdAfterRemovingMax(store.primary, k);
    var _ := store.Delete(deletedId);
    c := store.Create(item);
  }
}
