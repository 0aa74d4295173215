# Item store of the CRUD service with input and output files

The service keeps a single collection of items in a JSON file (`data.json`,
the primary store) and, after every change, copies that file verbatim to a
second file (`parsed_output.json`, the mirror). Five handlers make up its
logic: create, list, get by id, update and delete. Every handler loads the
whole primary file. Get, update and delete scan it left to right for the
first record with the requested id; create computes the new id as the
largest id present plus one; list returns the contents as they are. Only
create, update and delete change the contents in place, write the file back
and call `sync_output`, which copies the primary file over the mirror.

This project models that store in Dafny:

- `items.dfy`, module `Items`: the submitted item (`Item`: name, description,
  price) and the stored record (`Record`: the same fields plus an `id`); the
  field constraints of the input model (`ValidItem`: name of 1 to 50
  characters, description of 1 to 200 characters, price strictly above 0);
  the id assignment (`MaxId`, `NextId`: the largest id present plus one, or 1
  on an empty store); the first-match lookup (`FirstIndex`); removal of one
  slot (`RemoveAt`); and lemmas relating them.
- `store.dfy`, module `Store`: the class `ItemStore` whose two fields
  `primary` and `mirror` stand for the contents of the two files. Its methods
  are the handlers; `Get`, `Update` and `Delete` carry the scanning loop of
  the original, and `Sync` is `sync_output`. The model starts from a first
  run, where both files are absent and are created as empty arrays.
  `Valid()` is the store's invariant: the mirror equals the primary
  contents, ids are pairwise distinct and at least 1. Every mutating method
  keeps it. Client methods that require it state what it
  buys at the level of the store: a get after a create or an update finds
  the new record, a get after a delete is NotFound, and a create after
  deleting the highest id reuses ids. Three more replay the repository's
  test and two scenarios: id reuse after deleting the highest id, and a
  rejected zero price.

The input validation runs before the handler body, so `Create` and `Update`
check `ValidItem` first: an update with invalid fields is refused as
`Invalid` even when the id is absent. Errors are the `Result` values
`Err(Invalid)` (the validation failure) and `Err(NotFound)` (the not-found
exception). The handlers' JSON reading and writing are replaced by reading
and assigning the two fields.

## Model

| member | source | states |
|---|---|---|
| `Items.ValidItem` | app.py:20-23 | an item is refused when its name is empty or over 50 characters, when its description is empty or over 200 characters, or when its price is not above 0, and accepted when all three constraints hold |
| `Items.MaxId` | app.py:45 | the largest id present, one of the ids, bounding every id; 0 on an empty store |
| `Items.NextId` | app.py:45 | the assigned id exceeds every id present, is 1 on an empty store and otherwise one more than an id present; it is at least 1 when all ids are |
| `Items.WithId` | app.py:68-69 | the stored record carries the given id and exactly the submitted fields |
| `Items.FirstIndex` | app.py:58-61 | the position of the first record with the id, every earlier record having another id; None exactly when no record has it |
| `Items.RemoveAt` | app.py:81 | removing a slot shortens the sequence by one and keeps the other records in their relative order |
| `Items.AppendFreshPreservesIds` | app.py:45-46 | appending a record whose id exceeds all present keeps ids pairwise distinct and positive |
| `Items.ReplaceKeepsIds` | app.py:66-70 | replacing a slot by a record with the same id keeps ids distinct and positive |
| `Items.RemoveKeepsIds` | app.py:79-81 | removing a slot keeps ids distinct and positive |
| `Items.FindAppended` | app.py:45-46 | a lookup of the freshly assigned id finds the appended record, at the end |
| `Items.FindReplaced` | app.py:66-70 | after an update the lookup of the same id finds the new record in the same slot |
| `Items.FindRemoved` | app.py:79-81 | with distinct ids, after the found slot is removed no record has that id |
| `Items.NextIdAfterRemovingMax` | app.py:45 | after removing the record with the largest id the next id is at most that id, and equal to it when the id just below is present: ids are reused |
| `Store.ItemStore.constructor` | app.py:14-18 | on a first run both files are created empty, and the invariant holds |
| `Store.ItemStore.Sync` | app.py:34-37 | the mirror becomes a full copy of the primary contents, which do not change |
| `Store.ItemStore.Create` | app.py:42-49 | invalid fields are refused with both files untouched; otherwise the record with the next id and the submitted fields is appended, every earlier slot unchanged, the mirror synced, the created record returned, and the invariant kept |
| `Store.ItemStore.List` | app.py:52-53 | returns the primary contents unchanged |
| `Store.ItemStore.Get` | app.py:56-61 | returns the first record with the id, or NotFound exactly when no record has it; nothing changes |
| `Store.ItemStore.Update` | app.py:64-74 | invalid fields are refused first; an absent id is NotFound with both files untouched; otherwise exactly the first matching slot is replaced by the new fields under the same id, the returned record is the stored one, the mirror is synced and the invariant kept |
| `Store.ItemStore.Delete` | app.py:77-85 | an absent id is NotFound with both files untouched; otherwise exactly the first matching slot is removed, the rest keep their order, the mirror is synced, the confirmation message returned and the invariant kept |
| `Store.CrudWalkthrough` | tests/test_app.py:6-29 | on a fresh store: create yields id 1 with the submitted fields, get returns it, update keeps id 1 with the new fields, list holds only the updated record, delete confirms and a later get is NotFound |
| `Store.IdReuseScenario` | app.py:42-49 | on a fresh store two creates get ids 1 and 2, and after deleting id 2 a third create gets id 2 again |
| `Store.CreateThenGet` | app.py:42-61 | on a valid store a get of the id just created returns the created record with the submitted fields, and the invariant is kept |
| `Store.UpdateThenGet` | app.py:56-74 | on a valid store a get after a successful update returns the updated record, with the id kept and the new fields |
| `Store.DeleteThenGet` | app.py:56-85 | on a valid store, where ids are unique, a get of a deleted id is NotFound; a delete of an absent id is NotFound too |
| `Store.DeleteMaxThenCreate` | app.py:42-85 | on a valid non-empty store, deleting the record with the largest id and creating one assigns an id no greater than the deleted one, and equal to it when the id just below is present |
| `Store.RejectZeroPrice` | app.py:20-23 | a create with price 0 is refused as invalid and neither file changes |

## Left out

- HTTP routing, status codes and `response_model` filtering (app.py:41, 51, 55, 63, 76): framework behaviour outside the repository. The model returns what each handler function computes. The create handler sets no 201 status although the test expects one, and the declared response model has no `id` field, so the framework would drop the id from responses; neither is modelled.
- JSON encoding and decoding and the file opening in `read_data` and `write_data` (app.py:26-32): I/O. The two files are the two sequence fields.
- Start-up with files that already exist (app.py:15-16 keeps their contents): the constructor models only a first run, where both files are absent and start as empty arrays.
- Malformed files and records without an `id` (the KeyError at app.py:59, the default 0 at app.py:45): every record is assumed to carry an integer id.
- Concurrent requests, lost updates and a crash between writing the primary file and syncing the mirror: each method runs atomically, so the mirror equals the primary contents after every completed mutation.
- Floating-point semantics of `price`: it is a real number and only the check `price > 0` is modelled; no arithmetic is done on it.
- String lengths are counted in `char`s, which are Unicode scalar values, so they agree with Python's code-point count; strings holding lone surrogates, which Python accepts and a `char` cannot hold, are not modelled.
- The `uvicorn` start-up (app.py:87-89).
