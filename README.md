# User store of the device-management tool

The tool keeps its data in a single JSON document (`database.json`). The document is a
dictionary of sections. Its `users` section maps a user's id (an e-mail address) to the
record `{"name": ..., "id": ...}`. A `User` has an `id` and a `name`. Each operation
loads the document, changes it, and writes the whole document back:

- `store_data` creates the `users` section if it is missing, then writes the user's record
  under the user's id. A record already stored under that id is replaced.
- `delete` removes the entry stored under the user's id. It does nothing when there is no
  such entry or no `users` section.
- `find_all` builds one `User` per stored entry, from the entry's own `id` and `name`
  fields. It returns an empty list when there is no `users` section.

This project models that logic with the document held in memory. It has two modules:

- `UserTable` (`user_table.dfy`) describes the document as a value. A section is a
  key sequence beside a map, because a Python dictionary iterates in insertion order and
  assigning to an existing key keeps that key's position. The module defines the document
  after a store (`Stored`), after a delete (`Deleted`), and the records `find_all` reads
  (`Listing`). Its lemmas prove what the store promises.
- `Users` (`users.dfy`) is the imperative side. `Database` is the loaded document, with
  mutable fields. `User` has the source's constructor. Its methods `StoreData` and
  `Delete` change the database in place, and `FindAll` builds the user list with a loop.
  Each method is proved against the functions of `UserTable`.

Sections other than `users` (such as `devices`) are kept as opaque JSON text. The model
proves that no user operation touches them.

The invariant `KeysMatchIds` says that every entry is stored under its own record's `id`.
It is not part of the document's validity, because a hand-edited file can break it.
`store_data` and `delete` preserve it. The lemma `DeletedIsUnlisted` needs it, and the
lemma `DeletedCanStillList` shows a document without it where a deleted id is still listed.

## Model

| member | source | states |
|---|---|---|
| `Users.User.constructor` | users.py:4-7 | the new user holds exactly the given id and name |
| `Users.User.StoreData` | users.py:9-24 | the document becomes `Stored(old document, id, name)`: the users section exists and maps the id to `{name, id}`, every other entry and section is unchanged, validity and `KeysMatchIds` are kept |
| `Users.User.Delete` | users.py:27-37 | the document becomes `Deleted(old document, id)`: the entry under the id is gone, nothing else changes, and the database is untouched when the id is not stored |
| `Users.User.FindAll` | users.py:45-54 | one user per stored entry, in the section's iteration order, each with its entry's own id and name; none when the document has no users section |
| `UserTable.Stored` | users.py:15-21 | after a store the users section exists, maps the id to the record `{name, id}`, keeps every other key's record, leaves the other sections alone, and keeps the document well formed and every entry under its own id |
| `UserTable.Deleted` | users.py:33-34 | after a delete the id is not a key, every other entry and section is kept, a missing id or a missing section leaves the document as it was, and the document stays well formed with every entry under its own id |
| `UserTable.Without` | users.py:34 | removing a key from the iteration order keeps exactly the other keys, keeps them distinct, and changes nothing when the key is absent |
| `UserTable.WithoutAt` | users.py:34 | removing a key stored once at position p gives the order with exactly that position cut out, so the other keys keep their relative order |
| `UserTable.RecordsIn` | users.py:52-53 | the listing has one record per key, position by position the record stored under that key |
| `UserTable.StoredSize` | users.py:18-21 | a store adds exactly one entry for a new id and none for a stored id |
| `UserTable.StoredIdempotent` | users.py:18-21 | storing the same user twice gives the same document as storing it once |
| `UserTable.StoredReplaces` | users.py:18-21 | storing an already stored id replaces its record in place: same iteration order, same number of entries |
| `UserTable.DeletedIdempotent` | users.py:33-34 | deleting twice gives the same document as deleting once |
| `UserTable.WithoutAppended` | users.py:34 | removing a key that was appended last gives back the order from before the append |
| `UserTable.DeletedUndoesStored` | users.py:33-34 | deleting a user just stored under a new id restores the document, when its users section already existed |
| `UserTable.ListingCount` | users.py:50-54 | `find_all` lists as many users as there are entries, and none without a users section |
| `UserTable.ListingStoredNew` | users.py:51-53 | after storing a new id, the listing is the old listing followed by the new user |
| `UserTable.ListingStoredExisting` | users.py:51-53 | after storing a stored id, the listing keeps its length, the user's position shows the new record, and every other position is unchanged |
| `UserTable.StoredIsListed` | users.py:51-53 | after a store, the listing contains a user with exactly that id and name |
| `UserTable.ListingDeleted` | users.py:51-53 | after deleting the user at position p of the iteration order, the listing is the old listing with exactly position p removed; every other user stays listed in the same order |
| `UserTable.DeletedIsUnlisted` | users.py:51-53 | after a delete, when every entry is stored under its own id, the listing contains no user with that id |
| `UserTable.DeletedCanStillList` | users.py:51-53 | without that invariant a deleted id can still be listed, because `find_all` reads the record's id field and not its key |

## Left out

- Reading and writing `database.json` (users.py:12-13, 23-24, 30-31, 36-37, 48-49): `Database`
  is the document already loaded, and `Users.Database.constructor` stands for `json.load`
  (users.py:13, 31, 49), taking the loaded document as a value. A missing, corrupt or unwritable file is not modelled.
  The JSON format and the order of the sections in the written file are not modelled either.
- Malformed data in a hand-edited file. A record without an `id` or `name` field makes
  `find_all` raise `KeyError` (users.py:53). A record that is not a dictionary makes it
  raise `TypeError` (users.py:53). A `users` section that is a list, a string or null makes
  `find_all` raise `AttributeError` (users.py:52), and `store_data` raise `TypeError`
  (users.py:18). In the model every section is a dictionary and every record has both fields.
- Field types: the source accepts any value as id and name. The model uses strings, which
  is what the form in `UI.py` passes.
- `find_by_attribute` (users.py:56-59): its body is `pass`, so it returns `None` for
  every input. The intended design is an equality lookup that returns up to a limit of
  matches. The code implements none of it, and the model follows the code.
- The decorator on `find_all` (users.py:45-46): it is declared `@staticmethod` and also
  takes `cls`, so a call without arguments fails in Python. `FindAll` models the body,
  with the database as its argument.
- `__str__` and `__repr__` (users.py:39-43): plain string formatting.
- Concurrency: two processes that read, change and write the file can lose an update.
  The model is single-threaded.
- `devices.py` is not part of this model. Device maintenance scheduling, its validated
  setters and its persistence keyed by device name are out of scope.
- `UI.py` is not part of this model. It is a presentation script.
