/** Value-level model of the JSON document behind the user store: the document
    is a dictionary of sections, and its "users" section is a dictionary from a
    user's id to the record {"name": ..., "id": ...}. A dictionary keeps its
    insertion order, so a section is a key sequence beside a map. The functions
    here specify what the imperative methods in module Users do to the document;
    the lemmas state what the user store promises about them. */
module UserTable {

  datatype Option<+T> = None | Some(value: T)

  /** One stored user: the JSON object {"name": name, "id": id}. */
  datatype UserRecord = UserRecord(name: string, id: string)

  /** A section other than "users" (for instance "devices"), kept as its JSON text. */
  datatype OtherSection = OtherSection(json: string)

  /** The "users" section: `rows` maps each key to its record and `order` lists
      the keys in the order the dictionary iterates them. */
  datatype Table = Table(order: seq<string>, rows: map<string, UserRecord>)

  /** The loaded document: the "users" section if present, and every other section. */
  datatype Document = Document(users: Option<Table>, others: map<string, OtherSection>)

  const EmptyTable := Table([], map[])

  predicate Distinct(s: seq<string>) {
    forall i, j :: 0 <= i < j < |s| ==> s[i] != s[j]
  }

  /** A dictionary has each key once, and iterates exactly its keys. */
  predicate ValidTable(t: Table) {
    Distinct(t.order) &&
    (forall k :: k in t.rows ==> k in t.order) &&
    (forall k :: k in t.order ==> k in t.rows)
  }

  predicate ValidDocument(d: Document) {
    "users" !in d.others && (d.users.Some? ==> ValidTable(d.users.value))
  }

  /** Every entry of the users section is stored under its own record's id. */
  predicate KeysMatchIds(d: Document) {
    d.users.Some? ==> forall k :: k in d.users.value.rows ==> d.users.value.rows[k].id == k
  }

  /** The users section, or the empty section that store_data would create. */
  function SectionOrEmpty(d: Document): Table {
    if d.users.Some? then d.users.value else EmptyTable
  }

  /** The stored entries of the document, empty when it has no users section. */
  function RowsOf(d: Document): map<string, UserRecord> {
    SectionOrEmpty(d).rows
  }

  /** The keys of the users section in iteration order. */
  function OrderOf(d: Document): seq<string> {
    SectionOrEmpty(d).order
  }

  /** `s` with every occurrence of `k` taken out, the rest in the same order:
      the iteration order of a dictionary after `del d[k]`. */
  function Without(s: seq<string>, k: string): (r: seq<string>)
    ensures forall x :: x in r <==> x in s && x != k
    ensures Distinct(s) ==> Distinct(r)
    ensures k !in s ==> r == s
    ensures |r| <= |s|
  {
    if s == [] then []
    else if s[0] == k then Without(s[1..], k)
    else
      var rest := Without(s[1..], k);
      assert s[0] !in s[1..] ==> s[0] !in rest;
      [s[0]] + rest
  }

  /** Assignment `t[k] := r` on a dictionary: an existing key keeps its
      position, a new key goes last. */
  function Upsert(t: Table, k: string, r: UserRecord): Table {
    Table(if k in t.rows then t.order else t.order + [k], t.rows[k := r])
  }

  /** `del t[k]` on a dictionary that holds `k`. */
  function Remove(t: Table, k: string): Table {
    Table(Without(t.order, k), t.rows - {k})
  }

  /** The document after store_data of the user (id, name): the users section
      exists, maps `id` to the record, and nothing else changes. */
  function Stored(d: Document, id: string, name: string): (r: Document)
    ensures r.others == d.others
    ensures r.users.Some?
    ensures RowsOf(r) == RowsOf(d)[id := UserRecord(name, id)]
    ensures ValidDocument(d) ==> ValidDocument(r)
    ensures KeysMatchIds(d) ==> KeysMatchIds(r)
  {
    Document(Some(Upsert(SectionOrEmpty(d), id, UserRecord(name, id))), d.others)
  }

  /** The document after delete of the user with this id: the entry keyed `id`
      is gone if there was one, and nothing else changes. */
  function Deleted(d: Document, id: string): (r: Document)
    ensures r.others == d.others
    ensures r.users.Some? <==> d.users.Some?
    ensures RowsOf(r) == RowsOf(d) - {id}
    ensures id !in RowsOf(d) ==> r == d
    ensures ValidDocument(d) ==> ValidDocument(r)
    ensures KeysMatchIds(d) ==> KeysMatchIds(r)
  {
    if d.users.Some? && id in d.users.value.rows then
      Document(Some(Remove(d.users.value, id)), d.others)
    else
      d
  }

  /** The records of `rows` in the order of `order`. */
  function RecordsIn(order: seq<string>, rows: map<string, UserRecord>): (r: seq<UserRecord>)
    requires forall k :: k in order ==> k in rows
    ensures |r| == |order|
    ensures forall i :: 0 <= i < |order| ==> r[i] == rows[order[i]]
  {
    if order == [] then [] else [rows[order[0]]] + RecordsIn(order[1..], rows)
  }

  /** What find_all reads: every stored record, in iteration order; none when
      the document has no users section. */
  function Listing(d: Document): seq<UserRecord>
    requires ValidDocument(d)
  {
    RecordsIn(OrderOf(d), RowsOf(d))
  }

  // ---------------------------------------------------------------------
  // store_data

  /** store_data adds an entry only for an id not stored before, and then
      exactly one. */
  lemma StoredSize(d: Document, id: string, name: string)
    ensures |RowsOf(Stored(d, id, name))| == if id in RowsOf(d) then |RowsOf(d)| else |RowsOf(d)| + 1
  {
  }

  /** Storing the same user twice leaves the document as storing it once. */
  lemma StoredIdempotent(d: Document, id: string, name: string)
    ensures Stored(Stored(d, id, name), id, name) == Stored(d, id, name)
  {
    var once := Stored(d, id, name);
    var r := UserRecord(name, id);
    assert id in once.users.value.rows;
    assert once.users.value.rows[id := r] == once.users.value.rows;
  }

  /** Storing a user whose id is already stored replaces the record in place:
      the number of entries and the iteration order stay as they were. */
  lemma StoredReplaces(d: Document, id: string, name: string)
    requires id in RowsOf(d)
    ensures OrderOf(Stored(d, id, name)) == OrderOf(d)
    ensures |RowsOf(Stored(d, id, name))| == |RowsOf(d)|
  {
  }

  // ---------------------------------------------------------------------
  // delete

  /** Deleting twice is the same as deleting once. */
  lemma DeletedIdempotent(d: Document, id: string)
    ensures Deleted(Deleted(d, id), id) == Deleted(d, id)
  {
  }

  lemma {:induction false} WithoutAppended(s: seq<string>, k: string)
    requires k !in s
    ensures Without(s + [k], k) == s
  {
    if s == [] {
      assert [] + [k] == [k];
    } else {
      assert (s + [k])[1..] == s[1..] + [k];
      WithoutAppended(s[1..], k);
    }
  }

  /** Removing a key that occurs once, at position `p`, keeps every other key
      in its relative order. */
  lemma {:induction false} WithoutAt(s: seq<string>, k: string, p: int)
    requires Distinct(s) && 0 <= p < |s| && s[p] == k
    ensures Without(s, k) == s[..p] + s[p + 1..]
  {
    assert Distinct(s[1..]) by {
      forall i, j | 0 <= i < j < |s[1..]| ensures s[1..][i] != s[1..][j] {
        assert s[1..][i] == s[i + 1] && s[1..][j] == s[j + 1];
      }
    }
    if p == 0 {
      assert k !in s[1..] by {
        forall j | 0 <= j < |s[1..]| ensures s[1..][j] != k {
          assert s[1..][j] == s[j + 1];
        }
      }
    } else {
      WithoutAt(s[1..], k, p - 1);
      assert s[..p] + s[p + 1..] == [s[0]] + (s[1..][..p - 1] + s[1..][p..]);
    }
  }

  /** Deleting a user just stored under a new id gives back the document as it
      was before, provided its users section already existed. */
  lemma DeletedUndoesStored(d: Document, id: string, name: string)
    requires ValidDocument(d) && d.users.Some? && id !in d.users.value.rows
    ensures Deleted(Stored(d, id, name), id) == d
  {
    var t := d.users.value;
    WithoutAppended(t.order, id);
    assert t.rows[id := UserRecord(name, id)] - {id} == t.rows;
  }

  // ---------------------------------------------------------------------
  // find_all

  lemma {:induction false} DistinctCount(order: seq<string>, rows: map<string, UserRecord>)
    requires Distinct(order)
    requires forall k :: k in rows <==> k in order
    ensures |rows| == |order|
  {
    if order != [] {
      var rest := rows - {order[0]};
      forall k ensures k in rest <==> k in order[1..] {
        if k in order[1..] {
          var j :| 0 <= j < |order[1..]| && order[1..][j] == k;
          assert order[j + 1] == k;
        }
      }
      assert Distinct(order[1..]) by {
        forall i, j | 0 <= i < j < |order[1..]| ensures order[1..][i] != order[1..][j] {
          assert order[1..][i] == order[i + 1] && order[1..][j] == order[j + 1];
        }
      }
      DistinctCount(order[1..], rest);
      assert rows.Keys == rest.Keys + {order[0]};
    }
  }

  /** find_all lists one user per stored entry, and none without a users section. */
  lemma ListingCount(d: Document)
    requires ValidDocument(d)
    ensures |Listing(d)| == |RowsOf(d)|
    ensures d.users.None? ==> Listing(d) == []
  {
    DistinctCount(OrderOf(d), RowsOf(d));
  }

  /** Storing a user under a new id lists it after every user listed before. */
  lemma ListingStoredNew(d: Document, id: string, name: string)
    requires ValidDocument(d) && id !in RowsOf(d)
    ensures Listing(Stored(d, id, name)) == Listing(d) + [UserRecord(name, id)]
  {
  }

  /** Storing a user under an id already stored replaces its record at the
      same position of the listing and leaves every other position alone. */
  lemma ListingStoredExisting(d: Document, id: string, name: string, i: int)
    requires ValidDocument(d) && id in RowsOf(d)
    requires 0 <= i < |Listing(d)|
    ensures |Listing(Stored(d, id, name))| == |Listing(d)|
    ensures Listing(Stored(d, id, name))[i] ==
              if OrderOf(d)[i] == id then UserRecord(name, id) else Listing(d)[i]
  {
  }

  /** Deleting the user stored at position `p` of the iteration order drops
      exactly that record from the listing; every other user stays listed, in
      the same relative order. */
  lemma ListingDeleted(d: Document, id: string, p: int)
    requires ValidDocument(d) && 0 <= p < |OrderOf(d)| && OrderOf(d)[p] == id
    ensures Listing(Deleted(d, id)) == Listing(d)[..p] + Listing(d)[p + 1..]
  {
    var o := OrderOf(d);
    assert id in RowsOf(d);
    WithoutAt(o, id, p);
    var before, after := Listing(d), Listing(Deleted(d, id));
    var expected := before[..p] + before[p + 1..];
    assert |after| == |expected|;
    forall i | 0 <= i < |after| ensures after[i] == expected[i] {
      if i < p {
        assert OrderOf(Deleted(d, id))[i] == o[i];
      } else {
        assert OrderOf(Deleted(d, id))[i] == o[i + 1];
      }
    }
  }

  /** After store_data, find_all lists a user with exactly that id and name. */
  lemma StoredIsListed(d: Document, id: string, name: string)
    requires ValidDocument(d)
    ensures UserRecord(name, id) in Listing(Stored(d, id, name))
  {
    var d' := Stored(d, id, name);
    var j :| 0 <= j < |OrderOf(d')| && OrderOf(d')[j] == id;
    assert Listing(d')[j] == UserRecord(name, id);
  }

  /** After delete, find_all lists no user with that id, provided every entry
      was stored under its own id. */
  lemma DeletedIsUnlisted(d: Document, id: string)
    requires ValidDocument(d) && KeysMatchIds(d)
    ensures forall u :: u in Listing(Deleted(d, id)) ==> u.id != id
  {
  }

  /** Without the KeysMatchIds invariant the previous lemma fails: a record
      stored under another key still lists the deleted id. */
  lemma DeletedCanStillList()
    ensures var d := Document(Some(Table(["x"], map["x" := UserRecord("Ann", "a")])), map[]);
            ValidDocument(d) && UserRecord("Ann", "a") in Listing(Deleted(d, "a"))
  {
  }
}
