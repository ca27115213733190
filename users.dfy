/** The user store as the source runs it: every operation works on the loaded
    database document, changes its "users" section in place and writes it back.
    Reading and writing the file are left out; `Database` is the document held
    in memory between the load and the dump. */
module Users {
  import opened UserTable

  /** The loaded JSON document. `hasUsers` says whether it has a "users"
      section; `order` and `rows` are that section's iteration order and
      entries; `others` holds every other section untouched. */
  class Database {
    var hasUsers: bool
    var order: seq<string>
    var rows: map<string, UserRecord>
    var others: map<string, OtherSection>

    /** The document as a value. */
    function Doc(): Document
      reads this
    {
      Document(if hasUsers then Some(Table(order, rows)) else None, others)
    }

    ghost predicate Valid()
      reads this
    {
      ValidDocument(Doc()) && (!hasUsers ==> order == [] && rows == map[])
    }

    /** The document as json.load returns it. */
    constructor (doc: Document)
      requires ValidDocument(doc)
      ensures Valid() && Doc() == doc
    {
      hasUsers := doc.users.Some?;
      order := if doc.users.Some? then doc.users.value.order else [];
      rows := if doc.users.Some? then doc.users.value.rows else map[];
      others := doc.others;
    }
  }

  class User {
    var id: string
    var name: string

    /** A user with the given id (an e-mail address in practice) and name. */
    constructor (id: string, name: string)
      ensures this.id == id && this.name == name
    {
      this.name := name;
      this.id := id;
    }

    /** Creates the users section if missing, then stores {name, id} under
        this user's id, replacing any record already there. */
    method StoreData(db: Database)
      requires db.Valid()
      modifies db
      ensures db.Valid()
      ensures db.Doc() == Stored(old(db.Doc()), id, name)
      ensures db.hasUsers && db.rows == old(db.rows)[id := UserRecord(name, id)]
      ensures db.others == old(db.others)
      ensures KeysMatchIds(old(db.Doc())) ==> KeysMatchIds(db.Doc())
    {
      if !db.hasUsers {
        db.hasUsers := true;
        db.order := [];
        db.rows := map[];
      }
      if id !in db.rows {
        db.order := db.order + [id];
      }
      db.rows := db.rows[id := UserRecord(name, id)];
    }

    /** Removes the entry stored under this user's id; does nothing when
        there is none or when the document has no users section. */
    method Delete(db: Database)
      requires db.Valid()
      modifies db
      ensures db.Valid()
      ensures db.Doc() == Deleted(old(db.Doc()), id)
      ensures db.hasUsers == old(db.hasUsers) && db.rows == old(db.rows) - {id}
      ensures db.others == old(db.others)
      ensures id !in old(db.rows) ==> unchanged(db)
      ensures KeysMatchIds(old(db.Doc())) ==> KeysMatchIds(db.Doc())
    {
      if db.hasUsers && id in db.rows {
        db.rows := db.rows - {id};
        db.order := Without(db.order, id);
      }
    }

    /** One user per stored entry, built from the entry's own id and name
        fields, in the section's iteration order; none when the document has
        no users section. */
    static method FindAll(db: Database) returns (users: seq<User>)
      requires db.Valid()
      ensures |users| == |Listing(db.Doc())| == |db.rows|
      ensures forall i :: 0 <= i < |users| ==> UserRecord(users[i].name, users[i].id) == Listing(db.Doc())[i]
      ensures !db.hasUsers ==> users == []
      ensures forall i :: 0 <= i < |users| ==> fresh(users[i])
    {
      ListingCount(db.Doc());
      users := [];
      if db.hasUsers {
        var i := 0;
        while i < |db.order|
          invariant 0 <= i <= |db.order|
          invariant |users| == i
          invariant forall j :: 0 <= j < i ==> fresh(users[j])
          invariant forall j :: 0 <= j < i ==>
                      users[j].id == db.rows[db.order[j]].id && users[j].name == db.rows[db.order[j]].name
        {
          var record := db.rows[db.order[i]];
          var u := new User(record.id, record.name);
          users := users + [u];
          i := i + 1;
        }
      }
    }
  }
}
