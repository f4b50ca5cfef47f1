/** The document store the importer talks to: a `user` collection with a unique index on
    `normalized_email`, a `chain_of_command` collection with a unique index on `user_id`,
    and the primitives the importer calls on them (`find_one`, `insert_one`,
    `find_one_and_replace`, `delete_one`, `count_documents`). Document ids come from a
    counter instead of ObjectId. */
module Storage {
  import opened Wrappers
  import opened Users

  /** The contents of the store as a value: users by id, chain-of-command lists by user id,
      and the next id to hand out. */
  datatype Db = Db(users: map<Id, User>, chains: map<Id, seq<Id>>, nextId: nat)

  /** The unique index on `normalized_email`. */
  ghost predicate UniqueEmails(users: map<Id, User>) {
    forall a, b :: a in users && b in users && users[a].email == users[b].email ==> a == b
  }

  /** Every id in use is below the counter (so a new id is fresh), and e-mails are unique. */
  ghost predicate WellFormed(db: Db) {
    && (forall id :: id in db.users ==> id < db.nextId)
    && (forall id :: id in db.chains ==> id < db.nextId)
    && UniqueEmails(db.users)
  }

  /** The id of the user whose `normalized_email` is `e`, if there is one. */
  ghost function Owner(users: map<Id, User>, e: string): (r: Option<Id>)
    ensures r.Some? ==> r.value in users && users[r.value].email == e
    ensures r.None? ==> forall id :: id in users ==> users[id].email != e
  {
    if exists id :: id in users && users[id].email == e then
      Some(var id :| id in users && users[id].email == e; id)
    else
      None
  }

  /** Under the unique index the owner of an e-mail is the one user holding it. */
  lemma OwnerIs(users: map<Id, User>, e: string, id: Id)
    requires UniqueEmails(users)
    requires id in users && users[id].email == e
    ensures Owner(users, e) == Some(id)
  {
  }

  /** The stored document for an e-mail: `db.user.find_one({"normalized_email": e})`. */
  ghost function StoredUser(users: map<Id, User>, e: string): (r: Option<User>)
    ensures r.Some? <==> Owner(users, e).Some?
    ensures r.Some? ==> r.value == users[Owner(users, e).value] && r.value.email == e
  {
    match Owner(users, e)
    case Some(id) => Some(users[id])
    case None => None
  }

  /** `find_one_and_replace({"normalized_email": doc.email}, doc, upsert=True)`: the document
      holding that e-mail is replaced and keeps its id; without one, `doc` is inserted under a
      fresh id. Returns the new state and the id of the written document. */
  ghost function ReplaceOrInsert(db: Db, doc: User): (Db, Id)
  {
    match Owner(db.users, doc.email)
    case Some(id) => (db.(users := db.users[id := doc]), id)
    case None => (db.(users := db.users[db.nextId := doc], nextId := db.nextId + 1), db.nextId)
  }

  /** The upsert writes `doc` under the id that already held its e-mail, or under a fresh id,
      touches no other user and keeps the unique index. */
  lemma ReplaceOrInsertSpec(db: Db, doc: User)
    requires WellFormed(db)
    ensures var (after, id) := ReplaceOrInsert(db, doc);
      && WellFormed(after)
      && id in after.users && after.users[id] == doc
      && Owner(after.users, doc.email) == Some(id)
      && (Owner(db.users, doc.email).Some? ==> id == Owner(db.users, doc.email).value)
      && (Owner(db.users, doc.email).None? ==> id !in db.users && id !in db.chains)
      && after.users.Keys == db.users.Keys + {id}
      && (forall x :: x in db.users && x != id ==> after.users[x] == db.users[x])
      && after.chains == db.chains
  {
    var (after, id) := ReplaceOrInsert(db, doc);
    OwnerIs(after.users, doc.email, id);
  }

  /** Deleting a user's chain-of-command record and inserting a new one replaces it. */
  lemma ChainReplaced(chains: map<Id, seq<Id>>, u: Id, c: seq<Id>)
    ensures (chains - {u})[u := c] == chains[u := c]
  {
  }

  /** The store the importer works against. */
  class Store {
    var users: map<Id, User>
    var chains: map<Id, seq<Id>>
    var nextId: nat

    function Snapshot(): Db
      reads this
    {
      Db(users, chains, nextId)
    }

    ghost predicate Valid()
      reads this
    {
      WellFormed(Snapshot())
    }

    /** A store holding what the database held before the upload. */
    constructor (initial: Db)
      requires WellFormed(initial)
      ensures Valid() && Snapshot() == initial
    {
      users, chains, nextId := initial.users, initial.chains, initial.nextId;
    }

    /** `db.user.find_one({"normalized_email": e})`, returning the document's id. */
    method FindUserByEmail(e: string) returns (r: Option<Id>)
      requires Valid()
      ensures r == Owner(users, e)
    {
      if exists id :: id in users && users[id].email == e {
        var id :| id in users && users[id].email == e;
        OwnerIs(users, e, id);
        r := Some(id);
      } else {
        r := None;
      }
    }

    /** `db.user.find_one({"_id": id})`. */
    method FindUserById(id: Id) returns (r: Option<User>)
      ensures r.Some? <==> id in users
      ensures r.Some? ==> r.value == users[id]
    {
      r := if id in users then Some(users[id]) else None;
    }

    /** `db.user.insert_one(doc)`: a fresh id. The unique index makes this legal only for an
        e-mail no document holds yet, which is the only way the importer calls it. */
    method InsertUser(doc: User) returns (id: Id)
      requires Valid()
      requires Owner(users, doc.email).None?
      modifies this
      ensures Valid()
      ensures id == old(nextId) && id !in old(users)
      ensures users == old(users)[id := doc] && nextId == old(nextId) + 1
      ensures chains == old(chains)
    {
      id := nextId;
      users := users[id := doc];
      nextId := nextId + 1;
      OwnerIs(users, doc.email, id);
    }

    /** `db.user.find_one_and_replace({"normalized_email": doc.email}, doc, upsert=True,
        return_document=AFTER)`, returning the written document's id. */
    method FindOneAndReplace(doc: User) returns (id: Id)
      requires Valid()
      modifies this
      ensures Valid()
      ensures (Snapshot(), id) == ReplaceOrInsert(old(Snapshot()), doc)
    {
      ReplaceOrInsertSpec(Snapshot(), doc);
      var existing := FindUserByEmail(doc.email);
      if existing.Some? {
        id := existing.value;
        users := users[id := doc];
      } else {
        id := nextId;
        users := users[id := doc];
        nextId := nextId + 1;
      }
    }

    /** `db.chain_of_command.delete_one({"user_id": userId})`. */
    method DeleteChain(userId: Id)
      requires Valid()
      modifies this
      ensures Valid()
      ensures chains == old(chains) - {userId}
      ensures users == old(users) && nextId == old(nextId)
    {
      chains := chains - {userId};
    }

    /** `db.chain_of_command.insert_one({"user_id": userId, "chain_of_command": c})`; the
        unique index on `user_id` makes this legal only when no record exists for the user. */
    method InsertChain(userId: Id, c: seq<Id>)
      requires Valid()
      requires userId !in chains && userId < nextId
      modifies this
      ensures Valid()
      ensures chains == old(chains)[userId := c]
      ensures users == old(users) && nextId == old(nextId)
    {
      chains := chains[userId := c];
    }

    /** `db.user.count_documents({"name": None})`: visits every document once and counts
        those that match. */
    method CountNameless() returns (n: nat)
      ensures n == |NamelessIds(users)|
    {
      var docs := users;
      n := 0;
      var todo := docs.Keys;
      assert NamelessIds(docs) * todo == NamelessIds(docs);
      while todo != {}
        invariant todo <= docs.Keys
        invariant n + |NamelessIds(docs) * todo| == |NamelessIds(docs)|
        decreases |todo|
      {
        var id :| id in todo;
        NamelessStep(docs, todo, id);
        if Nameless(docs[id]) {
          n := n + 1;
        }
        todo := todo - {id};
      }
    }
  }

  /** The ids of the documents that have no name: placeholders never filled in. */
  function NamelessIds(users: map<Id, User>): (r: set<Id>)
    ensures forall id :: id in r <==> id in users && Nameless(users[id])
  {
    set id | id in users && Nameless(users[id])
  }

  /** Visiting one more document takes one off the documents still to count exactly when
      it is nameless. */
  lemma NamelessStep(users: map<Id, User>, todo: set<Id>, id: Id)
    requires id in todo
    ensures |NamelessIds(users) * todo|
      == |NamelessIds(users) * (todo - {id})| + (if id in users && Nameless(users[id]) then 1 else 0)
  {
    if id in users && Nameless(users[id]) {
      assert NamelessIds(users) * todo == NamelessIds(users) * (todo - {id}) + {id};
    } else {
      assert NamelessIds(users) * todo == NamelessIds(users) * (todo - {id});
    }
  }
}
