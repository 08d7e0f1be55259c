/** Properties relating several handler calls to each other. Calls that hash
    take separate hash functions: bcrypt salts every call, so hashing the same
    password twice need not give the same digest. */
module ControllerProperties {
  import opened UserStore
  import opened UsersController

  /** A successful create adds exactly one record; every refusal keeps the
      record count. */
  lemma CreateCount(req: CreateRequest, s: Store, hash: string -> string, alloc: Option<Id>)
    requires alloc.Some? ==> alloc.value !in s
    ensures var r := CreateNewUser(req, s, hash, alloc);
            |r.store| == if r.response.status == 200 then |s| + 1 else |s|
  {
  }

  /** Once a create has succeeded, the same request again is a duplicate,
      whatever the store would answer. */
  lemma CreateThenDuplicate(req: CreateRequest, s: Store, hash1: string -> string, hash2: string -> string,
                            first: Option<Id>, second: Option<Id>)
    requires first.Some? ==> first.value !in s
    requires CreateNewUser(req, s, hash1, first).response.status == 200
    requires second.Some? ==> second.value !in CreateNewUser(req, s, hash1, first).store
    ensures CreateNewUser(req, CreateNewUser(req, s, hash1, first).store, hash2, second)
            == Reply(Response(409, DuplicateUser), CreateNewUser(req, s, hash1, first).store)
  {
  }

  /** Re-submitting a record's own current name is not a conflict: while names
      are unique, a well-formed update of an existing record that keeps its
      name succeeds, whichever record the name lookup returns. */
  lemma UpdateOwnNameAccepted(req: UpdateRequest, s: Store, hash: string -> string, found: Option<Id>)
    requires UniqueNames(s)
    requires UpdateShapeOk(req) && req.id.value in s
    requires req.userName.value == s[req.id.value].userName
    requires FindOneAnswers(s, req.userName.value, found)
    ensures UpdateUser(req, s, hash, found).response == Response(200, req.userName.value + " updated")
  {
  }

  /** Repeating a successful update gives the same response and changes at
      most the target's digest: it is re-hashed when the request carries a
      password, and kept otherwise. */
  lemma UpdateRepeated(req: UpdateRequest, s: Store, hash1: string -> string, found1: Option<Id>,
                       hash2: string -> string, found2: Option<Id>)
    requires UniqueNames(s)
    requires req.userName.Some? ==> FindOneAnswers(s, req.userName.value, found1)
    requires UpdateUser(req, s, hash1, found1).response.status == 200
    requires FindOneAnswers(UpdateUser(req, s, hash1, found1).store, req.userName.value, found2)
    ensures var r := UpdateUser(req, s, hash1, found1);
            var t := r.store;
            var id := req.id.value;
            var again := UpdateUser(req, t, hash2, found2);
            && again.response == r.response
            && again.store == t[id := t[id].(password :=
                 if Truthy(req.password) then Digest(hash2(req.password.value)) else t[id].password)]
            && (!Truthy(req.password) ==> again.store == t)
  {
  }

  /** The id test on the looked-up record depends on which record the store
      returns once two records share a name: updating "a" to its own shared
      name succeeds when the lookup returns "a", although "b" holds the name,
      and is a conflict when it returns "b". */
  lemma UpdateConflictDependsOnLookup(d: Digest, hash: string -> string)
    ensures var s := map["a" := UserRec("bob", d, ["Employee"], None),
                         "b" := UserRec("bob", d, ["Employee"], None)];
            var req := UpdateRequest(Some("a"), Some("bob"), Some(["Employee"]), Some(true), None);
            && !UniqueNames(s)
            && HeldByOther(s, "bob", "a")
            && FindOneAnswers(s, "bob", Some("a")) && FindOneAnswers(s, "bob", Some("b"))
            && UpdateUser(req, s, hash, Some("a")).response.status == 200
            && UpdateUser(req, s, hash, Some("b")).response.status == 409
  {
    var s := map["a" := UserRec("bob", d, ["Employee"], None),
                 "b" := UserRec("bob", d, ["Employee"], None)];
    assert "a" != "b";
    assert s["a"].userName == s["b"].userName;
  }

  /** The walk-through of one account: "alice" is created, created again, and
      updated without a password. */
  const AliceCreate := CreateRequest(Some("alice"), Some("secret1"), Some(["Employee"]))
  const AliceUpdate := UpdateRequest(Some("id1"), Some("alice"), Some(["Employee"]), Some(true), None)

  /** The store after "alice" was created under "id1" with the digest `hash`
      gave the password. */
  function AliceStore(hash: string -> string): Store {
    map["id1" := UserRec("alice", Digest(hash("secret1")), ["Employee"], None)]
  }

  lemma AliceCreated(hash: string -> string)
    ensures CreateNewUser(AliceCreate, map[], hash, Some("id1"))
            == Reply(Response(200, "New user alice created"), AliceStore(hash))
  {
  }

  lemma AliceCreatedTwice(hash1: string -> string, hash2: string -> string)
    ensures CreateNewUser(AliceCreate, AliceStore(hash1), hash2, Some("id2"))
            == Reply(Response(409, DuplicateUser), AliceStore(hash1))
  {
    assert AliceStore(hash1)["id1"].userName == "alice";
  }

  lemma AliceUpdatedWithoutPassword(hash1: string -> string, hash2: string -> string)
    ensures var r := UpdateUser(AliceUpdate, AliceStore(hash1), hash2, Some("id1"));
            && r.response == Response(200, "alice updated")
            && r.store == map["id1" := AliceStore(hash1)["id1"].(active := Some(true))]
  {
  }
}
