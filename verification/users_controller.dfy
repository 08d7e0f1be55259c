/** The request-decision layer of the user controller: each handler is a pure
    function from a request and the current store to a response and the next
    store. Hashing is the `hash` parameter. The store's answers are parameters
    too: to a create, `alloc` (the fresh id it assigned, or nothing); to the
    update's name lookup, `found` (the id of one record holding the name, or
    nothing). */
module UsersController {
  import opened UserStore

  /** Body of a create request; absent fields are `None`. */
  datatype CreateRequest = CreateRequest(
    userName: Option<string>,
    password: Option<string>,
    roles: Option<seq<string>>
  )

  /** Body of an update request; `password` is optional in the protocol. */
  datatype UpdateRequest = UpdateRequest(
    id: Option<string>,
    userName: Option<string>,
    roles: Option<seq<string>>,
    active: Option<bool>,
    password: Option<string>
  )

  datatype Response = Response(status: int, message: string)

  /** What a handler answers, and the store after it. */
  datatype Reply = Reply(response: Response, store: Store)

  const AllFieldsRequired := "All fields are required"
  /** The update handler's message, spelled as in the source. */
  const UpdateFieldsRequired := "ALl fields are required"
  const DuplicateUser := "Duplicate user"
  const DuplicateUsername := "Duplicate username"
  const InvalidUserData := "Invalid user data received"
  const UserNotFound := "User not found"
  const UserIdRequired := "User ID required"

  /** A present, non-empty string: the only strings JavaScript treats as true. */
  predicate Truthy(v: Option<string>) {
    v.Some? && |v.value| > 0
  }

  /** A present array with at least one element. */
  predicate NonEmptyArray(v: Option<seq<string>>) {
    v.Some? && |v.value| > 0
  }

  predicate CreateShapeOk(req: CreateRequest) {
    Truthy(req.userName) && Truthy(req.password) && NonEmptyArray(req.roles)
  }

  predicate UpdateShapeOk(req: UpdateRequest) {
    Truthy(req.id) && Truthy(req.userName) && NonEmptyArray(req.roles) && req.active.Some?
  }

  /** The handler for creating a user. */
  function CreateNewUser(req: CreateRequest, s: Store, hash: string -> string, alloc: Option<Id>): (r: Reply)
    requires alloc.Some? ==> alloc.value !in s
    // malformed request: 400, nothing written
    ensures !CreateShapeOk(req) ==> r == Reply(Response(400, AllFieldsRequired), s)
    // name already held by any record: 409, nothing written
    ensures CreateShapeOk(req) && NameTaken(s, req.userName.value) ==>
              r == Reply(Response(409, DuplicateUser), s)
    // success exactly when the request is well formed, the name is free and the store created the record
    ensures r.response.status == 200 <==>
              CreateShapeOk(req) && !NameTaken(s, req.userName.value) && alloc.Some?
    // the store created nothing: 400, nothing written
    ensures CreateShapeOk(req) && !NameTaken(s, req.userName.value) && alloc.None? ==>
              r == Reply(Response(400, InvalidUserData), s)
    ensures r.response.status != 200 ==> r.store == s
    ensures r.response.status == 200 ==>
              var id := alloc.value;
              && r.response.message == "New user " + req.userName.value + " created"
              && r.store.Keys == s.Keys + {id}
              && r.store[id].userName == req.userName.value
              && r.store[id].roles == req.roles.value
              && r.store[id].password == Digest(hash(req.password.value))
              && r.store[id].active == None
              && (forall k :: k in s ==> r.store[k] == s[k])
              && (forall k :: k in r.store && r.store[k].userName == req.userName.value ==> k == id)
    ensures UniqueNames(s) ==> UniqueNames(r.store)
  {
    if !CreateShapeOk(req) then
      Reply(Response(400, AllFieldsRequired), s)
    else
      var name := req.userName.value;
      if NameTaken(s, name) then
        Reply(Response(409, DuplicateUser), s)
      else
        match alloc
        case None => Reply(Response(400, InvalidUserData), s)
        case Some(id) =>
          var rec := UserRec(name, Digest(hash(req.password.value)), req.roles.value, None);
          Reply(Response(200, "New user " + name + " created"), s[id := rec])
  }

  /** The id test the update handler applies to the record its name lookup
      returned: a conflict when that record is not the one being updated. */
  predicate FoundOther(found: Option<Id>, id: Id) {
    found.Some? && found.value != id
  }

  /** The handler for updating a user. `found` is the store's answer to the
      lookup of the requested name. */
  function UpdateUser(req: UpdateRequest, s: Store, hash: string -> string, found: Option<Id>): (r: Reply)
    requires req.userName.Some? ==> FindOneAnswers(s, req.userName.value, found)
    // malformed request: 400, nothing written
    ensures !UpdateShapeOk(req) ==> r == Reply(Response(400, UpdateFieldsRequired), s)
    // unknown id: 400 "User not found", never a conflict
    ensures UpdateShapeOk(req) && req.id.value !in s ==> r == Reply(Response(400, UserNotFound), s)
    ensures UpdateShapeOk(req) && req.id.value in s && FoundOther(found, req.id.value) ==>
              r == Reply(Response(409, DuplicateUsername), s)
    ensures r.response.status == 409 ==> req.id.Some? && req.id.value in s
    // while names are unique, a conflict is exactly another record holding the name
    ensures UniqueNames(s) && UpdateShapeOk(req) && req.id.value in s ==>
              (r.response.status == 409 <==> HeldByOther(s, req.userName.value, req.id.value))
    ensures r.response.status == 200 <==>
              UpdateShapeOk(req) && req.id.value in s && !FoundOther(found, req.id.value)
    ensures r.response.status != 200 ==> r.store == s
    ensures r.response.status == 200 ==>
              var id := req.id.value;
              && r.response.message == req.userName.value + " updated"
              && r.store.Keys == s.Keys
              && r.store[id].userName == req.userName.value
              && r.store[id].roles == req.roles.value
              && r.store[id].active == Some(req.active.value)
              && r.store[id].password ==
                   (if Truthy(req.password) then Digest(hash(req.password.value)) else s[id].password)
              && (forall k :: k in s && k != id ==> r.store[k] == s[k])
    ensures UniqueNames(s) ==> UniqueNames(r.store)
  {
    if !UpdateShapeOk(req) then
      Reply(Response(400, UpdateFieldsRequired), s)
    else
      var id := req.id.value;
      var name := req.userName.value;
      if id !in s then
        Reply(Response(400, UserNotFound), s)
      else if FoundOther(found, id) then
        Reply(Response(409, DuplicateUsername), s)
      else
        var user := s[id];
        var password := if Truthy(req.password) then Digest(hash(req.password.value)) else user.password;
        var updated := user.(userName := name, roles := req.roles.value, active := Some(req.active.value),
                             password := password);
        Reply(Response(200, name + " updated"), s[id := updated])
  }

  /** The only guard of the delete handler that this model covers: a request
      without an id is refused before the store is consulted. */
  function DeleteIdGuard(id: Option<string>): (r: Option<Response>)
    ensures r.Some? <==> id.None? || id.value == ""
    ensures r.Some? ==> r.value.status == 400 && r.value.message == UserIdRequired
  {
    if Truthy(id) then None else Some(Response(400, UserIdRequired))
  }
}
