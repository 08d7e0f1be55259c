# User controller model

A Dafny model of the request-decision layer of the Tech-Notes user controller
(`controllers/usersController.js`): the create and update handlers, and the
first guard of the delete handler. The user collection is a finite map from
record id to user record. Each handler is a pure function from a request and
the current map to a response (status and message) and the next map.

- `user_store.dfy`, module `UserStore`: the user record, the store, the
  username-uniqueness invariant, and the two name lookups the handlers make.
- `users_controller.dfy`, module `UsersController`: the request bodies, with
  every field optional, JavaScript truthiness for strings and arrays, and the
  handlers `CreateNewUser`, `UpdateUser` and `DeleteIdGuard`.
- `controller_properties.dfy`, module `ControllerProperties`: properties that
  relate several handler calls.
- `session.dfy`, module `Session`: requests handled one after another. It
  shows that username uniqueness survives every sequence of calls.

Collaborators become parameters:
- bcrypt is a `hash: string -> string` parameter of each call. What is
  guaranteed is that a handler stores exactly `Digest(hash(password))` for the
  request's password. Nothing is assumed about `hash` itself, so the model does
  not claim that a digest differs from its plaintext. Every property that relates
  several calls gives each call its own hash function, because bcrypt salts
  every call. This includes the calls of a run in `Session`, where each call
  carries its own hash.
- The database's answer to `User.create` is the parameter `alloc`.
  `Some(id)` means the store created the record under the fresh id `id`.
  `None` means it returned nothing, and the handler answers 400
  "Invalid user data received".
- The update handler's name lookup (`findOne({ userName })`) is the
  parameter `found`. It may be any answer the store could give: nothing when no
  record holds the name, otherwise the id of some record that holds it.
- `active` is `None` on a newly created record. The store's default for it is
  not modelled.

The update handler reports 409 when the record the lookup returned has an id
other than the request's, and `UpdateUser` applies exactly that test.
`UserStore.FindOneDecidesConflict` shows that, while names are unique, the
test is equivalent to "a record with another id holds the name", whichever
record the store returns. Every sequence of calls keeps names unique
(`Session.Run`). Without uniqueness the answer depends on the store's choice
(`ControllerProperties.UpdateConflictDependsOnLookup`).

Messages are kept as the code spells them. The update handler's validation
message is "ALl fields are required", with the capital L (line 68). Its
conflict message is "Duplicate username" (line 81), while create says
"Duplicate user" (line 34).

## Model

| member | source | states |
|---|---|---|
| UsersController.CreateNewUser | controllers/usersController.js:22-50 | A missing or empty userName or password, or a missing or empty roles array, gives 400 "All fields are required". A name held by any record gives 409 "Duplicate user". A well-formed request with a free name for which the store creates nothing gives 400 "Invalid user data received". Success (200) happens exactly when the request is well formed, the name is free and the store created the record. On success there is exactly one new key, with the given name and roles and the password `Digest(hash(password))`. All older records are unchanged, and no other record holds the name. Every refusal leaves the store unchanged. Unique names stay unique. |
| UsersController.UpdateUser | controllers/usersController.js:56-96 | A missing or empty id or userName, a missing or empty roles array, or a missing boolean active gives 400 "ALl fields are required". An unknown id gives 400 "User not found" and never 409. When the lookup returns a record with another id, the answer is 409 "Duplicate username". While names are unique, this happens exactly when another record holds the name. Success happens exactly when none of these holds. It sets userName, roles and active on the target. It replaces the digest with `Digest(hash(password))` only when a non-empty password is given, and keeps it otherwise. The key set and all other records are unchanged. Every refusal leaves the store unchanged. Unique names stay unique. |
| UsersController.DeleteIdGuard | controllers/usersController.js:102-106 | The delete handler refuses with 400 "User ID required" exactly when the id is absent or empty. |
| UserStore.FindOneDecidesConflict | controllers/usersController.js:77-82 | While names are unique, for any answer the name lookup could give, "it returned a record with another id" is equivalent to "a record with another id holds the name". |
| ControllerProperties.CreateCount | controllers/usersController.js:31-46 | A successful create grows the store by exactly one record. Every refused create keeps the record count. |
| ControllerProperties.CreateThenDuplicate | controllers/usersController.js:31-35 | After a successful create, the same request again is refused with 409 and writes nothing, whatever the store would allocate and whatever the hash gives. |
| ControllerProperties.UpdateOwnNameAccepted | controllers/usersController.js:77-82 | While names are unique, a well-formed update of an existing record that keeps its current name succeeds with "<name> updated", whichever record the lookup returns. |
| ControllerProperties.UpdateRepeated | controllers/usersController.js:84-95 | While names are unique, repeating a successful update gives the same response. The second call changes at most the target's digest: it re-hashes it when the request carries a password, with the second call's own hash. Without a password the store is left as the first update left it. |
| ControllerProperties.UpdateConflictDependsOnLookup | controllers/usersController.js:78-82 | On a store where records "a" and "b" share a name, updating "a" to that name succeeds when the lookup returns "a", although "b" holds the name. It is a conflict when the lookup returns "b". |
| ControllerProperties.AliceCreated | controllers/usersController.js:22-46 | Creating "alice" with password "secret1" and roles ["Employee"] on an empty store answers 200 "New user alice created". The store then holds exactly that record under "id1", with the digest of "secret1". |
| ControllerProperties.AliceCreatedTwice | controllers/usersController.js:31-35 | Creating "alice" again answers 409 "Duplicate user" and leaves the store as it was, whatever the second call's hash. |
| ControllerProperties.AliceUpdatedWithoutPassword | controllers/usersController.js:56-95 | Updating "alice" with the same name, roles ["Employee"], active true and no password answers 200 "alice updated". Only the active flag changes, and the digest from creation is kept. |
| Session.Step | controllers/usersController.js:22-96 | Dispatching a call never adds a key other than the id the store handed out. A refused call leaves the store unchanged. Unique names stay unique. |
| Session.Run | controllers/usersController.js:22-96 | Handling a sequence of calls one after another yields one response per call. If the store hands out fresh ids and the lookup answers lawfully, a run that starts with unique usernames ends with unique usernames. A run in which every call was refused ends with the store it started from. Proved by induction over the calls. |

## Left out

- `getAllUsers` (lines 10-16): it calls `find` on the undeclared name `user`, so it cannot succeed as written. What remains is a query with no decision to model.
- `deleteUser` after its id guard (lines 108-125): the notes guard reads `.length` of a single document, and the deletion calls an undeclared `deleteOne()`. Neither "has notes" nor "deleted" behaviour is modelled.
- bcrypt's cost factor and internals (lines 38, 90): the hash is an opaque parameter. bcrypt draws a fresh salt on every call, so hashing the same password twice gives different digests. The model therefore never relates digests made by two different calls.
- The store's own failures: `User.create` rejecting (line 43), a malformed id making `findById` throw (line 71), and `save()` failing (line 93). The modelled `alloc = None` branch covers only a create that resolves to nothing (lines 47-48). These are exceptions passed to outer middleware, not decisions of the handlers.
- UsersController.UpdateUser: ids are exact map keys in both the existence check and the conflict test. The source's `findById` (line 71) casts the id and accepts non-canonical spellings, such as upper-case hex. The conflict test at line 80 compares the raw request string with `_id.toString()`. So the source, given a non-canonical spelling of an existing id, finds the record. It answers 409 when the new name is the record's own name, and answers 200 and writes when the new name is free. The model does not treat that spelling as a key, so it answers 400 "User not found" in both cases. The model agrees with the source only on canonical ids.
- Request fields of non-string types, such as a numeric userName: the model types userName, password and id as strings and roles as an array of strings.
- The check-then-write race between concurrent requests on the same username: the model is sequential.
- The default value of `active` on a newly created record: it belongs to the store's schema, which is not part of this model.
- `client/src/components/Public.js`: static page markup with no logic.
