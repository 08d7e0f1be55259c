/** Requests handled one after another against one store: the uniqueness of
    usernames holds after every call when it held at the start. */
module Session {
  import opened UserStore
  import opened UsersController

  /** One handled request. A create carries what the store answered to it:
      the id it assigned, or nothing when it created no record. Every call
      carries its own hash function, because bcrypt salts every call. */
  datatype Call =
    | Create(create: CreateRequest, alloc: Option<Id>, hash: string -> string)
    | Update(update: UpdateRequest, hash: string -> string)

  /** The id the store handed out for a call, if any. */
  function Handed(c: Call): set<Id> {
    if c.Create? && c.alloc.Some? then {c.alloc.value} else {}
  }

  /** Every id the store hands out is new: not in `used`, and not handed out
      earlier in the same run. */
  predicate AllocsFresh(calls: seq<Call>, used: set<Id>)
    decreases |calls|
  {
    calls == [] || (Handed(calls[0]) !! used && AllocsFresh(calls[1..], used + Handed(calls[0])))
  }

  /** The store's name lookup always answers as `findOne({ userName })` may. */
  ghost predicate LawfulLookup(findOne: (Store, string) -> Option<Id>) {
    forall t, name :: FindOneAnswers(t, name, findOne(t, name))
  }

  /** One call dispatched to its handler; `findOne` answers the update's name
      lookup. */
  function Step(c: Call, s: Store, findOne: (Store, string) -> Option<Id>): (r: Reply)
    requires c.Create? && c.alloc.Some? ==> c.alloc.value !in s
    requires c.Update? && c.update.userName.Some? ==>
               FindOneAnswers(s, c.update.userName.value, findOne(s, c.update.userName.value))
    ensures r.store.Keys <= s.Keys + Handed(c)
    ensures r.response.status != 200 ==> r.store == s
    ensures UniqueNames(s) ==> UniqueNames(r.store)
  {
    match c
    case Create(req, alloc, hash) => CreateNewUser(req, s, hash, alloc)
    case Update(req, hash) =>
      var found := if req.userName.Some? then findOne(s, req.userName.value) else None;
      UpdateUser(req, s, hash, found)
  }

  /** The responses to `calls`, in order, and the final store. */
  datatype Trace = Trace(responses: seq<Response>, store: Store)

  /** Handles `calls` one after another. Starting from a store with unique
      usernames, every sequence of creates and updates ends with unique
      usernames; a run in which every call was refused ends with the store it
      started from. */
  function Run(calls: seq<Call>, s: Store, findOne: (Store, string) -> Option<Id>, used: set<Id>): (r: Trace)
    requires LawfulLookup(findOne)
    requires s.Keys <= used
    requires AllocsFresh(calls, used)
    ensures |r.responses| == |calls|
    ensures UniqueNames(s) ==> UniqueNames(r.store)
    ensures (forall i :: 0 <= i < |r.responses| ==> r.responses[i].status != 200) ==> r.store == s
    decreases |calls|
  {
    if calls == [] then Trace([], s)
    else
      var c := calls[0];
      var step := Step(c, s, findOne);
      var rest := Run(calls[1..], step.store, findOne, used + Handed(c));
      var r := Trace([step.response] + rest.responses, rest.store);
      assert r.responses[0] == step.response;
      assert forall i :: 0 <= i < |rest.responses| ==> rest.responses[i] == r.responses[i + 1];
      r
  }
}
