/** The user collection as the controller sees it: a finite map from record
    id to user record, with the username-uniqueness invariant the controller
    maintains by checking before it writes. */
module UserStore {

  /** An optional value, used for request fields that may be absent and for
      store answers that may be empty. */
  datatype Option<+T> = None | Some(value: T)

  /** A record id, compared with the request's `id` as a string. */
  type Id = string

  /** A stored password, as the handlers write it: always `Digest(hash(p))`
      for the plaintext `p` of the request. */
  datatype Digest = Digest(text: string)

  /** One user record. `active` is `None` while it still holds whatever the
      store defaults it to on creation. */
  datatype UserRec = UserRec(
    userName: string,
    password: Digest,
    roles: seq<string>,
    active: Option<bool>
  )

  type Store = map<Id, UserRec>

  /** No two records share a username. */
  predicate UniqueNames(s: Store) {
    forall a, b :: a in s && b in s && s[a].userName == s[b].userName ==> a == b
  }

  /** Some record holds `name`: what a `findOne({ userName })` lookup finds. */
  predicate NameTaken(s: Store, name: string) {
    exists k :: k in s && s[k].userName == name
  }

  /** A record other than `id` holds `name`. */
  predicate HeldByOther(s: Store, name: string, id: Id) {
    exists k :: k in s && k != id && s[k].userName == name
  }

  /** `found` is an answer the store may give to a `findOne({ userName })`
      lookup: nothing only when no record holds `name`, otherwise the id of
      some record that holds it. */
  predicate FindOneAnswers(s: Store, name: string, found: Option<Id>) {
    && (found.None? ==> !NameTaken(s, name))
    && (found.Some? ==> found.value in s && s[found.value].userName == name)
  }

  /** The update handler reports a conflict when the record the lookup
      returned has an id other than the request's. While names are unique,
      whichever record the store returns, that test agrees with "some other
      record holds the name". */
  lemma FindOneDecidesConflict(s: Store, name: string, id: Id, found: Option<Id>)
    requires UniqueNames(s)
    requires FindOneAnswers(s, name, found)
    ensures (found.Some? && found.value != id) <==> HeldByOther(s, name, id)
  {
  }
}
