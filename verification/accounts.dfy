/**
 * The account store that App.tsx and Login.tsx both keep under one storage
 * key: a record from email to account. Reading and writing the storage and
 * the JSON round trip are not modelled; the store is a map.
 */
module Accounts {
  import opened Types

  type Store = map<string, User>

  /** `db.saveUser`: the account is stored under its email; every other entry stays. */
  function SaveUser(store: Store, user: User): (s: Store)
    ensures s.Keys == store.Keys + {user.email}
    ensures s[user.email] == user
    ensures forall k :: k in store && k != user.email ==> s[k] == store[k]
  {
    store[user.email := user]
  }

  /** Every account is stored under its own email, as `SaveUser` always stores it. */
  predicate Keyed(store: Store) {
    forall k :: k in store ==> store[k].email == k
  }

  /** Saving keeps every account under its own email. */
  lemma SaveUserKeepsKeyed(store: Store, user: User)
    requires Keyed(store)
    ensures Keyed(SaveUser(store, user))
  {
  }

  /** Saving the same account twice is the same as saving it once. */
  lemma SaveUserIdempotent(store: Store, user: User)
    ensures SaveUser(SaveUser(store, user), user) == SaveUser(store, user)
  {
  }

  /** Saving an account that is already stored as it is changes nothing. */
  lemma SaveStoredUser(store: Store, user: User)
    requires user.email in store && store[user.email] == user
    ensures SaveUser(store, user) == store
  {
  }
}
