/**
 The note store: every note of every user, keyed by its title.

 The title is the primary key of the `Note` table, so it is unique across all
 users, not per user. The handlers only ever test a key for membership, read
 the row under a key, insert a row and delete a row by key, which is exactly
 what a finite map offers.
 */
module NoteStore {

  /** An optional value, used for a note's owner (a row can be saved without one). */
  datatype Option<+T> = None | Some(value: T)

  /** An account, as the authentication layer identifies it. */
  type UserId = nat

  /** A note title: the primary key of the store. */
  type Title = string

  /** A point in time, as the framework's clock reports it. */
  type Time = int

  /** The `doc` column; the handlers never look inside it, they only carry it over. */
  type Doc = string

  /** One row of the `Note` table, without its key. */
  datatype Note = Note(user: Option<UserId>, content: string, doc: Doc, modifyDate: Time)

  /** The values the table fills in for the columns `create` is not given. */
  datatype Defaults = Defaults(doc: Doc, modifyDate: Time)

  type Store = map<Title, Note>

  /** The result of a handler that may write: which branch it took and the store afterwards. */
  datatype Response<+O> = Response(outcome: O, store: Store)

  /** `requester` is the recorded owner of the note under `title`. */
  predicate OwnedBy(store: Store, title: Title, requester: UserId) {
    title in store && store[title].user == Some(requester)
  }

  /** Every note has an owner. */
  predicate AllOwned(store: Store) {
    forall t :: t in store ==> store[t].user.Some?
  }

  /** `s` and `s'` hold the same rows under every key outside `keys`. */
  ghost predicate AgreeOutside(s: Store, s': Store, keys: set<Title>) {
    forall t :: t !in keys ==> (t in s <==> t in s') && (t in s ==> s[t] == s'[t])
  }
}
