/**
 The owner of a renamed note.

 `update_note` renames a note by deleting the old row and then saving a new
 row built from the new title, the content, the old `doc` and the current
 time. The new row is given no owner, so the note drops out of its owner's index,
 its detail and edit pages refuse everyone, and nobody can delete it.
 `UpdateKeepingOwner` is the handler with the owner carried over.
 */
module Ownership {
  import opened NoteStore
  import opened Views

  /** After a rename as written, no user can see, edit or delete the note. */
  lemma RenameOrphansNote(
    store: Store, title: Title, content: string, oldTitle: Title, now: Time, user: UserId, canDelete: bool)
    requires Update(store, title, content, oldTitle, now).outcome == Renamed
    ensures var s := Update(store, title, content, oldTitle, now).store;
      && Detail(s, user, title) == NoSuchNoteInAccount
      && Edit(s, user, title) == NoSuchNoteInAccount
      && Delete(s, user, title, canDelete) == Response(NotOwner, s)
      && !AllOwned(s)
  {
  }

  /** A concrete instance: user 1 renames "Trip" to "Trip2" and loses it. */
  lemma RenameOrphansTrip()
    ensures var store := map["Trip" := Note(Some(1), "Plan", "", 0)];
      var r := Update(store, "Trip2", "Plan", "Trip", 5);
      && AllOwned(store)
      && Detail(store, 1, "Trip") == Render(DetailPage, store["Trip"])
      && r.outcome == Renamed
      && Detail(r.store, 1, "Trip2") == NoSuchNoteInAccount
      && Detail(r.store, 1, "Trip") == NoSuchNoteInAccount
      && !AllOwned(r.store)
  {
  }

  /**
   `update_note` with the renamed row owned by the note's owner. It takes the
   same branch as the handler on every input and differs from it only in the
   owner of a renamed note.
   */
  function UpdateKeepingOwner(store: Store, title: Title, content: string, oldTitle: Title, now: Time)
    : (r: Response<UpdateOutcome>)
    ensures r.outcome == Update(store, title, content, oldTitle, now).outcome
    ensures r.outcome != Renamed ==> r == Update(store, title, content, oldTitle, now)
    ensures r.outcome == Renamed ==>
      && title in r.store
      && r.store[title] == Update(store, title, content, oldTitle, now).store[title].(user := store[oldTitle].user)
      && r.store - {title} == Update(store, title, content, oldTitle, now).store - {title}
    ensures forall u :: OwnedBy(store, oldTitle, u) && r.outcome in {Renamed, ContentUpdated} ==> OwnedBy(r.store, title, u)
    ensures AllOwned(store) ==> AllOwned(r.store)
  {
    var plain := Update(store, title, content, oldTitle, now);
    if plain.outcome == Renamed then
      var s := plain.store[title := plain.store[title].(user := store[oldTitle].user)];
      assert s - {title} == plain.store - {title};
      Response(Renamed, s)
    else plain
  }

  /** With the owner carried over, the owner still sees the renamed note, and only the owner. */
  lemma RenameKeepsNoteVisible(
    store: Store, title: Title, content: string, oldTitle: Title, now: Time, owner: UserId, other: UserId)
    requires OwnedBy(store, oldTitle, owner) && other != owner
    requires UpdateKeepingOwner(store, title, content, oldTitle, now).outcome == Renamed
    ensures var s := UpdateKeepingOwner(store, title, content, oldTitle, now).store;
      && Detail(s, owner, title) == Render(DetailPage, Note(Some(owner), content, store[oldTitle].doc, now))
      && Detail(s, other, title) == NoSuchNoteInAccount
      && Delete(s, owner, title, true) == Response(Deleted, s - {title})
  {
  }
}
