/**
 Properties that relate several handler calls: inverses, repeat submissions,
 what the views reveal, and the ownership invariant.
 */
module Properties {
  import opened NoteStore
  import opened Views

  /** A saved note is shown to its creator, and to nobody else. */
  lemma CreatedNoteVisibleToOwnerOnly(
    store: Store, requester: UserId, other: UserId, title: Title, content: string, defaults: Defaults)
    requires Create(store, requester, title, content, defaults).outcome == Saved
    requires other != requester
    ensures var s := Create(store, requester, title, content, defaults).store;
      && Detail(s, requester, title) == Render(DetailPage, Note(Some(requester), content, defaults.doc, defaults.modifyDate))
      && Edit(s, requester, title) == Render(EditPage, Note(Some(requester), content, defaults.doc, defaults.modifyDate))
      && Detail(s, other, title) == NoSuchNoteInAccount
      && Edit(s, other, title) == NoSuchNoteInAccount
  {
  }

  /** The creator, holding the delete permission, can delete a note just saved, which restores the store. */
  lemma DeleteUndoesCreate(store: Store, requester: UserId, title: Title, content: string, defaults: Defaults)
    requires Create(store, requester, title, content, defaults).outcome == Saved
    ensures Delete(Create(store, requester, title, content, defaults).store, requester, title, true)
         == Response(Deleted, store)
  {
  }

  /**
   A missing note and another user's note produce the same outcome on both
   single-note pages, so the pages do not reveal which titles other users hold.
   */
  lemma MissingAndForeignLookAlike(missing: Store, foreign: Store, requester: UserId, title: Title)
    requires title !in missing
    requires title in foreign && foreign[title].user != Some(requester)
    ensures Detail(missing, requester, title) == Detail(foreign, requester, title) == NoSuchNoteInAccount
    ensures Edit(missing, requester, title) == Edit(foreign, requester, title) == NoSuchNoteInAccount
  {
  }

  /** A note is never deleted, by anyone holding any permission, unless the deleter owns it. */
  lemma OnlyOwnerDeletes(store: Store, requester: UserId, title: Title, canDelete: bool)
    requires title in store && !OwnedBy(store, title, requester)
    ensures Delete(store, requester, title, canDelete) == Response(NotOwner, store)
  {
  }

  /**
   Submitting the edit form again for the note an update just produced (the
   new title as `old_title`, the same title and content) detects no change.
   */
  lemma ResubmittedUpdateIsNoChange(
    store: Store, title: Title, content: string, oldTitle: Title, now: Time, later: Time)
    requires Update(store, title, content, oldTitle, now).outcome in {Renamed, ContentUpdated}
    ensures var s := Update(store, title, content, oldTitle, now).store;
      Update(s, title, content, title, later) == Response(NoChange, s)
  {
  }

  /**
   Renaming a note and renaming it straight back restores every key and the
   note's content and `doc`; what it does not restore is the owner, and the
   modification time is that of the second rename.
   */
  lemma RenameThereAndBack(store: Store, a: Title, b: Title, now: Time, later: Time)
    requires Update(store, b, if a in store then store[a].content else [], a, now).outcome == Renamed
    requires |a| >= MinTitleLength
    ensures var note := store[a];
      var there := Update(store, b, note.content, a, now);
      var back := Update(there.store, a, note.content, b, later);
      && back.outcome == Renamed
      && back.store == store[a := Note(None, note.content, note.doc, later)]
  {
  }

  /**
   Every handler except a rename keeps every note owned: creation records the
   requester, deletion removes a row, a content update keeps the row's owner.
   */
  lemma HandlersKeepNotesOwned(
    store: Store, requester: UserId, title: Title, content: string, oldTitle: Title,
    defaults: Defaults, canDelete: bool, now: Time)
    requires AllOwned(store)
    ensures AllOwned(Create(store, requester, title, content, defaults).store)
    ensures AllOwned(Delete(store, requester, title, canDelete).store)
    ensures Update(store, title, content, oldTitle, now).outcome != Renamed ==>
            AllOwned(Update(store, title, content, oldTitle, now).store)
  {
  }

  /**
   The walk-through: "Trip" is saved, a second "Trip" is refused, an update of
   its content is applied with the current time, and a two-letter title is refused.
   */
  lemma TripScenario(requester: UserId, defaults: Defaults, now: Time)
    ensures var first := Create(map[], requester, "Trip", "Plan", defaults);
      var second := Create(first.store, requester, "Trip", "Other", defaults);
      var edit := Update(second.store, "Trip", "Other", "Trip", now);
      var short := Update(edit.store, "Tr", "Other", "Trip", now);
      && first.outcome == Saved
      && second.outcome == TitleTaken && second.store == first.store
      && edit.outcome == ContentUpdated
      && edit.store["Trip"] == Note(Some(requester), "Other", defaults.doc, now)
      && short.outcome == TitleTooShort && short.store == edit.store
  {
  }
}
