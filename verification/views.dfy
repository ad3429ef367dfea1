/**
 The request handlers of the note keeper, each a pure transition of the store.

 Everything a handler reads from outside is a parameter: the requester (the
 session user), the current time, whether the requester holds the
 `note_keeper.delete_note` permission, and the column defaults the table
 supplies on insert. A handler returns the branch it took (standing for the
 flash message and redirect) together with the store afterwards.
 */
module Views {
  import opened NoteStore

  /** `update_note` refuses titles shorter than this. */
  const MinTitleLength: nat := 3

  datatype CreateOutcome =
    | EmptyField       // "Title or Content is empty"
    | TitleTaken       // "Title is taken, remove the previous note first!"
    | Saved            // "Note: ... has been saved"

  datatype DeleteOutcome =
    | NoSuchTitle          // "Note title ... is not existed"
    | NotOwner             // "You cannot delete other people note"
    | NoDeletePermission   // "No permission to delete"
    | Deleted              // "Note title #... has been deleted"

  datatype UpdateOutcome =
    | TitleTooShort    // "Please enter the title at least 3 characters"
    | NotFound         // "Sorry, I cannot let you do this"
    | NoChange         // "No change detected"
    | NewTitleTaken    // "Title is already taken!", back to the referring page
    | Renamed          // old row deleted, new row saved, back to the index
    | ContentUpdated   // "Note #... has been updated", on to the note's page

  /** The two pages that show a single note. */
  datatype Page = DetailPage | EditPage

  datatype ViewOutcome =
    | Render(page: Page, note: Note)
    | NoSuchNoteInAccount  // "There is no such note in your account"

  /** `create_note`: insert a note owned by the requester under a fresh, non-empty title. */
  function Create(store: Store, requester: UserId, title: Title, content: string, defaults: Defaults)
    : (r: Response<CreateOutcome>)
    ensures r.outcome == EmptyField <==> title == [] || content == []
    ensures r.outcome == TitleTaken <==> title != [] && content != [] && title in store
    ensures r.outcome != Saved ==> r.store == store
    ensures r.outcome == Saved ==>
      && title !in store
      && title in r.store
      && r.store[title].user == Some(requester)
      && r.store[title].content == content
      && |r.store| == |store| + 1
      && AgreeOutside(store, r.store, {title})
  {
    if |title| == 0 || |content| == 0 then Response(EmptyField, store)
    else if title in store then Response(TitleTaken, store)
    else Response(Saved, store[title := Note(Some(requester), content, defaults.doc, defaults.modifyDate)])
  }

  /** `delete_note`: existence, then ownership, then the delete permission. */
  function Delete(store: Store, requester: UserId, title: Title, canDelete: bool): (r: Response<DeleteOutcome>)
    ensures r.outcome == NoSuchTitle <==> title !in store
    ensures r.outcome == NotOwner <==> title in store && !OwnedBy(store, title, requester)
    ensures r.outcome == NoDeletePermission <==> OwnedBy(store, title, requester) && !canDelete
    ensures r.outcome == Deleted <==> OwnedBy(store, title, requester) && canDelete
    ensures r.outcome != Deleted ==> r.store == store
    ensures r.outcome == Deleted ==>
      && title !in r.store
      && |r.store| == |store| - 1
      && AgreeOutside(store, r.store, {title})
  {
    if title !in store then Response(NoSuchTitle, store)
    else if store[title].user != Some(requester) then Response(NotOwner, store)
    else if !canDelete then Response(NoDeletePermission, store)
    else Response(Deleted, store - {title})
  }

  /**
   `update_note`. It has no notion of the requester: whoever submits the form
   may change any note. A rename builds a fresh row from the title, the
   content, the old `doc` and the time, and so saves it with no owner.
   */
  function Update(store: Store, title: Title, content: string, oldTitle: Title, now: Time)
    : (r: Response<UpdateOutcome>)
    ensures r.outcome == TitleTooShort <==> |title| < MinTitleLength
    ensures r.outcome == NotFound <==> |title| >= MinTitleLength && oldTitle !in store
    ensures r.outcome == NoChange <==>
      |title| >= MinTitleLength && oldTitle in store && title == oldTitle && store[oldTitle].content == content
    ensures r.outcome == NewTitleTaken <==>
      |title| >= MinTitleLength && oldTitle in store && title != oldTitle && title in store
    ensures r.outcome == Renamed <==>
      |title| >= MinTitleLength && oldTitle in store && title != oldTitle && title !in store
    ensures r.outcome == ContentUpdated <==>
      |title| >= MinTitleLength && oldTitle in store && title == oldTitle && store[oldTitle].content != content
    ensures r.outcome !in {Renamed, ContentUpdated} ==> r.store == store
    ensures r.outcome == Renamed ==>
      && oldTitle !in r.store
      && title in r.store
      && r.store[title] == Note(None, content, store[oldTitle].doc, now)
      && |r.store| == |store|
      && AgreeOutside(store, r.store, {oldTitle, title})
    ensures r.outcome == ContentUpdated ==>
      && r.store.Keys == store.Keys
      && r.store[title].content == content
      && r.store[title].modifyDate == now
      && r.store[title].doc == store[title].doc
      && r.store[title].user == store[title].user
      && AgreeOutside(store, r.store, {title})
  {
    if |title| < MinTitleLength then Response(TitleTooShort, store)
    else if oldTitle !in store then Response(NotFound, store)
    else
      var note := store[oldTitle];
      if oldTitle == title && note.content == content then Response(NoChange, store)
      else if oldTitle != title then
        if title in store then Response(NewTitleTaken, store)
        else Response(Renamed, (store - {oldTitle})[title := Note(None, content, note.doc, now)])
      else
        // `update_note`'s last `if` guards this branch with "same title and
        // different content", which the two tests above have already established.
        assert oldTitle == title && note.content != content;
        Response(ContentUpdated, store[title := note.(content := content, modifyDate := now)])
  }

  /** The gate `DetailView.get` and `EditView.get` share: only the owner's own note is shown. */
  function ShowOwned(store: Store, requester: UserId, title: Title, page: Page): (r: ViewOutcome)
    ensures r.Render? <==> OwnedBy(store, title, requester)
    ensures r.Render? ==> r.page == page && r.note == store[title]
  {
    if title in store && store[title].user == Some(requester) then Render(page, store[title])
    else NoSuchNoteInAccount
  }

  /** `DetailView.get`. */
  function Detail(store: Store, requester: UserId, title: Title): (r: ViewOutcome)
    ensures r.Render? ==> r.note.user == Some(requester) && r.page == DetailPage
    ensures OwnedBy(store, title, requester) ==> r == Render(DetailPage, store[title])
    ensures !OwnedBy(store, title, requester) ==> r == NoSuchNoteInAccount
  {
    ShowOwned(store, requester, title, DetailPage)
  }

  /** `EditView.get`. */
  function Edit(store: Store, requester: UserId, title: Title): (r: ViewOutcome)
    ensures r.Render? ==> r.note.user == Some(requester) && r.page == EditPage
    ensures OwnedBy(store, title, requester) ==> r == Render(EditPage, store[title])
    ensures !OwnedBy(store, title, requester) ==> r == NoSuchNoteInAccount
  {
    ShowOwned(store, requester, title, EditPage)
  }
}
