# Note keeper: a Dafny model of the note handlers

The note keeper is a small Django application. Users save text notes, list
them, open and edit them, rename them and delete them. All of its logic sits
in the request handlers of `note_keeper/views.py`, and this project models
that logic.

The `Note` table is modelled as an immutable finite map from title to row
(`NoteStore.Store`). The title is the table's primary key, so a title is
unique across all users. A row holds the owner (`user`), `content`, `doc` and
`modify_date`.

Each handler is a pure function from the store and the request's inputs to
a `Response`. A `Response` holds an outcome tag and the store afterwards. The
outcome tag stands for the handler's flash message and redirect.

Everything a handler reads from the outside world is an explicit parameter:
- the session user (`requester`);
- the clock (`now`);
- the `note_keeper.delete_note` permission (`canDelete`);
- the values the table fills in on insert for the columns `create_note` does not set (`Defaults`).

Files:
- `store.dfy` (`NoteStore`): the row, the store, the ownership predicates.
- `views.dfy` (`Views`): `create_note`, `delete_note`, `update_note`, and the ownership gate of the detail and edit pages.
- `listing.dfy` (`Listing`): the index page's query.
- `properties.dfy` (`Properties`): lemmas that relate several calls.
- `ownership.dfy` (`Ownership`): the ownerless-rename finding below.

Points worth knowing about the handlers:
- `update_note` never looks at the requester. Any client that submits the form can rewrite or rename any user's note. Only the edit page (`Views.Edit`) is gated by owner. `Views.Update` therefore takes no requester.
- A rename deletes the old row and then saves a new row without an owner (`user` is `None` in the model). The consequences are recorded under "Findings".
- The update handler's last guard ("same title and different content") always holds when it is reached. The model asserts this and keeps no dead branch.

## Model

| member | source | states |
|---|---|---|
| `Views.Create` | note_keeper/views.py:74-88 | An empty title or empty content is refused. A title already in the store, whoever owns it, is refused. Both refusals leave the store unchanged. On success, exactly one entry is added, under the title, owned by the requester, with the given content. Every other entry is unchanged. |
| `Views.Delete` | note_keeper/views.py:58-71 | The checks are, in order: the title exists, the requester owns it, the requester holds the delete permission. Each outcome is stated as an if-and-only-if. Only the last outcome removes the key, and it removes only that key. Every refusal leaves the store unchanged. |
| `Views.Update` | note_keeper/views.py:90-122 | The six branches are stated as if-and-only-if conditions: title shorter than 3, `old_title` absent, nothing changed, new title taken, rename, content update. The first four leave the store unchanged. A rename removes `old_title` and adds the new title with the given content, the old `doc`, time `now` and no owner. It keeps the note count and every other key. A content update keeps the keys, the `doc` and the owner, and sets the content and the time. |
| `Views.ShowOwned` | note_keeper/views.py:30-37 | A note is rendered if and only if it exists and the requester owns it. The rendered note is the stored row. |
| `Views.Detail` | note_keeper/views.py:30-39 | The owner of a note is shown the stored row on the detail page. A missing note and another user's note both produce "no such note in your account". |
| `Views.Edit` | note_keeper/views.py:46-55 | The owner of a note is shown the stored row on the edit page. A missing note and another user's note both produce "no such note in your account". |
| `Listing.InsertByDate` | note_keeper/views.py:18 | Inserting a row into a list ordered by `modify_date` descending keeps the order. The list gains exactly that row: its multiset of rows is the old one plus the new row. |
| `Listing.NewestFirst` | note_keeper/views.py:18 | Lists each of the requester's notes with `modify_date <= now` exactly once, each as its stored row, ordered by `modify_date` descending. |
| `Listing.LatestNotes` | note_keeper/views.py:16-18 | The index list holds the smaller of 3 and the number of listable notes. Each is the requester's own note with `modify_date <= now`. The titles are distinct and the order is by `modify_date` descending. Every listable note left out is no newer than every note shown. |
| `Properties.CreatedNoteVisibleToOwnerOnly` | note_keeper/views.py:85-88 | A note just saved is shown on the detail and edit pages to its creator, and to no other user. |
| `Properties.DeleteUndoesCreate` | note_keeper/views.py:58-71 | The creator, holding the permission, can delete a note just saved. Deleting it restores the original store exactly. |
| `Properties.MissingAndForeignLookAlike` | note_keeper/views.py:46-53 | On both single-note pages, a title absent from one store and a title owned by someone else in another store give the same outcome. |
| `Properties.OnlyOwnerDeletes` | note_keeper/views.py:61-63 | A non-owner's delete is refused as "not owner" and leaves the store unchanged, whether or not they hold the delete permission. |
| `Properties.ResubmittedUpdateIsNoChange` | note_keeper/views.py:102-105 | After a successful rename or content update, submitting the same title and content again for the resulting note gives "no change" and leaves the store as it is. |
| `Properties.RenameThereAndBack` | note_keeper/views.py:107-114 | Renaming a to b and back to a restores every key, the content and the `doc`. The note ends without an owner and with the time of the second rename. |
| `Properties.HandlersKeepNotesOwned` | note_keeper/views.py:85 | If every note has an owner, a create, a delete and every update other than a rename keep that true. |
| `Properties.TripScenario` | note_keeper/views.py:78-96 | Worked example: "Trip" is saved; a second "Trip" is refused; a content update applies with the current time; the two-letter title "Tr" is refused. |
| `Ownership.RenameOrphansNote` | note_keeper/views.py:111 | After a rename as written, no user can see, edit or delete the renamed note, and the store holds a note without an owner. |
| `Ownership.RenameOrphansTrip` | note_keeper/views.py:111-113 | Concrete case: user 1 sees "Trip". After renaming it to "Trip2", user 1 sees neither title. |
| `Ownership.UpdateKeepingOwner` | note_keeper/views.py:90-122 | The corrected handler takes the same branch as `update_note` on every input. It differs only in carrying the owner over to a renamed note. It preserves "every note has an owner". |
| `Ownership.RenameKeepsNoteVisible` | note_keeper/views.py:111-114 | With the corrected handler, the owner still sees and can delete the renamed note, and other users still cannot see it. |

## Findings

| source | as written | input that shows it | evidently intended | confidence | as-written member | corrected member |
|---|---|---|---|---|---|---|
| note_keeper/views.py:111 | The renamed row is built from the title, the content, `doc` and the time, with no `user`. | Store `{"Trip": owned by user 1}`, update with title "Trip2", same content, `old_title` "Trip". | `user=note.user` is carried over, as it is on a content update. | medium, not executed: the `Note` model is not part of this model. If its `user` column is non-nullable, the save fails instead of storing an ownerless row. In that case the old row has already been deleted, so the note is lost. | `Ownership.RenameOrphansNote`, `Ownership.RenameOrphansTrip` | `Ownership.UpdateKeepingOwner`, `Ownership.RenameKeepsNoteVisible` |

`Views.Update` stays the code as written. The corrected handler is given next to it, so the rest of the model describes what the application does.

## Left out

- Templates, URL reversal, flash message text and HTTP response objects are presentation. Outcome tags stand in for them. The redirect to `HTTP_REFERER` on a taken rename title is the `NewTitleTaken` outcome.
- `Views.Update`: a request with no Referer header makes the taken-rename-title branch raise instead of redirecting. The model reports `NewTitleTaken` for it. The store is unchanged either way, and the exception is not modelled.
- Authentication and `LoginRequiredMixin` belong to the framework. The requester is a parameter. The function handlers carry no login decorator, so an anonymous requester is possible there. That case is not modelled.
- `request.user.has_perm('note_keeper.delete_note')` is a call into the framework. It is the boolean `canDelete`.
- `timezone.now()` is the integer parameter `now`.
- The table's defaults for `doc` and `modify_date` on `create` are not visible (the `Note` model is not part of this model). They are the opaque input `Defaults`, and nothing is claimed about their values.
- A missing form field makes the handler raise where it reads `request.POST[...]`. That happens before any check or write, so the store is unchanged. It is not modelled.
- The Django ORM, transactions, and the race between checking for a title and writing it are concurrency and external persistence. Each handler is one atomic step here.
- `IndexView.get_context_data` adds an unfiltered "all notes" list. It is a plain filter by owner with no further logic.
- Rows with equal `modify_date` come back in whatever order the database chooses. `Listing.NewestFirst` and `Listing.LatestNotes` allow any such order.
- Primary-key lookups are exact string comparisons. Collation effects of a particular database are not modelled.
