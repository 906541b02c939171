# Library catalog request handling, modelled in Dafny

The system is a small Flask web application that keeps a catalog of books in
a hosted `books` table. The create and update handlers check a submitted
form. The list, create, update and delete handlers query the table, and the
last three then make at most one write. Most handlers flash a one-shot status
message; the empty create form (`GET /book/new`) does neither.
This project models that logic:

- `Validation` (`validation.dfy`) models `validate_book_data`. A form field is
  missing when it is absent (`None`) or the empty string; a field of blanks is
  present. Every violation is collected in the order title, author, ISBN.
  The violations are joined with `", "` into a single message.
- `Catalog` (`catalog.dfy`) models the handlers `index`, `create_book`,
  `update_book` (GET and POST) and `delete_book`. `Create`, `Update` and
  `Delete` are pure functions from the table (`map<int, Book>`) and the
  request's inputs to a `Result` and the table afterwards. `EditView` returns
  the edit page to show, and `Index` is a method returning the listed rows
  and an optional notice. The results are `Ok(title)`, `Invalid(message)`,
  `Conflict(isbn)`, `NotFound(id)` and `StoreFailure(reason)`.
  `NoticeFor` gives the flashed status message for each result.
- `Session` (`session.dfy`) handles requests one after another. The table
  hands out ids from an identity counter. The module proves that any sequence
  of requests keeps the catalog invariant: no two rows share an ISBN.
- `Text` (`text.dfy`) holds Python's `", ".join`, a `split(", ")` that
  undoes it on one or more comma-free pieces, and `str(n)` for ids. They are
  used to show that messages carry their contents recoverably.

The remote table calls are map operations. The outcome of each write call
(`insert`, `update`, `delete`) is an input, a `WriteReply`. The call either
returns rows, returns an empty `data`, or raises an exception carrying a
reason. Both failure forms become `StoreFailure` and leave the table
unchanged. Reads (`select`) on the create, update and delete paths always
succeed. The listing on `GET /` may fail; the failure's text is an input.

`Create` receives the new row's id from its caller, and the id must not be
in use. The id is the table's to choose, not the form's. `Session.Apply`
supplies it from the identity counter and proves that id is fresh.

## Model

| member | source | states |
|---|---|---|
| Validation.Violations | app.py:43-50 | The violations are empty exactly when title, author and ISBN are all present (not None, not ""). A field's violation occurs exactly when that field is missing. Violations appear in the fixed order title, author, ISBN, with none repeated. |
| Validation.MessageListsViolations | app.py:51-52 | For an invalid form, splitting the joined message on ", " gives back exactly the list of violations, in order. |
| Validation.Message | app.py:51-52 | The ValidationError text is empty exactly when the form passes validation. Otherwise it begins with the first violation. |
| Validation.WhitespaceIsPresent | app.py:45-50 | Any non-empty texts for title, author and ISBN, chosen independently and blanks included, pass validation. |
| Validation.AllMissingMessage | app.py:44-52 | With all three fields missing, the message is "Title is required, Author is required, ISBN is required". |
| Text.Join | app.py:52 | Joining no pieces gives "". Otherwise the result starts with the first piece, and its length is the pieces' total length plus two characters per separator. |
| Text.SplitJoin | app.py:52 | For one or more comma-free pieces, joining with ", " and then splitting on ", " gives the pieces back. |
| Catalog.Create | app.py:65-89 | An invalid form gives Invalid with the validation message. A valid form whose ISBN some row holds gives Conflict naming the submitted ISBN. A failed insert gives StoreFailure. Every rejection leaves the table unchanged. Otherwise the result is Ok with the title, and exactly one row is added under the new id. That row has the submitted title, author and ISBN and is available. Every other row is unchanged. |
| Catalog.IsbnTaken | app.py:78-79 | The duplicate query finds a row exactly when some stored book carries the ISBN. |
| Catalog.IsbnTakenByOther | app.py:124-125 | A row found by the query that excludes the book's own id also makes the ISBN taken. If the ISBN is taken but no other row holds it, the book itself holds it. |
| Catalog.CreateRejectsDuplicate | app.py:77-80 | If any row already holds the submitted ISBN, a valid create is a Conflict naming that ISBN, and the table is unchanged. |
| Catalog.CreateKeepsIsbnsUnique | app.py:77-83 | If no two rows share an ISBN before a create, none do after it. |
| Catalog.EditView | app.py:103-109 | The edit form is shown exactly when the id exists, and it is filled with the stored row. Otherwise the browser goes back to the list with NotFound(id). |
| Catalog.Update | app.py:100-135 | A missing id gives NotFound(id); this is checked before validation. Next come Invalid, then Conflict when a row with a different id holds the ISBN, then StoreFailure for a failed write. All of these leave the table unchanged. On Ok, the row gets the submitted title, author and ISBN, and it is available exactly when the checkbox value is "on". The set of ids is unchanged and every other row is unchanged. |
| Catalog.UpdateRejectsOthersIsbn | app.py:123-126 | Updating a book to an ISBN held by another row is a Conflict naming that ISBN, and the table is unchanged. |
| Catalog.UpdateAcceptsOwnIsbn | app.py:123-129 | If ISBNs are unique, resubmitting a book with its own current ISBN is not a conflict. With a successful write, the update succeeds. |
| Catalog.UpdateKeepsIsbnsUnique | app.py:123-129 | If no two rows share an ISBN before an update, none do after it. |
| Catalog.UpdateThenEditShowsSubmission | app.py:104-129 | After a successful update, the edit view of that id shows the submitted values. |
| Catalog.Delete | app.py:153-170 | A missing id gives NotFound(id) and a failed delete gives StoreFailure; both leave the table unchanged. Otherwise the result is Ok with the title read before deletion. Exactly that id is removed, and every remaining row is unchanged. |
| Catalog.DeleteKeepsIsbnsUnique | app.py:164-165 | Removing a row keeps ISBNs unique. |
| Catalog.ListRows | app.py:57 | The listing holds each row of the table exactly once, with its id, in no guaranteed order. |
| Catalog.Index | app.py:54-61 | If the fetch succeeds, the page lists exactly the table's rows and flashes nothing. If it fails, the page lists no rows and flashes an error naming the failure. |
| Catalog.NoticeFor | app.py:88-96 | The flashed category is "success" exactly for Ok and "error" otherwise. A validation failure flashes the validation message itself. |
| Catalog.NotFoundText | app.py:106-107 | The message is "Book with ID ", then decimal digits, then " not found", and the digits read back as the id. |
| Text.Decimal | app.py:107 | The id is rendered as at least one decimal digit, with no leading zero unless the id is 0. |
| Text.ParseDecimalInverts | app.py:107 | Reading the rendered digits back gives the id. |
| Catalog.NotFoundTextNamesId | app.py:106-107 | Two "Book with ID … not found" messages are equal exactly when their ids are equal, so the message identifies the id. |
| Session.Apply | app.py:78-83 | Handling a request keeps every id below the identity counter, so a create's id is always fresh. The counter never goes back, and a rejected request leaves the table unchanged. |
| Session.RunKeepsIsbnsUnique | app.py:77-129 | Any sequence of create, update and delete requests handled one at a time keeps the invariant that no two rows share an ISBN. |
| Session.DuneSubmittedTwice | app.py:67-83 | Creating Dune/Herbert/"123" in an empty table adds row 1 as available. Submitting it again is a Conflict naming "123" and adds no second row. |

## Left out

- Flask routing, templates, redirects and `url_for`: results are values. The form that is re-shown with the submitted values after a failure is not modelled.
- The flash-message storage: `NoticeFor` gives the text and category of each message, but not the one-shot session store.
- Supabase client construction, `.env` loading, the secret key, the `before_request` connection check and the 404/500 handlers (app.py:17-41, 180-191): configuration and I/O.
- `GET /book/new` just renders an empty form; there is no logic to state.
- Exceptions raised by the reads on the create, update and delete paths: reads are assumed to succeed. Such an exception would flash "Error adding book: …", "Error updating book: …", "Error accessing book: …" or "Error deleting book: …", and nothing would be written.
- Which ids the hosted table assigns: `Create` takes the id as an input. `Session` models the assignment with an identity counter.
- The race between the ISBN check and the write under concurrent requests: each request runs atomically, one after another.
- `static/js/main.js`: DOM manipulation, timers and menu toggling in the browser.
- Catalog.NoticeFor: the contract states only the category and the validation-message case. The texts for the other results are given by the definition only; `NotFoundTextNamesId` adds that the not-found text identifies its id.
