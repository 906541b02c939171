/**
 The book catalog's request handling around the remote `books` table:
 listing, creating, editing, updating and deleting rows, each as one
 sequential pass of checks followed by at most one write. The table is an
 immutable map from id to row; the outcome of each write call is an input.
 */
module Catalog {
  import opened Text
  import opened Validation

  /** One row of the `books` table, without its id (the id is the map key). */
  datatype Book = Book(title: string, author: string, isbn: string, isAvailable: bool)

  /** The `books` table: id to row. */
  type Store = map<int, Book>

  /** A listed row, id included, as `select('*')` returns it. */
  datatype Row = Row(id: int, book: Book)

  /** What a write call (insert, update, delete) came back with: affected
      rows, an empty `data`, or an exception carrying a reason. */
  datatype WriteReply = Written | NoData | Raised(reason: string)

  /** How an operation ended. `Ok` carries the title its success message names. */
  datatype Result =
    | Ok(title: string)
    | Invalid(message: string)
    | Conflict(isbn: string)
    | NotFound(id: nat)
    | StoreFailure(reason: string)

  /** An operation's result with the table as it stands afterwards. */
  datatype Step = Step(result: Result, store: Store)

  datatype Option<T> = None | Some(value: T)

  /** The catalog invariant: no two rows share an ISBN. */
  ghost predicate UniqueIsbns(store: Store)
  {
    forall a, b :: a in store && b in store && a != b ==> store[a].isbn != store[b].isbn
  }

  /** `select('*').eq('isbn', isbn)` returns some row: some stored book
      carries `isbn`. */
  predicate IsbnTaken(store: Store, isbn: string)
    ensures IsbnTaken(store, isbn) <==> exists b :: b in store.Values && b.isbn == isbn
  {
    var taken := exists k :: k in store && store[k].isbn == isbn;
    assert taken ==> exists b :: b in store.Values && b.isbn == isbn by {
      if taken {
        var k :| k in store && store[k].isbn == isbn;
        assert store[k] in store.Values;
      }
    }
    assert (exists b :: b in store.Values && b.isbn == isbn) ==> taken by {
      if exists b :: b in store.Values && b.isbn == isbn {
        var b :| b in store.Values && b.isbn == isbn;
        if forall k :: k in store ==> store[k] != b {
          assert false;
        }
      }
    }
    taken
  }

  /** `select('*').eq('isbn', isbn).neq('id', id)` returns some row. Such a
      row also makes the ISBN taken; a taken ISBN that no other row holds
      is held by row `id` itself. */
  predicate IsbnTakenByOther(store: Store, isbn: string, id: int)
    ensures IsbnTakenByOther(store, isbn, id) ==> IsbnTaken(store, isbn)
    ensures IsbnTaken(store, isbn) && !IsbnTakenByOther(store, isbn, id) ==>
      id in store && store[id].isbn == isbn
  {
    exists k :: k in store && k != id && store[k].isbn == isbn
  }

  /** The row a valid form submits, with the given availability. */
  function Submitted(form: Form, available: bool): Book
    requires Valid(form)
  {
    Book(form.title.text, form.author.text, form.isbn.text, available)
  }

  /** The reason a failed write reports: the exception's text, or the
      handler's own message when the call returned no rows. */
  function FailureReason(reply: WriteReply, noData: string): string
    requires !reply.Written?
  {
    if reply.Raised? then reply.reason else noData
  }

  /** POST /book/new: validate, reject a taken ISBN, insert under `id`
      (which the table assigns) with the book available. */
  function Create(store: Store, form: Form, id: int, reply: WriteReply): (s: Step)
    requires id !in store
    ensures s.result.Invalid? <==> !Valid(form)
    ensures s.result.Invalid? ==> s.result.message == Message(form)
    ensures s.result.Conflict? <==> Valid(form) && IsbnTaken(store, form.isbn.text)
    ensures s.result.Conflict? ==> s.result.isbn == form.isbn.text
    ensures s.result.StoreFailure? <==>
      Valid(form) && !IsbnTaken(store, form.isbn.text) && !reply.Written?
    ensures s.result.Ok? <==> Valid(form) && !IsbnTaken(store, form.isbn.text) && reply.Written?
    ensures s.result.Ok? ==>
      && s.result.title == form.title.text
      && s.store.Keys == store.Keys + {id}
      && s.store[id] == Book(form.title.text, form.author.text, form.isbn.text, true)
      && forall k :: k in store ==> k in s.store && s.store[k] == store[k]
    ensures !s.result.Ok? ==> s.store == store
  {
    if !Valid(form) then Step(Invalid(Message(form)), store)
    else if IsbnTaken(store, form.isbn.text) then Step(Conflict(form.isbn.text), store)
    else if !reply.Written? then
      Step(StoreFailure(FailureReason(reply, "Failed to add book to database")), store)
    else Step(Ok(form.title.text), store[id := Submitted(form, true)])
  }

  /** What GET /book/<id>/update shows: the edit form filled with a book,
      or the list page with the result that sent the browser there. */
  datatype EditPage = EditForm(book: Book) | BackToList(result: Result)

  /** GET /book/<id>/update: the stored row pre-fills the edit form; a
      missing row sends the browser back to the list, not found. */
  function EditView(store: Store, id: nat): (page: EditPage)
    ensures page.EditForm? <==> id in store
    ensures page.EditForm? ==> page.book == store[id]
    ensures page.BackToList? ==> page.result == NotFound(id)
  {
    if id in store then EditForm(store[id]) else BackToList(NotFound(id))
  }

  /** POST /book/<id>/update: the row must exist; validate; reject an ISBN
      held by a different row; replace all four fields, the book being
      available exactly when the checkbox value is "on". */
  function Update(store: Store, id: nat, form: Form, reply: WriteReply): (s: Step)
    ensures s.result.NotFound? <==> id !in store
    ensures s.result.NotFound? ==> s.result.id == id
    ensures s.result.Invalid? <==> id in store && !Valid(form)
    ensures s.result.Invalid? ==> s.result.message == Message(form)
    ensures s.result.Conflict? <==>
      id in store && Valid(form) && IsbnTakenByOther(store, form.isbn.text, id)
    ensures s.result.Conflict? ==> s.result.isbn == form.isbn.text
    ensures s.result.StoreFailure? <==>
      id in store && Valid(form) && !IsbnTakenByOther(store, form.isbn.text, id) && !reply.Written?
    ensures s.result.Ok? <==>
      id in store && Valid(form) && !IsbnTakenByOther(store, form.isbn.text, id) && reply.Written?
    ensures s.result.Ok? ==>
      && s.result.title == form.title.text
      && s.store.Keys == store.Keys
      && s.store[id] == Book(form.title.text, form.author.text, form.isbn.text,
                             form.isAvailable == Given("on"))
      && forall k :: k in store && k != id ==> s.store[k] == store[k]
    ensures !s.result.Ok? ==> s.store == store
  {
    if id !in store then Step(NotFound(id), store)
    else if !Valid(form) then Step(Invalid(Message(form)), store)
    else if IsbnTakenByOther(store, form.isbn.text, id) then Step(Conflict(form.isbn.text), store)
    else if !reply.Written? then
      Step(StoreFailure(FailureReason(reply, "Failed to update book in database")), store)
    else Step(Ok(form.title.text), store[id := Submitted(form, form.isAvailable == Given("on"))])
  }

  /** POST /book/<id>/delete: the row must exist; its title is read before
      the row is removed. */
  function Delete(store: Store, id: nat, reply: WriteReply): (s: Step)
    ensures s.result.NotFound? <==> id !in store
    ensures s.result.NotFound? ==> s.result.id == id
    ensures s.result.StoreFailure? <==> id in store && !reply.Written?
    ensures s.result.Ok? <==> id in store && reply.Written?
    ensures s.result.Ok? ==>
      && s.result.title == store[id].title
      && s.store.Keys == store.Keys - {id}
      && forall k :: k in s.store ==> s.store[k] == store[k]
    ensures !s.result.Ok? ==> s.store == store
  {
    if id !in store then Step(NotFound(id), store)
    else if !reply.Written? then
      Step(StoreFailure(FailureReason(reply, "Failed to delete book from database")), store)
    else Step(Ok(store[id].title), store - {id})
  }

  /** `select('*')`: every row exactly once, in no particular order. */
  method ListRows(store: Store) returns (rows: seq<Row>)
    ensures forall r :: r in rows <==> r.id in store && store[r.id] == r.book
    ensures forall i, j :: 0 <= i < j < |rows| ==> rows[i].id != rows[j].id
    ensures |rows| == |store|
  {
    rows := [];
    var pending := store.Keys;
    while pending != {}
      invariant pending <= store.Keys
      invariant forall r :: r in rows <==> r.id in store.Keys - pending && store[r.id] == r.book
      invariant forall i, j :: 0 <= i < j < |rows| ==> rows[i].id != rows[j].id
      invariant |rows| + |pending| == |store|
      decreases pending
    {
      NonEmptyHasMember(pending);
      var k :| k in pending;
      rows := rows + [Row(k, store[k])];
      pending := pending - {k};
    }
  }

  /** A non-empty set of ids has a member to pick. */
  lemma NonEmptyHasMember(s: set<int>)
    requires s != {}
    ensures exists x :: x in s
  {
    if forall x :: x !in s {
      assert false;
    }
  }

  /** A status message: a category ("success" or "error") and its text. */
  datatype Notice = Notice(category: string, text: string)

  /** GET /: the listed rows, or on a failed fetch (`failure` holds the
      exception's text) no rows and an error notice. */
  method Index(store: Store, failure: Option<string>) returns (rows: seq<Row>, notice: Option<Notice>)
    ensures failure.None? ==> notice.None? && |rows| == |store|
    ensures failure.None? ==> forall r :: r in rows <==> r.id in store && store[r.id] == r.book
    ensures failure.Some? ==>
      rows == [] && notice == Some(Notice("error", "Error fetching books: " + failure.value))
  {
    if failure.Some? {
      rows := [];
      notice := Some(Notice("error", "Error fetching books: " + failure.value));
    } else {
      rows := ListRows(store);
      notice := None;
    }
  }

  /** The operation a notice reports on. */
  datatype Op = Adding | Updating | Deleting

  /** The flashed status message for `op` ending in `r`. */
  function NoticeFor(op: Op, r: Result): (n: Notice)
    ensures n.category == "success" <==> r.Ok?
    ensures !r.Ok? ==> n.category == "error"
    ensures r.Invalid? ==> n.text == r.message
  {
    match r
    case Ok(title) =>
      Notice("success",
        match op
        case Adding => "Successfully added \"" + title + "\" to the library!"
        case Updating => "Successfully updated \"" + title + "\"!"
        case Deleting => "Successfully deleted \"" + title + "\" from the library.")
    case Invalid(message) => Notice("error", message)
    case Conflict(isbn) =>
      Notice("error",
        (if op == Updating then "Another book with ISBN " else "Book with ISBN ")
        + isbn + " already exists")
    case NotFound(id) => Notice("error", NotFoundText(id))
    case StoreFailure(reason) =>
      Notice("error",
        match op
        case Adding => "Error adding book: " + reason
        case Updating => "Error updating book: " + reason
        case Deleting => "Error deleting book: " + reason)
  }

  const NotFoundPrefix: string := "Book with ID "
  const NotFoundSuffix: string := " not found"

  /** "Book with ID <id> not found": the digits between the fixed prefix
      and suffix read back as `id`. */
  function NotFoundText(id: nat): (t: string)
    ensures |t| > |NotFoundPrefix| + |NotFoundSuffix|
    ensures t[..|NotFoundPrefix|] == NotFoundPrefix
    ensures t[|t| - |NotFoundSuffix|..] == NotFoundSuffix
    ensures AllDigits(t[|NotFoundPrefix|..|t| - |NotFoundSuffix|])
    ensures ParseDecimal(t[|NotFoundPrefix|..|t| - |NotFoundSuffix|]) == id
  {
    var digits := Decimal(id);
    var t := NotFoundPrefix + digits + NotFoundSuffix;
    assert t[|NotFoundPrefix|..|t| - |NotFoundSuffix|] == digits;
    ParseDecimalInverts(id);
    t
  }

  /** A not-found message names its id: two ids give the same text only
      when they are the same id. */
  lemma NotFoundTextNamesId(a: nat, b: nat)
    ensures NotFoundText(a) == NotFoundText(b) <==> a == b
  {
    if NotFoundText(a) == NotFoundText(b) {
      var ta, tb := NotFoundText(a), NotFoundText(b);
      var n := |NotFoundPrefix|;
      assert |Decimal(a)| == |Decimal(b)|;
      assert Decimal(a) == ta[n..n + |Decimal(a)|];
      assert Decimal(b) == tb[n..n + |Decimal(b)|];
      DecimalInjective(a, b);
    }
  }

  /** Creating keeps ISBNs unique: the new row's ISBN was checked free. */
  lemma CreateKeepsIsbnsUnique(store: Store, form: Form, id: int, reply: WriteReply)
    requires id !in store
    requires UniqueIsbns(store)
    ensures UniqueIsbns(Create(store, form, id, reply).store)
  {
  }

  /** Updating keeps ISBNs unique: the new ISBN was checked free of every
      other row, and the row's own old ISBN is overwritten. */
  lemma UpdateKeepsIsbnsUnique(store: Store, id: nat, form: Form, reply: WriteReply)
    requires UniqueIsbns(store)
    ensures UniqueIsbns(Update(store, id, form, reply).store)
  {
  }

  /** Deleting keeps ISBNs unique: the remaining rows are a subset. */
  lemma DeleteKeepsIsbnsUnique(store: Store, id: nat, reply: WriteReply)
    requires UniqueIsbns(store)
    ensures UniqueIsbns(Delete(store, id, reply).store)
  {
  }

  /** Creating with an ISBN some row holds is rejected, naming that ISBN,
      and writes nothing. */
  lemma CreateRejectsDuplicate(store: Store, form: Form, id: int, reply: WriteReply, other: int)
    requires id !in store
    requires Valid(form) && other in store && store[other].isbn == form.isbn.text
    ensures Create(store, form, id, reply) == Step(Conflict(form.isbn.text), store)
  {
  }

  /** Updating a book to another book's ISBN is rejected and writes nothing. */
  lemma UpdateRejectsOthersIsbn(store: Store, id: nat, form: Form, reply: WriteReply, other: int)
    requires id in store && other in store && other != id
    requires Valid(form) && store[other].isbn == form.isbn.text
    ensures Update(store, id, form, reply) == Step(Conflict(form.isbn.text), store)
  {
  }

  /** Resubmitting a book with its own current ISBN is not a conflict. */
  lemma UpdateAcceptsOwnIsbn(store: Store, id: nat, form: Form)
    requires UniqueIsbns(store)
    requires id in store && Valid(form) && form.isbn.text == store[id].isbn
    ensures Update(store, id, form, Written).result == Ok(form.title.text)
  {
  }

  /** After a successful update the edit form shows the submitted values. */
  lemma UpdateThenEditShowsSubmission(store: Store, id: nat, form: Form, reply: WriteReply)
    requires Update(store, id, form, reply).result.Ok?
    ensures Valid(form)
    ensures EditView(Update(store, id, form, reply).store, id)
      == EditForm(Book(form.title.text, form.author.text, form.isbn.text, form.isAvailable == Given("on")))
  {
  }
}
