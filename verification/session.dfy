/**
 Requests handled one after another against the `books` table, with the
 table assigning ids from an identity counter. Whatever sequence of
 create, update and delete requests arrives, no two rows ever share an ISBN.
 */
module Session {
  import opened Validation
  import opened Catalog

  /** The table together with the id its identity counter hands out next. */
  datatype Db = Db(rows: Store, nextId: int)

  /** Every existing id was handed out before `nextId`. */
  ghost predicate Wf(db: Db)
  {
    forall k :: k in db.rows ==> k < db.nextId
  }

  /** The requests that write to the table, each with the reply its write
      call gets should it come to be made. */
  datatype Request =
    | CreateBook(form: Form, reply: WriteReply)
    | UpdateBook(id: nat, form: Form, reply: WriteReply)
    | DeleteBook(id: nat, reply: WriteReply)

  datatype Outcome = Outcome(result: Result, db: Db)

  /** Handle one request. A create consumes the next id when it writes. */
  function Apply(db: Db, req: Request): (out: Outcome)
    requires Wf(db)
    ensures Wf(out.db)
    ensures out.db.nextId >= db.nextId
    ensures !out.result.Ok? ==> out.db.rows == db.rows
  {
    match req
    case CreateBook(form, reply) =>
      var s := Create(db.rows, form, db.nextId, reply);
      Outcome(s.result, Db(s.store, if s.result.Ok? then db.nextId + 1 else db.nextId))
    case UpdateBook(id, form, reply) =>
      var s := Update(db.rows, id, form, reply);
      Outcome(s.result, Db(s.store, db.nextId))
    case DeleteBook(id, reply) =>
      var s := Delete(db.rows, id, reply);
      Outcome(s.result, Db(s.store, db.nextId))
  }

  /** Handle `reqs` in order; the table as it stands after the last one. */
  function Run(db: Db, reqs: seq<Request>): (last: Db)
    requires Wf(db)
    ensures Wf(last)
    ensures last.nextId >= db.nextId
    decreases |reqs|
  {
    if reqs == [] then db else Run(Apply(db, reqs[0]).db, reqs[1..])
  }

  /** One request keeps ISBNs unique. */
  lemma ApplyKeepsIsbnsUnique(db: Db, req: Request)
    requires Wf(db) && UniqueIsbns(db.rows)
    ensures UniqueIsbns(Apply(db, req).db.rows)
  {
  }

  /** Any sequence of requests, handled one at a time, keeps ISBNs unique. */
  lemma {:induction false} RunKeepsIsbnsUnique(db: Db, reqs: seq<Request>)
    requires Wf(db) && UniqueIsbns(db.rows)
    ensures UniqueIsbns(Run(db, reqs).rows)
    decreases |reqs|
  {
    if reqs != [] {
      ApplyKeepsIsbnsUnique(db, reqs[0]);
      RunKeepsIsbnsUnique(Apply(db, reqs[0]).db, reqs[1..]);
    }
  }

  /** Submitting Dune twice: the first creates row 1, available; the second
      is a conflict naming ISBN "123" and leaves the single row alone. */
  lemma DuneSubmittedTwice()
    ensures
      var form := Form(Given("Dune"), Given("Herbert"), Given("123"), Absent);
      var first := Apply(Db(map[], 1), CreateBook(form, Written));
      var second := Apply(first.db, CreateBook(form, Written));
      && first.result == Ok("Dune")
      && first.db.rows == map[1 := Book("Dune", "Herbert", "123", true)]
      && second.result == Conflict("123")
      && second.db == first.db
  {
  }
}
