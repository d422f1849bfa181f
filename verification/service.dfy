/**
  The three routes of the book service as one request dispatcher over the
  collection, and the effect of a sequence of requests handled one after
  the other starting from a given collection.
 */
module Service {
  import opened Books
  import opened Store

  /**
    A request to the service: GET /books, POST /books with the result of
    decoding its body, and DELETE /books/ followed by the rest of the
    (decoded) path, which the router may or may not accept as an id.
   */
  datatype Request =
    | GetBooks
    | PostBook(decoded: Option<Book>)
    | DeleteBook(id: string)

  /**
    The route DELETE /books/:id binds its parameter to one whole path
    segment: a non-empty id without '/'. Any other path after /books/ is
    answered by the router and never reaches the delete handler.
   */
  predicate RoutableId(id: string) {
    |id| > 0 && '/' !in id
  }

  /** The collection after a run of requests and the answers, in request order. */
  datatype Trace = Trace(db: seq<Book>, outcomes: seq<Outcome>)

  /**
    Dispatches one request to its handler. Every answer other than Created
    and Deleted leaves the collection as it was.
   */
  function Handle(db: seq<Book>, req: Request): (st: Step)
    ensures req.GetBooks? <==> st.outcome.Listed?
    ensures st.outcome.Listed? ==> st.outcome.books == db
    ensures req.PostBook? ==> (st.outcome == BadRequest <==> req.decoded.None?)
    ensures req.PostBook? && req.decoded.Some? ==> st.outcome == Created(req.decoded.value)
    ensures req.DeleteBook? ==> (st.outcome == NoRoute <==> !RoutableId(req.id))
    ensures req.DeleteBook? && RoutableId(req.id) ==> (st.outcome == NotFound <==> !HasId(db, req.id))
    ensures req.DeleteBook? && RoutableId(req.id) ==>
      forall i :: IsFirstMatch(db, req.id, i) ==> st.db == db[..i] + db[i + 1..]
    ensures !st.outcome.Created? && !st.outcome.Deleted? ==> st.db == db
    ensures st.outcome.Created? ==> st.db == db + [st.outcome.book]
    ensures st.outcome.Deleted? ==> |st.db| == |db| - 1
  {
    match req
    case GetBooks => List(db)
    case PostBook(decoded) => Create(db, decoded)
    case DeleteBook(id) => if RoutableId(id) then Delete(db, id) else Step(db, NoRoute)
  }

  /** Handles `reqs` in order, each request seeing the collection its predecessor left. */
  function Run(db: seq<Book>, reqs: seq<Request>): (t: Trace)
    ensures |t.outcomes| == |reqs|
    decreases |reqs|
  {
    if |reqs| == 0 then Trace(db, [])
    else
      var st := Handle(db, reqs[0]);
      var rest := Run(st.db, reqs[1..]);
      Trace(rest.db, [st.outcome] + rest.outcomes)
  }

  /** How many of `outs` are Created answers. */
  function NumCreated(outs: seq<Outcome>): nat
  {
    if |outs| == 0 then 0 else (if outs[0].Created? then 1 else 0) + NumCreated(outs[1..])
  }

  /** How many of `outs` are Deleted answers. */
  function NumDeleted(outs: seq<Outcome>): nat
  {
    if |outs| == 0 then 0 else (if outs[0].Deleted? then 1 else 0) + NumDeleted(outs[1..])
  }

  /**
    Over any run of requests, the collection grows by one per Created
    answer and shrinks by one per Deleted answer, and by nothing else.
   */
  lemma {:induction false} RunLength(db: seq<Book>, reqs: seq<Request>)
    ensures var t := Run(db, reqs);
      |t.db| + NumDeleted(t.outcomes) == |db| + NumCreated(t.outcomes)
    decreases |reqs|
  {
    if |reqs| > 0 {
      var st := Handle(db, reqs[0]);
      RunLength(st.db, reqs[1..]);
      var t := Run(db, reqs);
      assert t.outcomes[1..] == Run(st.db, reqs[1..]).outcomes;
    }
  }

  /** Requests that fail or only list leave the collection as it was, however many there are. */
  lemma {:induction false} RunWithoutEffects(db: seq<Book>, reqs: seq<Request>)
    requires forall k :: 0 <= k < |reqs| ==> reqs[k].GetBooks? || reqs[k] == PostBook(None)
    ensures Run(db, reqs).db == db
    decreases |reqs|
  {
    if |reqs| > 0 {
      RunWithoutEffects(db, reqs[1..]);
    }
  }

  /**
    No run of requests can lower the number of records whose id the delete
    route cannot carry (empty, or holding '/'): such records, once created,
    stay in the collection for good.
   */
  lemma {:induction false} UnroutableIdPersists(db: seq<Book>, reqs: seq<Request>, id: string)
    requires !RoutableId(id)
    ensures Count(Run(db, reqs).db, id) >= Count(db, id)
    decreases |reqs|
  {
    if |reqs| > 0 {
      var st := Handle(db, reqs[0]);
      match reqs[0] {
        case GetBooks =>
        case PostBook(decoded) =>
          if decoded.Some? {
            CreateCounts(db, decoded.value, id);
          }
        case DeleteBook(x) =>
          if RoutableId(x) && HasId(db, x) {
            DeleteCounts(db, x, id);
          }
      }
      UnroutableIdPersists(st.db, reqs[1..], id);
    }
  }

  /**
    A sample session from the seed: list, POST id "4", list, DELETE "2",
    DELETE "99", list.
   */
  lemma SeedScenario()
    ensures
      var b := Book("4", "T", "A", 1);
      var t := Run(Seed, [GetBooks, PostBook(Some(b)), GetBooks, DeleteBook("2"), DeleteBook("99"), GetBooks]);
      && t.outcomes == [Listed(Seed), Created(b), Listed(Seed + [b]), Deleted, NotFound, Listed(t.db)]
      && t.db == [Seed[0], Seed[2], b]
      && Ids(t.db) == ["1", "3", "4"]
  {
    var b := Book("4", "T", "A", 1);
    var reqs := [GetBooks, PostBook(Some(b)), GetBooks, DeleteBook("2"), DeleteBook("99"), GetBooks];
    var s1 := Seed + [b];
    var s2 := [Seed[0], Seed[2], b];
    assert Handle(Seed, PostBook(Some(b))) == Step(s1, Created(b));
    assert Handle(s1, GetBooks) == Step(s1, Listed(s1));
    assert IsFirstMatch(s1, "2", 1);
    assert Handle(s1, DeleteBook("2")) == Step(s2, Deleted);
    assert !HasId(s2, "99");
    assert Handle(s2, DeleteBook("99")) == Step(s2, NotFound);
    assert Handle(s2, GetBooks) == Step(s2, Listed(s2));
    assert Ids(s2) == ["1", "3", "4"];
    assert Run(s2, reqs[5..]) == Trace(s2, [Listed(s2)]);
    assert Run(s2, reqs[4..]) == Trace(s2, [NotFound, Listed(s2)]);
    assert Run(s1, reqs[3..]) == Trace(s2, [Deleted, NotFound, Listed(s2)]);
    assert Run(s1, reqs[2..]) == Trace(s2, [Listed(s1), Deleted, NotFound, Listed(s2)]);
    assert Run(Seed, reqs[1..]) == Trace(s2, [Created(b), Listed(s1), Deleted, NotFound, Listed(s2)]);
  }
}
