/**
  The three store effects of the book service: listing the collection,
  appending a decoded record, and removing the first record with an id.
  Each returns the new collection together with an abstract outcome that
  stands for the HTTP status and response body. The outcomes also include
  the router's answer to a path no route matches, so that one type covers
  every answer of the service.
 */
module Store {
  import opened Books

  /** The result of decoding a request body: a record, or a decode failure. */
  datatype Option<T> = None | Some(value: T)

  /** What the service answers, without status codes or JSON text. */
  datatype Outcome =
    | Listed(books: seq<Book>)   // 200 with the collection
    | Created(book: Book)        // 201 echoing the decoded record
    | BadRequest                 // 400, the decode error message is not modelled
    | Deleted                    // 200 with the fixed confirmation message
    | NotFound                   // 404 with the fixed error message
    | NoRoute                    // the router matched no route; no handler ran

  /** The collection after a request, and the answer to it. */
  datatype Step = Step(db: seq<Book>, outcome: Outcome)

  /** `s` with the element at position `i` spliced out. */
  function RemoveAt<T>(s: seq<T>, i: nat): (r: seq<T>)
    requires i < |s|
    ensures |r| == |s| - 1
    ensures forall k :: 0 <= k < i ==> r[k] == s[k]
    ensures forall k :: i <= k < |r| ==> r[k] == s[k + 1]
  {
    s[..i] + s[i + 1..]
  }

  /** Putting the removed element back at its place restores the sequence. */
  lemma RemoveAtInsert<T>(s: seq<T>, i: nat)
    requires i < |s|
    ensures RemoveAt(s, i)[..i] + [s[i]] + RemoveAt(s, i)[i..] == s
    ensures multiset(RemoveAt(s, i)) + multiset{s[i]} == multiset(s)
  {
  }

  /** The list handler: answers with the current collection. */
  function List(db: seq<Book>): (st: Step)
    ensures st.db == db
    ensures st.outcome.Listed? && st.outcome.books == db
  {
    Step(db, Listed(db))
  }

  /**
    The create handler: on a successful decode, appends the record at the
    end (empty and duplicate ids included) and echoes it; on a decode
    failure, answers BadRequest and leaves the collection alone.
   */
  function Create(db: seq<Book>, decoded: Option<Book>): (st: Step)
    ensures st.outcome == BadRequest <==> decoded.None?
    ensures decoded.None? ==> st.db == db
    ensures decoded.Some? ==> st.outcome == Created(decoded.value)
    ensures decoded.Some? ==> |st.db| == |db| + 1 && st.db[..|db|] == db && st.db[|db|] == decoded.value
  {
    match decoded
    case None => Step(db, BadRequest)
    case Some(b) => Step(db + [b], Created(b))
  }

  /**
    The delete handler: removes the first record whose id is `id`, keeping
    the order of the rest; answers NotFound and leaves the collection alone
    when no record has that id.
   */
  function Delete(db: seq<Book>, id: string): (st: Step)
    ensures st.outcome == Deleted || st.outcome == NotFound
    ensures st.outcome == NotFound <==> !HasId(db, id)
    ensures st.outcome == NotFound ==> st.db == db
    ensures st.outcome == Deleted ==> |st.db| == |db| - 1
    ensures forall i :: IsFirstMatch(db, id, i) ==> st.db == db[..i] + db[i + 1..]
  {
    var i := FindIndex(db, id);
    if i == -1 then Step(db, NotFound)
    else
      FindIndexIffFirstMatch(db, id, i);
      Step(RemoveAt(db, i), Deleted)
  }

  /** `Delete` removes exactly one record carrying `id` and no record carrying another id. */
  lemma DeleteCounts(db: seq<Book>, id: string, other: string)
    requires HasId(db, id)
    ensures Count(Delete(db, id).db, id) == Count(db, id) - 1
    ensures other != id ==> Count(Delete(db, id).db, other) == Count(db, other)
  {
    var i := FindIndex(db, id);
    assert db == db[..i] + [db[i]] + db[i + 1..];
    CountConcat(db[..i] + [db[i]], db[i + 1..], id);
    CountConcat(db[..i], [db[i]], id);
    CountConcat(db[..i], db[i + 1..], id);
    CountConcat(db[..i] + [db[i]], db[i + 1..], other);
    CountConcat(db[..i], [db[i]], other);
    CountConcat(db[..i], db[i + 1..], other);
  }

  /** `Delete` loses exactly the removed record: the multiset of records drops by it. */
  lemma DeleteMultiset(db: seq<Book>, id: string)
    requires HasId(db, id)
    ensures var i := FindIndex(db, id);
      multiset(Delete(db, id).db) + multiset{db[i]} == multiset(db)
  {
    RemoveAtInsert(db, FindIndex(db, id));
  }

  /** With a duplicated id, `Delete` removes only the first: the id is still present. */
  lemma DeleteKeepsLaterDuplicates(db: seq<Book>, id: string)
    requires Count(db, id) >= 2
    ensures Delete(db, id).outcome == Deleted
    ensures HasId(Delete(db, id).db, id)
  {
    CountPositiveIff(db, id);
    DeleteCounts(db, id, id);
    CountPositiveIff(Delete(db, id).db, id);
  }

  /** With unique ids, deleting an id twice finds nothing the second time. */
  lemma DeleteTwiceNotFound(db: seq<Book>, id: string)
    requires UniqueIds(db)
    ensures Delete(Delete(db, id).db, id).outcome == NotFound
  {
  }

  /** `Delete` keeps the ids unique when they were. */
  lemma DeletePreservesUniqueIds(db: seq<Book>, id: string)
    requires UniqueIds(db)
    ensures UniqueIds(Delete(db, id).db)
  {
  }

  /** `Create` counts the new record's id once more and every other id as before. */
  lemma CreateCounts(db: seq<Book>, b: Book, other: string)
    ensures Count(Create(db, Some(b)).db, b.id) == Count(db, b.id) + 1
    ensures other != b.id ==> Count(Create(db, Some(b)).db, other) == Count(db, other)
  {
    CountConcat(db, [b], b.id);
    CountConcat(db, [b], other);
  }

  /** Appending keeps the ids unique exactly when the new id is fresh. */
  lemma CreateUniqueIdsIff(db: seq<Book>, b: Book)
    requires UniqueIds(db)
    ensures UniqueIds(Create(db, Some(b)).db) <==> !HasId(db, b.id)
  {
  }

  /** Creating a record with a fresh id and then deleting that id restores the collection. */
  lemma CreateThenDeleteFresh(db: seq<Book>, b: Book)
    requires !HasId(db, b.id)
    ensures Create(db, Some(b)).outcome == Created(b)
    ensures Delete(Create(db, Some(b)).db, b.id) == Step(db, Deleted)
  {
  }

  /**
    Creating a record whose id is already present and then deleting that id
    removes the older record and keeps the new one at the end.
   */
  lemma CreateThenDeleteDuplicate(db: seq<Book>, b: Book)
    requires HasId(db, b.id)
    ensures Delete(Create(db, Some(b)).db, b.id) == Step(Delete(db, b.id).db + [b], Deleted)
  {
  }
}
