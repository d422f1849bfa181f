/**
  The book record, the seeded collection and the first-match lookup by id
  of the in-memory book store service.
 */
module Books {

  /** Go's `int` on a 64-bit target, the width of `Book.Quantity`. */
  newtype Int64 = x: int | -0x8000_0000_0000_0000 <= x < 0x8000_0000_0000_0000

  /** One book record. The id is caller-supplied and never checked for uniqueness. */
  datatype Book = Book(id: string, title: string, author: string, quantity: Int64)

  /** The collection the service starts with. */
  const Seed: seq<Book> := [
    Book("1", "XYZ", "ABC", 2),
    Book("2", "The Great Gatsby", "F. Scott Fitzgerald", 5),
    Book("3", "War and Peace", "Leo Tolstoy", 6)
  ]

  /** Some record of `db` carries exactly the id `id` (case-sensitive, no normalisation). */
  ghost predicate HasId(db: seq<Book>, id: string) {
    exists i :: 0 <= i < |db| && db[i].id == id
  }

  /** `i` is the position of the first record of `db` whose id is `id`. */
  ghost predicate IsFirstMatch(db: seq<Book>, id: string, i: int) {
    && 0 <= i < |db|
    && db[i].id == id
    && forall j :: 0 <= j < i ==> db[j].id != id
  }

  /** No two records of `db` share an id: the intended, unenforced invariant. */
  ghost predicate UniqueIds(db: seq<Book>) {
    forall i, j :: 0 <= i < j < |db| ==> db[i].id != db[j].id
  }

  /** The ids of `db`, in order. */
  function Ids(db: seq<Book>): seq<string>
  {
    seq(|db|, k requires 0 <= k < |db| => db[k].id)
  }

  /** The number of records of `db` whose id is `id`. */
  function Count(db: seq<Book>, id: string): nat
  {
    if |db| == 0 then 0
    else (if db[0].id == id then 1 else 0) + Count(db[1..], id)
  }

  /**
    The range loop of the lookup, resumed at position `from`: the first
    position at or after `from` holding `id`, or -1 when there is none.
   */
  function FindFrom(db: seq<Book>, id: string, from: nat): (r: int)
    requires from <= |db|
    ensures r == -1 || from <= r < |db|
    ensures r == -1 <==> forall j :: from <= j < |db| ==> db[j].id != id
    ensures r != -1 ==> db[r].id == id && forall j :: from <= j < r ==> db[j].id != id
    decreases |db| - from
  {
    if from == |db| then -1
    else if db[from].id == id then from
    else FindFrom(db, id, from + 1)
  }

  /**
    The lookup by id: the index of the first record whose id is `id`,
    or the sentinel -1 when no record has it.
   */
  function FindIndex(db: seq<Book>, id: string): (r: int)
    ensures -1 <= r < |db|
    ensures r == -1 <==> !HasId(db, id)
    ensures r != -1 ==> IsFirstMatch(db, id, r)
  {
    FindFrom(db, id, 0)
  }

  /** The lookup's answer is the one and only first-match position. */
  lemma FindIndexIffFirstMatch(db: seq<Book>, id: string, k: int)
    ensures FindIndex(db, id) == k <==> (k == -1 && !HasId(db, id)) || IsFirstMatch(db, id, k)
  {
  }

  /** A record holds `id` exactly when `id` is counted at least once. */
  lemma {:induction false} CountPositiveIff(db: seq<Book>, id: string)
    ensures Count(db, id) > 0 <==> HasId(db, id)
    decreases |db|
  {
    if |db| > 0 {
      CountPositiveIff(db[1..], id);
      if HasId(db, id) && db[0].id != id {
        var i :| 0 <= i < |db| && db[i].id == id;
        assert db[1..][i - 1].id == id;
      }
      if HasId(db[1..], id) {
        var i :| 0 <= i < |db[1..]| && db[1..][i].id == id;
        assert db[i + 1].id == id;
      }
    }
  }

  /** Counting distributes over concatenation. */
  lemma {:induction false} CountConcat(a: seq<Book>, b: seq<Book>, id: string)
    ensures Count(a + b, id) == Count(a, id) + Count(b, id)
    decreases |a|
  {
    if |a| == 0 {
      assert a + b == b;
    } else {
      assert (a + b)[1..] == a[1..] + b;
      CountConcat(a[1..], b, id);
    }
  }

  /** The seed holds the ids "1", "2", "3" in that order, each once. */
  lemma SeedIds()
    ensures Ids(Seed) == ["1", "2", "3"]
    ensures UniqueIds(Seed)
  {
  }
}
