# Book store service — Dafny model

A model of an in-memory book store served over HTTP. The store keeps an
ordered collection of book records (id, title, author, quantity), seeded
with three records at start-up. It answers three requests. Listing returns
the whole collection. Creating appends a decoded record at the end, with no
uniqueness check on its id. Deleting removes the first record whose id
matches the path parameter and keeps the order of the others. A linear
lookup that returns `-1` when nothing matches finds that record.

The model is functional. The collection is a `seq<Book>`. Each handler is
a pure function from the current collection and its input to a `Step`: the
new collection plus an abstract outcome (`Listed`, `Created`, `BadRequest`,
`Deleted`, `NotFound`) that stands for the HTTP status and the response body.
A sixth outcome, `NoRoute`, stands for a delete path that the router rejects
before any handler runs.

- `books.dfy`, module `Books`: the record, the seed, the lookup, and the
  helper notions `HasId`, `IsFirstMatch`, `UniqueIds` and `Count`.
- `store.dfy`, module `Store`: order-preserving removal at an index, the
  three handlers' store effects, and lemmas relating them.
- `service.dfy`, module `Service`: dispatch of routed requests, runs of
  several requests, and a sample session from the seed.

Inputs the model does not compute are parameters. The JSON decode result of
a create request is an `Option<Book>`. The rest of a delete request's path
after `/books/` is a `string`. The route `/books/:id` carries it to the
handler only when it is one non-empty path segment, that is, non-empty and
without '/'.

## Model

| member | source | states |
|---|---|---|
| Books.FindFrom | main.go:71-76 | the range loop resumed at a position returns the first matching position at or after it, and -1 exactly when no later record has the id |
| Books.FindIndex | main.go:70-77 | the lookup returns -1 exactly when no record has the id; otherwise it returns a valid index holding the id with no earlier index holding it |
| Books.FindIndexIffFirstMatch | main.go:71-74 | the lookup's result is the unique first-match position (or -1 when absent), in both directions |
| Books.SeedIds | main.go:20-24 | the initial collection holds the ids "1", "2", "3" in that order, each once |
| Store.RemoveAt | main.go:65 | splicing out position i shortens the sequence by one, keeps every element before i and shifts every element after i down by one |
| Store.RemoveAtInsert | main.go:65 | re-inserting the removed element at i restores the sequence, and the multiset loses exactly that element |
| Store.List | main.go:38-39 | listing answers with the current collection and does not change it |
| Store.Create | main.go:43-52 | a decode failure answers BadRequest and leaves the collection unchanged; a decoded record is appended as the new last element, earlier records unchanged, and echoed back |
| Store.Delete | main.go:56-67 | NotFound exactly when no record has the id, with the collection unchanged; otherwise the result is the collection with the first match spliced out, one shorter |
| Store.DeleteCounts | main.go:59-65 | a successful delete lowers the number of records with that id by exactly one and leaves the count of every other id unchanged |
| Store.DeleteMultiset | main.go:65 | a successful delete loses exactly the first matching record from the multiset of records |
| Store.DeleteKeepsLaterDuplicates | main.go:59-65 | when the id occurs at least twice, delete succeeds and the id is still present afterwards |
| Store.DeleteTwiceNotFound | main.go:59-63 | with unique ids, deleting the same id a second time answers NotFound |
| Store.DeletePreservesUniqueIds | main.go:65 | delete keeps ids unique when they were unique |
| Store.CreateCounts | main.go:51 | create adds one to the count of the new record's id and leaves every other id's count unchanged |
| Store.CreateUniqueIdsIff | main.go:51 | for a collection with unique ids, create keeps them unique exactly when the new id is not already present |
| Store.CreateThenDeleteFresh | main.go:51-65 | creating a record with a fresh id and then deleting that id restores the original collection |
| Store.CreateThenDeleteDuplicate | main.go:51-65 | creating a record with an id already present and then deleting that id removes the older record and keeps the new one at the end |
| Service.Handle | main.go:30-32 | GET answers through the list handler with the collection; POST answers BadRequest exactly on a decode failure and otherwise Created with the decoded record appended last; DELETE of an id the route cannot carry answers NoRoute; DELETE of a routable id answers NotFound exactly when no record has it and otherwise splices out the first match; every answer other than Created and Deleted leaves the collection unchanged |
| Service.RunLength | main.go:46-65 | over any run of requests, the final length equals the initial length plus the Created answers minus the Deleted answers |
| Service.RunWithoutEffects | main.go:38-49 | any run of list requests and failed creates leaves the collection unchanged |
| Service.UnroutableIdPersists | main.go:32 | no run of requests lowers the number of records whose id is empty or holds '/', since the delete route cannot carry such an id |
| Service.SeedScenario | main.go:20-24 | from the seed, listing, posting id "4", listing, deleting "2", deleting "99" and listing answers the seed, Created, the seed plus the new record, Deleted, NotFound, and the final collection of records "1", "3", "4" in that order |

## Left out

- Router setup and the process entry point (main.go:27-35, 79-82): framework wiring and socket I/O. `Service.Handle` stands for the dispatch.
- Service.Handle: an id the delete route cannot carry (empty, or holding '/') gets the single `NoRoute` outcome. Depending on the path, the framework answers such a request with 404 or with a trailing-slash redirect. The model does not tell those apart.
- JSON decoding of the create body (main.go:46) is a foreign library. Its result is the `Option<Book>` parameter, so the model does not say which bodies decode.
- The text of the decode error message (main.go:47) is not modelled. It is reduced to the `BadRequest` outcome.
- JSON rendering of responses and the exact HTTP status codes (main.go:39, 47, 52, 61, 66) are reduced to the `Outcome` tags.
- The collection is a global variable mutated without synchronisation. Concurrent requests race on it. The model is single-threaded and handles requests one after another.
- Slice aliasing in the Go splice (main.go:65) is left out. The model keeps only the resulting sequence value.
- Books.FindIndex: ids are compared as Unicode strings, while Go compares bytes. A path id that is not valid UTF-8 (for example `DELETE /books/%FF`) never matches a stored id in Go, because decoded records and the seed only hold valid UTF-8. Such an id has no counterpart here, since a Dafny `char` is a Unicode scalar value.
- `Book.Quantity` is Go's `int`, taken as 64 bits wide (`Books.Int64`). No operation does arithmetic on it, so wrap-around never arises.
