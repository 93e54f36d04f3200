# Book project: reservation store, catalog lookup and service layer in Dafny

This project models the core of a small Go service that proxies an Open
Library-style book catalog and adds an in-memory "borrow a book" feature.
The core has four layers, each one a module here:

- `Persistent`: the reservation store, a map from user ID to that user's
  reservations in insertion order. It has `borrowBook` and `getBookReservation`.
- `External`: the catalog client. `getListOfBooks` fetches a subject's works
  from `{address}/subjects/{subject}.json`. `getBookByKey` scans them for the
  first book with the requested key.
- `Facade`: the resource (`module` in `pkg/book/book.go`). It routes each call
  unchanged to the catalog client or to the store.
- `Services`: the book service. It converts catalog records to the
  caller-facing shape, runs lookup-then-store for a borrow, and projects
  reservations to (key, pickup date, user ID).

`Domain` holds the resource-layer records. `Errors` holds the error kinds and
their messages: the fixed texts the core creates ("Subject cannot be empty",
"error external call", "Book not found", "User ID is empty") and, for errors
passed on from the HTTP client, the body reader or the JSON decoder, that
collaborator's own text. `Wrappers` holds `Option`, `Result`
and `Outcome`.

The store is a value (`map<int, seq<BorrowBookReq>>`). Each operation takes it,
and a borrow returns the updated store with its outcome. The HTTP exchange and
JSON decoding are an oracle, `fetch: string -> Exchange`, stored with the
configured address in `ExternalModule`. For a URL it says one of three things:
the request could not be built, the transport failed, or a response came back.
A response has a status code and a body that is unreadable, undecodable or
decoded. Resource-layer operations return `Result`. Service-layer operations
return `Reply(value, err)`, Go's value-and-error pair, so that "an error
comes with the zero value" can be stated.

Only user ID 0 is refused by the store; negative user IDs are accepted and
stored (`Persistent.BorrowBook`, pkg/book/persistent.go:25).

## Model

| member | source | states |
|---|---|---|
| Persistent.BorrowBook | pkg/book/persistent.go:24-30 | fails (with `UserIDEmpty`, store unchanged) exactly when the user ID is 0, so negative IDs are accepted; otherwise the user's entry becomes the old entry (empty if absent) followed by the request, the key set gains only that user and every other user's entry is unchanged |
| Persistent.GetBookReservation | pkg/book/persistent.go:32-39 | never fails; for user ID 0 returns the whole store; for any other ID a map whose only key is that ID, bound to its entry or to the empty sequence |
| Errors.Message | pkg/book/external.go:38-87 | the catalog's own errors read "Subject cannot be empty", "error external call" and "Book not found", the store's refusal reads "User ID is empty" (pkg/book/persistent.go:26), and an error from the request builder, the HTTP client, the body reader or the decoder keeps its own text |
| Errors.FixedMessagesDistinct | pkg/book/persistent.go:25-27 | the four errors the core creates itself have pairwise different messages, so the store's refusal of user 0 is never mistaken for a catalog error |
| Persistent.EmptyIsValid | pkg/book/persistent.go:22 | the store the process starts with is valid |
| Persistent.ReachableValid | pkg/book/persistent.go:22-30 | every store reached from the empty one by any run of borrows is valid |
| Persistent.ValidAfterBorrows | pkg/book/persistent.go:24-30 | any run of borrows, refused ones included, keeps a valid store valid |
| Persistent.BorrowPreservesValid | pkg/book/persistent.go:22-30 | a borrow keeps the store free of user 0 and of empty entries, with every reservation filed under its own user |
| Persistent.AllUsersHaveReservations | pkg/book/persistent.go:33-35 | in a valid store, asking for every user shows no user 0 and no user with zero reservations |
| Persistent.BorrowTwiceKeepsBoth | pkg/book/persistent.go:28 | two borrows by one user are both kept in call order; no duplicate detection |
| Persistent.BorrowThenLookup | pkg/book/persistent.go:28-38 | a borrow followed by a lookup of that user yields exactly the one-entry map holding the old entry plus the new reservation |
| Persistent.BorrowAllAppendsPerUser | pkg/book/persistent.go:24-30 | over any run of borrows, each user other than 0 gains exactly the requests made for them, in call order, and user 0 gains nothing |
| Persistent.BorrowAllKeys | pkg/book/persistent.go:24-30 | over any run of borrows, the users with an entry are the old ones plus every non-zero user some request named |
| External.SubjectURL | pkg/book/external.go:31-42 | the URL is the address, then "/subjects/", then the subject, then ".json" |
| External.SubjectURLInjective | pkg/book/external.go:42 | different subjects are fetched from different URLs (the subject can be read back) |
| External.GetListOfBooks | pkg/book/external.go:35-70 | an empty subject fails first; then a request-building failure, a transport failure, any non-200 status whatever the body, an unreadable body and an undecodable body each fail, in that order; a 200 with a decoded body returns the decoded works unchanged |
| External.EmptySubjectMakesNoCall | pkg/book/external.go:38-40 | with an empty subject the result is `SubjectEmpty` whatever the HTTP client would answer |
| External.OnlySubjectURLConsulted | pkg/book/external.go:42-52 | two clients that answer the subject URL alike give the same result |
| External.GetListOfBooksSucceedsIff | pkg/book/external.go:56-69 | success exactly when the subject is non-empty and its URL answered 200 with a decodable body, and the result is that body |
| External.FirstWithKey | pkg/book/external.go:81-85 | finds the position of the first book with the key, or reports that no book has it |
| External.GetBookByKey | pkg/book/external.go:72-88 | a list failure is passed on unchanged; otherwise success exactly when some book has the key, the result being the first such book; otherwise `BookNotFound` |
| External.GetBookByKeyNoLaterThan | pkg/book/external.go:81-85 | if the book at position i has the key, the lookup succeeds with a book from position i or earlier |
| Facade.GetListOfBooks | pkg/book/book.go:29-31 | exactly the catalog client's list result for the same request |
| Facade.BorrowBook | pkg/book/book.go:33-35 | exactly the store's borrow: fails only for user 0 with the store unchanged, otherwise appends |
| Facade.GetBookByKey | pkg/book/book.go:37-39 | exactly the catalog client's lookup; a found book has the requested key |
| Facade.GetBookReservation | pkg/book/book.go:41-43 | exactly the store's lookup, which never fails |
| Services.ConvertAuthors | services/book.go:36-41 | one author per author, in order, names copied |
| Services.ConvertBook | services/book.go:43-49 | key, title, edition count and lending identifier copied; authors' names copied in order |
| Services.ConvertBooks | services/book.go:35-51 | same length and order as the catalog's list, each book converted |
| Services.ProjectReservation | services/book.go:110-114 | keeps the book's key, the pickup date and the user ID |
| Services.ProjectReservations | services/book.go:108-115 | same length and order, each reservation projected |
| Services.ProjectStore | services/book.go:107-117 | same key set as the store, including users bound to empty sequences; each entry projected |
| Services.GetListOfBooks | services/book.go:25-54 | a resource error comes back with an empty list; on success the list has the resource list's length and order, each book converted |
| Services.BorrowBook | services/book.go:56-95 | a failed lookup returns its error and the zero result with the store unchanged; a found book with user 0 returns `UserIDEmpty` and the zero result with the store unchanged; otherwise it stores (resolved book, pickup date, user) and returns the converted book with the pickup date and user ID echoed |
| Services.ReservationReply | services/book.go:98-119 | a resource error comes back with an empty map; otherwise the same users, each sequence projected in order |
| Services.GetBookReservation | services/book.go:97-120 | never fails; user 0 gives every stored user; another ID gives just that user; each entry is the user's reservations, projected in order |
| Services.AuthorsRoundTrip | services/book.go:36-41 | converting authors and back gives the same authors |
| Services.BookRoundTrip | services/book.go:43-49 | converting a book to the caller's shape and back gives the same book |
| Services.ListLosesNothing | services/book.go:35-51 | the caller's list converts back to exactly the catalog's list |
| Services.ProjectAppend | services/book.go:108-115 | projecting a sequence with one more reservation appends that reservation's projection |
| Services.BorrowSucceedsIff | services/book.go:59-73 | a borrow succeeds exactly when the book is found and the user ID is not 0 |
| Services.BorrowThenGetReservation | services/book.go:56-117 | after a successful borrow, a lookup of that user shows only that user, with the earlier reservations unchanged, then one with the requested key, pickup date and user ID |

## Left out

- HTTP handlers, router and response envelope: request parsing, status codes and JSON encoding at the boundary are glue around the service layer.
- The HTTP client, its timeouts and JSON decoding: the oracle `fetch` gives only their outcome for a URL. Building the request (`http.NewRequestWithContext`) is part of that oracle as its `RequestRejected` case.
- External.GetListOfBooks: when decoding fails, Go may return a partly decoded value next to the error. The model returns the error alone, because no caller reads the value once the error is set.
- Configuration loading, startup and `context.Context` arguments: none of them affects results.
- Concurrency: the source's store is an unsynchronised process-wide map. The model accesses it one call at a time and does not model races.
- Aliasing: for user ID 0 the source returns the live map, not a copy. The model returns a value snapshot.
- nil versus empty slices and maps: both are the empty `seq`/`map`.
- 64-bit width of Go's `int`: user IDs and edition counts are unbounded integers, because the core does no arithmetic on them.
- The service layer is modelled against the concrete resource (`Facade.Resource`), not against an arbitrary implementation of its resource interface. The test doubles are not modelled.
- Persistent.GetBookReservation: "does not modify the store" holds by construction, because the function takes the store by value and returns no store.
