# mail-crier storage bootstrap in Dafny

mail-crier keeps mailing lists and subscribers in a document database. Its Go
package `backend` declares the three entity records (`MailingList`,
`Subscriber`, `Subscription`) and, at start-up, makes sure the two backing
collections `mailing-list` and `subscriber` exist. That bootstrap is what this
project models:

- `containsAll(s, values)`, the hand-written check that the listed collection
  names cover the required ones (module `Backend`, method `ContainsAll`), proved
  exactly equal to the predicate `Covered`. `Covered` says: `s` is non-empty,
  and the number of positions of `s` whose element occurs in `values` is at
  least `len(values)`. The lemmas then state what that means: the positions
  really are counted; for duplicate-free inputs with a non-empty `values` it
  means "every value occurs in `s`"; repeated names can stand in for a missing
  one; an empty `s` is never covering, not even for an empty `values`.
- `collectionNames()` (`Backend.CollectionNames`).
- `InitCollections`, modelled as a method over `Mongo.Database`. This class is
  an abstract stand-in for the database handle. It holds the collection names
  in listing order, the failure a listing reports, and the names whose creation
  fails for infrastructure reasons, each with its reason (an `Unavailable` error). Creating a name that already exists fails
  with `NamespaceExists`. The method is proved equal to the function
  `InitOutcome`. The lemmas about `InitOutcome` cover the rest: a failed listing
  is returned and nothing is created; a covering listing creates nothing; an
  uncovered one tries every required name in order and stops at the first
  failure; success leaves both collections in place; and a second run after a
  success does nothing.

The files: `base.dfy` (an `Option` type for Go's `error`, and duplicate-freedom),
`mongo.dfy` (the database stand-in), and `storage.dfy` (the entities and the
bootstrap, module `Backend`).

The entity records of internal/backend/storage.go:11-28 are the datatypes
`Backend.MailingList`, `Backend.Subscriber` and `Backend.Subscription`, field
for field. A `Subscription`'s pointers become `Option` values, its UUID is
`Backend.Uuid` (16 bytes) and its timestamp is `Backend.Time` (nanoseconds since
the Unix epoch). They carry no behaviour in the source, so they have no
contracts and no row in the table below.

The bootstrap runs on every start of the backend
(internal/backend/backend.go:46), so it is meant to succeed whatever state an
earlier start left behind. The code instead creates every required collection
once any one is missing, which fails when only one of them exists (see
"## Findings"). The code creates no index on any collection, and the model
creates none either.

## Model

| member | source | states |
|---|---|---|
| `Backend.ContainsAll` | internal/backend/storage.go:50-67 | the result is true exactly when `s` is non-empty and at least `len(values)` positions of `s` hold an element of `values`; false when `len(values) > len(s)`; false for an empty `s`; true for an empty `values` and a non-empty `s` |
| `Backend.Matches` | internal/backend/storage.go:54-61 | the quantity the counter tracks (matching positions of `s`) never exceeds `len(s)` |
| `Backend.MatchesCountsPositions` | internal/backend/storage.go:55-61 | the counter's decrements equal the number of positions `i` with `s[i]` in `values` |
| `Backend.CoveredDistinct` | internal/backend/storage.go:50-67 | for duplicate-free `s` and `values` with `values` non-empty, `containsAll` is true iff every element of `values` occurs in `s` |
| `Backend.DuplicatesCanCover` | internal/backend/storage.go:55-63 | a listing naming "mailing-list" twice and "subscriber" never still counts as covering the required names |
| `Backend.EmptyNeverCovered` | internal/backend/storage.go:55-66 | an empty `s` is never covering, whatever `values` is, since the loop body never runs |
| `Backend.CollectionNames` | internal/backend/storage.go:69-71 | the required collections are exactly "mailing-list" then "subscriber", with no repetition |
| `Backend.InitCollections` | internal/backend/storage.go:31-48 | the returned error and the collections afterwards are those `InitOutcome` gives for the collections, listing failure and creation failures before the call; collection names stay unique |
| `Backend.InitListFailure` | internal/backend/storage.go:32-36 | a failed listing is returned unchanged and no collection is created |
| `Backend.InitCoveredCreatesNothing` | internal/backend/storage.go:38-47 | if the listing covers the required names, nothing is created and the result is nil |
| `Backend.InitUncoveredCreatesEach` | internal/backend/storage.go:38-44 | if the listing does not cover them, the outcome is that of creating every required name in order, including names that already exist |
| `Backend.CreateEachStopsAtFirstFailure` | internal/backend/storage.go:39-44 | when the first `k` creations succeed and creation `k` fails, that error is returned, exactly the first `k` names have been added, and no later name is attempted |
| `Backend.CreateEachSucceeds` | internal/backend/storage.go:39-47 | when no creation fails, every required name is appended in order and the result is nil |
| `Backend.CreateEachResult` | internal/backend/storage.go:39-44 | creating keeps names unique, never removes a collection, and a nil result means every required name exists |
| `Backend.InitSuccessEstablishesCollections` | internal/backend/storage.go:31-48 | on a database with unique names, a nil result means "mailing-list" and "subscriber" both exist afterwards |
| `Backend.InitIsIdempotent` | internal/backend/storage.go:31-48 | running the bootstrap again on what a successful run left creates nothing and returns nil, whatever creation would do |
| `Backend.InitRejectsPartialCollections` | internal/backend/storage.go:38-43 | with "mailing-list" present, "subscriber" missing and no failure fixed for "mailing-list", the bootstrap fails with a name clash on "mailing-list" and never creates "subscriber" |
| `Backend.CreateMissingErrorsAreFaults` | internal/backend/storage.go:38-44 | every error of the corrected bootstrap is the infrastructure failure (`Unavailable`) fixed for some required name, never a name clash |
| `Backend.CreateMissingSucceeds` | internal/backend/storage.go:38-47 | without infrastructure failures the corrected bootstrap returns nil, keeps the existing collections and leaves every required one in place |
| `Backend.EnsureCollections` | internal/backend/storage.go:31-48 | the corrected bootstrap's error and collections are those `CreateMissing` gives after a successful listing; a listing failure is returned with nothing created |
| `Backend.EnsureCompletesPartialCollections` | internal/backend/storage.go:38-44 | from "mailing-list" alone the corrected bootstrap creates "subscriber" and returns nil |
| `Mongo.Create` | internal/backend/storage.go:40 | creation succeeds exactly when the name is free and no failure is fixed for it, and then appends the name; otherwise the collections are unchanged; uniqueness is kept |
| `Mongo.Database.ListCollectionNames` | internal/backend/storage.go:32 | the listing returns the existing names, or an empty list together with the listing failure |
| `Mongo.Database.CreateCollection` | internal/backend/storage.go:40 | creating one collection changes the names as `Mongo.Create` says and keeps them unique |

## Findings

| source | as written | input that shows it | evidently intended | confidence | as-written member | corrected member |
|---|---|---|---|---|---|---|
| internal/backend/storage.go:38-44 | when the required collections are not all present, every one is created, including those that exist | a database holding only "mailing-list": `CreateCollection("mailing-list")` fails with a name clash, the error is returned and "subscriber" is never created | create only the collections that are missing, so bootstrap is safe on every start | medium, not executed; depends on the store rejecting the creation of an existing collection | `Backend.InitRejectsPartialCollections` | `Backend.EnsureCollections` (with `Backend.CreateMissingSucceeds`, `Backend.CreateMissingErrorsAreFaults`, `Backend.EnsureCompletesPartialCollections`) |

## Left out

- The request context (`ctx`) is dropped: cancellation and timeouts would show up only as a failure, and failures are fixed in the database stand-in.
- Mongo.Database.ListCollectionNames: drops the `nil` filter that internal/backend/storage.go:32 passes. The Go driver's documentation says this filter cannot be nil and that the call then fails (its `ErrNilDocument`). If so, every listing as written fails, and only the `listFault` case of the model is reachable. The model does not force that outcome; it leaves the listing failure free.
- The real MongoDB calls `ListCollectionNames` and `CreateCollection` are foreign. The stand-in records ahead of time which calls fail; it does not model unique indexes, options or server versions.
- Other clients or a second instance of the backend are not modelled. Between the listing (internal/backend/storage.go:32) and the creations (internal/backend/storage.go:40), only this call's own creations change the collections. A concurrent start that creates a collection in that window is a second way to reach the "mailing-list"-only state of the finding.
- Unique indexes on `display_name` and `email` are not modelled: the code creates none.
- The entity records have no operations in the source. The insert, delete and cascade operations that `internal/backend/storage_test.go` calls do not exist in `storage.go`, so they are not modelled.
- `internal/backend/backend.go` is not part of this model. It holds environment loading, the MongoDB connection, the SMTP handshake, disconnect and start-up sequencing, all of which are I/O.
- internal/backend/backend.go:46 calls `InitDatabaseCollections`, but storage.go defines no function of that name; the model takes the start-up call to mean `InitCollections`.
- `cmd/mail-crier/mail-crier.go` only loads a `.env` file and prints a greeting.
- UUID generation and `time.Time` arithmetic are not modelled: `Uuid` is any 16 bytes and `Time` an instant in nanoseconds, without time zone or monotonic reading.
- Go's `int` counter in `containsAll` is an unbounded integer: it starts at a slice length and only decreases to zero, so 64-bit wrap-around cannot occur.
