# Library resolvers — a Dafny model

This project models the GraphQL resolver layer of a small library service and two
data-structure routines of its React client, and proves what they promise.

The server keeps three MongoDB collections: authors, books and users. Each author keeps
a back-list holding the ids of that author's books. Clients can:

- query books by author and/or genre (`allBooks`);
- list authors together with their books (`allAuthors`, `Author.bookCount`);
- count books and authors;
- sign in (`login`), which returns a JWT;
- when signed in, with a `Bearer` header, add a book (`addBook`) or set an author's birth
  year (`editAuthor`);
- register (`createUser`).

`addBook` does find-or-create on the author's name:

1. it stores the author if the name is new, and publishes `AUTHOR_ADDED`;
2. it saves the book;
3. it pushes the book onto the author's back-list;
4. only then does it publish `BOOK_ADDED`.

On the client, every book that arrives, whether from the mutation's `update` callback or
from the `bookAdded` subscription, is inserted into the cached `allBooks` list only if
its id is not there yet. From that cache the client builds the list of genres, each genre
once and in the order it is first met.

The modules are:

- `Wrappers`: `Option` and `Result`.
- `Seqs`: a first-match search.
- `Records`: the documents, the GraphQL argument record, the published events, the
  thrown errors, and the distinct-key predicates.
- `Queries`: the read resolvers as functions over the collections.
- `Auth`: the bearer-header branch of the request context, and `login`. `jwt.sign` and
  `jwt.verify` are function parameters.
- `Mutations`: a value snapshot of the store plus the event log, the three mutations as
  step functions from one snapshot to the next, and two store invariants with the lemmas
  about them:
  - `Valid` is the structural invariant: ids distinct and already handed out, author names
    distinct, every book referring to a stored author, and every back-list entry being a
    stored book.
  - `Linked` says each author's back-list is exactly the ids of the books that refer to
    that author, in insertion order.
- `Store`: `class Library`, the store as the resolvers change it. Its methods perform
  the writes one at a time, in the source's order, and each is proved to end in the state
  its step function describes.
- `Client`: `includedIn`, the cache update as `class BookCache`, and the genre-list
  builder as a method with the source's two nested loops.

Persistence is a sequence of documents, and ObjectIds come from one counter (`nextId`).
A document takes its id when it is constructed, even if its save is later rejected.
Whether the store rejects a write is not visible in this code, because the Mongoose
schemas are not part of this model. The rejections are therefore a parameter:
`Rejections(authorSave, bookSave, backListPush)` for `addBook` and `rejected` for
`createUser`. Publishing appends to the event log.

The model follows the code as written, also where it does something other than a reader of the GraphQL schema would expect:

- `editAuthor` assigns `born := setBornTo` unconditionally, so omitting `setBornTo`
  clears the birth year. It does not leave it unchanged.
- `editAuthor` on an unknown name dereferences `null`. The request fails and nothing is
  written. The model returns `AuthorNotFound` with the store unchanged.
- The source throws `AuthenticationError` and `UserInputError` and calls `jwt`, but never
  imports them, so as written each throw would itself be a `ReferenceError`. The model
  uses the error kinds the code evidently means: `NotAuthenticated`, `InvalidBookArgs`,
  `InvalidUserArgs`, `IncorrectCredentials` and `InvalidToken`.
- `allBooks` tests its arguments with JavaScript truthiness, so an empty string counts
  as no filter (`Queries.IsGiven`).
- `authorDetails` drops the book's id from each entry.

## Model

| member | source | states |
|---|---|---|
| Queries.AuthorIndexByName | backend/library-backend.js:156 | the index of the first author with that name, or none exactly when no author has it |
| Queries.FindAuthorByName | backend/library-backend.js:220 | a stored author with that name; null exactly when no author has the name |
| Queries.GetAuthorId | backend/library-backend.js:155-162 | null exactly when no author has the name; otherwise the id of a stored author with that name |
| Queries.AuthorById | backend/library-backend.js:171 | a stored author with that id; null exactly when no stored author has it, or when the reference is null |
| Queries.BookById | backend/library-backend.js:202 | a stored book with that id; null exactly when no stored book has it |
| Queries.Select | backend/library-backend.js:182-196 | a book is selected exactly when it is stored and matches the author and genre conditions; the selection is no longer than the collection |
| Queries.SelectSnoc | backend/library-backend.js:182-196 | selection keeps store order: a book appended to the collection comes last in the selection exactly when it matches |
| Queries.SelectUnfiltered | backend/library-backend.js:182 | `Book.find({})` returns the whole collection in order |
| Queries.SelectBoth | backend/library-backend.js:193-196 | the two-condition query equals the genre query applied to the author query's result |
| Queries.SelectNoMatch | backend/library-backend.js:189 | a query that no stored book matches returns nothing |
| Queries.IsGiven | backend/library-backend.js:181-191 | JavaScript truthiness of a string argument: absent, null and "" are not given (a definition without a contract) |
| Queries.SelectBooks | backend/library-backend.js:180-198 | the four cases: no filter gives every book; genre only gives exactly the books having that genre; author only gives exactly the books referring to the resolved id; both give exactly the books meeting both conditions |
| Queries.AllBooksBothFilters | backend/library-backend.js:191-197 | with both filters the result is the conjunction: the genre restriction of the author-only result, and a book is in it exactly when it is in both single-filter results |
| Queries.AllBooksUnknownAuthor | backend/library-backend.js:187-197 | when no author has the name, the author filter matches only books with a null author, so when every book has an author the result is empty, with or without a genre |
| Queries.AuthorDetails | backend/library-backend.js:164-174 | one entry per book, in order, with the book's title, year and genres, and the author the book refers to when it is stored |
| Queries.AllBooks | backend/library-backend.js:180-198 | one entry per selected book, in order: entry i carries the i-th selected book's title, year and genres and the author its reference looks up; when every book's author is stored, every entry's author is resolved |
| Queries.Populate | backend/library-backend.js:202 | `populate("books")` yields only stored books whose ids are on the back-list, and no more than the back-list holds |
| Queries.PopulateResolved | backend/library-backend.js:202 | when every back-list id is a stored book, the populated list has one book per id, in back-list order |
| Queries.AllAuthors | backend/library-backend.js:201-203 | one view per author with the same id, name and birth year; every listed book is stored and on that author's back-list |
| Queries.BookCountIsBackListLength | backend/library-backend.js:208-210 | an author's `bookCount` is the length of its back-list |
| Queries.AuthorBookCount | backend/library-backend.js:209 | `root.books.length` (a definition; `Queries.BookCountIsBackListLength` and `Mutations.BookCountMatchesAllBooks` state its properties) |
| Queries.BookCount | backend/library-backend.js:178 | the size of the book collection (a definition; `Mutations.TotalBookCount` states its property) |
| Queries.AuthorCount | backend/library-backend.js:179 | the size of the author collection (a definition; `Mutations.AddBookFindOrCreate` states how `addBook` changes it) |
| Auth.Lower | backend/library-backend.js:304 | the header lowercased character by character, length kept |
| Auth.IsBearer | backend/library-backend.js:304 | a header counts exactly when it is present, at least six characters long, and its first six characters lowercase to `bearer` |
| Auth.TokenOf | backend/library-backend.js:305 | the header from index 7 on, or empty when it is shorter |
| Auth.FindUserById | backend/library-backend.js:306 | a stored user with that id; null exactly when none has it |
| Auth.FindUserByUsername | backend/library-backend.js:277 | a stored user with that username; null exactly when none has it |
| Auth.ResolveContext | backend/library-backend.js:302-309 | no header, or one whose lowercase does not start with `bearer`, gives no current user; an error exactly when a bearer token fails verification; a current user is always a stored user with the token's id, and a verified token whose id a stored user has always gives a current user |
| Auth.Login | backend/library-backend.js:276-287 | every failure is the one incorrect-credentials error; success exactly when the password is the shared one and the username is stored; the token signs exactly `{username, id}` of that user |
| Auth.BearerHeader | backend/library-backend.js:304-305 | `Bearer <t>` and `bearer <t>` are bearer headers whose token is `<t>` |
| Auth.BasicHeaderIsAnonymous | backend/library-backend.js:303-309 | a `Basic` header gives no current user |
| Auth.LoginThenAuthenticate | backend/library-backend.js:276-309 | a token returned by `login`, sent as `Bearer <token>`, authenticates as that user, given `verify` inverts `sign` |
| Mutations.Ids | backend/library-backend.js:247 | the ids of the books, one per book, in order |
| Mutations.PushBook | backend/library-backend.js:247 | the `$push`: the target author's back-list gains the book id at its end; every author keeps id, name and birth year; other back-lists are unchanged |
| Mutations.ResolvedAuthor | backend/library-backend.js:220-237 | the author `addBook` attaches the book to: the stored one with the name, else a new one under the next id (a definition; `Mutations.ResolvedAuthorStored` states its properties) |
| Mutations.AddBookStep | backend/library-backend.js:212-254 | `addBook` as a step from one store state to the next (a definition; the `AddBook…` lemmas state its properties and `Store.Library.AddBook` is proved equal to it) |
| Mutations.EditAuthorStep | backend/library-backend.js:255-263 | `editAuthor` as a step (a definition; `Mutations.EditAuthorSetsBorn` and `Mutations.EditAuthorKeepsInvariants` state its properties) |
| Mutations.CreateUserStep | backend/library-backend.js:264-275 | `createUser` as a step (a definition; `Mutations.CreateUserKeepsInvariants` and `Mutations.CreateUserThenLogin` state its properties) |
| Mutations.WithNewAuthorKeepsInvariants | backend/library-backend.js:224-229 | saving an author with an unused name and a fresh id keeps both store invariants |
| Mutations.NoBookByFreshId | backend/library-backend.js:239-242 | no stored book refers to the next id, so an author created under it starts with no books |
| Mutations.WithBookKeepsValid | backend/library-backend.js:239-246 | saving a book with a fresh id that refers to a stored author keeps the store valid |
| Mutations.PushBookKeepsKeys | backend/library-backend.js:247 | the push keeps author ids and names, and so their distinctness |
| Mutations.WithPushKeepsValid | backend/library-backend.js:247 | pushing a stored book's id keeps the store valid |
| Mutations.PushBookBackLists | backend/library-backend.js:247 | after the push, a back-list entry is an old entry of that author, or the pushed id on the target author |
| Mutations.WithBookAndPushKeepsLinked | backend/library-backend.js:239-247 | saving a book and then pushing it onto its author's back-list keeps every back-list exact |
| Mutations.ResolvedAuthorStored | backend/library-backend.js:220-237 | the author the book is attached to is the stored author with that name, or else a new author with the next id, that name, no birth year and an empty back-list, which is stored once its save goes through |
| Mutations.AddBookKeepsValid | backend/library-backend.js:212-254 | `addBook` keeps the store valid, whichever of its writes are rejected |
| Mutations.AddBookKeepsLinked | backend/library-backend.js:212-254 | `addBook` keeps every back-list exact unless the push itself is rejected |
| Mutations.AddBookPublishes | backend/library-backend.js:212-254 | success exactly when signed in and no write is rejected; every failure is the authentication error or the invalid-arguments error carrying the arguments; the log gains `AUTHOR_ADDED` exactly when an author is created, and `BOOK_ADDED` exactly on success and last |
| Mutations.AddBookFindOrCreate | backend/library-backend.js:220-237 | an existing name leaves the author count unchanged; for a new name whose save is accepted, exactly one author is appended, under a fresh id, with that name, no birth year, and a back-list holding just the new book on success and nothing otherwise; a rejected author save leaves authors, books and log unchanged; otherwise an author with the name is stored afterwards |
| Mutations.AddBookSucceeds | backend/library-backend.js:239-253 | success stores exactly one new book, with a fresh id and the given title, year and genres; the users are unchanged; the last event is `BOOK_ADDED` with that book |
| Mutations.AddBookAppendsToBackList | backend/library-backend.js:220-247 | success refers the book to the author with the given name and appends its id to the end of that author's back-list, which was empty if the author was just created; every author with another name is unchanged |
| Mutations.PushBookOthers | backend/library-backend.js:247 | with distinct author ids the push extends the target author's back-list and leaves every other author as it was |
| Mutations.AddBookPushRejectedLeavesOrphan | backend/library-backend.js:244-252 | when the push is rejected after the book was saved, the invalid-arguments error is thrown, the book stays stored, no back-list names it and the back-lists are no longer exact; the log gains only `AUTHOR_ADDED` for an author created on the way, and no `BOOK_ADDED` |
| Mutations.OrphanBreaksLinked | backend/library-backend.js:244-247 | a stored book missing from its author's back-list breaks back-list exactness |
| Mutations.BackListIdsHandedOut | backend/library-backend.js:247 | every back-list id has already been handed out |
| Mutations.SequentialAddBooksCreateOneAuthor | backend/library-backend.js:220-237 | two sequential `addBook` calls for the same new name create that author once |
| Mutations.AnonymousMutationsChangeNothing | backend/library-backend.js:216-218 | with no header or a non-bearer header, `addBook` and `editAuthor` throw the authentication error and leave store and log unchanged |
| Mutations.EditAuthorSetsBorn | backend/library-backend.js:255-263 | an unknown name is an error and changes nothing; otherwise the named author's birth year becomes exactly `setBornTo`, absent included, and nothing else changes |
| Mutations.EditAuthorKeepsInvariants | backend/library-backend.js:255-263 | `editAuthor` keeps both store invariants |
| Mutations.CreateUserKeepsInvariants | backend/library-backend.js:264-275 | `createUser` keeps both store invariants, whether or not the save is rejected |
| Mutations.CreateUserThenLogin | backend/library-backend.js:264-287 | once `createUser` succeeds, `login` with that username succeeds with the shared password and fails with any other; when no earlier user had the username, the token is signed over the created user's username and id |
| Mutations.EveryBookOnItsAuthorsBackList | backend/library-backend.js:239-247 | in an exact store, every book's id is on the back-list of the author it refers to |
| Mutations.BookCountMatchesAllBooks | backend/library-backend.js:180-209 | an author's `bookCount` equals the number of books `allBooks(author: name)` returns |
| Mutations.AuthorIdOfStored | backend/library-backend.js:155-162 | with distinct names, `getAuthorId` on a stored author's name returns that author's id |
| Mutations.CountByAuthorsIsBookCount | backend/library-backend.js:178 | when author ids are distinct and every book refers to a stored author, the per-author book counts add up to the size of the collection |
| Mutations.TotalBookCount | backend/library-backend.js:178-209 | the collection's `bookCount` equals the sum of the authors' `bookCount`s |
| Store.AuthorByIdOfStored | backend/library-backend.js:236 | `Author.findById` on a stored author's id returns that author |
| Store.Library.constructor | backend/library-backend.js:15-22 | an empty database satisfies both store invariants |
| Store.Library.NewId | backend/library-backend.js:225 | constructing a document takes the next id and changes nothing else |
| Store.Library.InsertAuthor | backend/library-backend.js:226 | the author save appends to the authors |
| Store.Library.InsertBook | backend/library-backend.js:246 | the book save appends to the books |
| Store.Library.PushOntoBackList | backend/library-backend.js:247 | the `$push` onto the target author's back-list |
| Store.Library.Publish | backend/library-backend.js:228 | a publication appends to the log |
| Store.Library.FindOrCreateAuthor | backend/library-backend.js:220-237 | the stored author with the name is reused and nothing changes; otherwise a new author takes the next id and, unless its save is rejected (then the invalid-arguments error is thrown), is stored and published |
| Store.Library.AddBook | backend/library-backend.js:212-254 | the writes in the source's order end exactly in `addBook`'s step, keep the store valid, and keep back-lists exact unless the push is rejected |
| Store.Library.EditAuthor | backend/library-backend.js:255-263 | the in-place edit ends exactly in `editAuthor`'s step and keeps both invariants |
| Store.Library.CreateUser | backend/library-backend.js:264-275 | the user save ends exactly in `createUser`'s step and keeps both invariants |
| Client.IdsOf | library-frontend/src/App.js:39 | one id per cached book, in order |
| Client.IncludedIn | library-frontend/src/App.js:38-40 | true exactly when some cached book has the object's id |
| Client.CacheInsert | library-frontend/src/App.js:43-48 | the cached list after `updateCacheWith` (a definition; `Client.CacheInsertEffect` and `Client.CacheInsertIdempotent` state its properties) |
| Client.CacheInsertEffect | library-frontend/src/App.js:43-48 | a book whose id is cached leaves the cache unchanged; any other book is appended at the end, length one greater and every earlier entry kept; afterwards the id is cached; distinct ids stay distinct |
| Client.CacheInsertIdempotent | library-frontend/src/App.js:36-50 | inserting the same book twice equals inserting it once |
| Client.BookCache.constructor | library-frontend/src/App.js:42 | the cache holds the list read from the store |
| Client.BookCache.UpdateCacheWith | library-frontend/src/App.js:36-50 | the in-place update yields the insert-if-absent list and keeps ids distinct |
| Client.BookCache.DeliverTwice | library-frontend/src/App.js:161-172 | the subscription handler's delivery after the mutation's `update` callback (line 67) leaves the cache as one delivery does |
| Client.Flatten | library-frontend/src/App.js:141-148 | the genres in scan order, book by book (a definition; `Client.FlattenMembers` states its property) |
| Client.Dedup | library-frontend/src/App.js:149-152 | the scan with every repeat of a genre dropped, no longer than the scan (`Client.DedupMembers`, `Client.DedupDistinct` and `Client.DedupOrder` state the rest) |
| Client.FirstIndex | library-frontend/src/App.js:150 | the position of the first occurrence |
| Client.FlattenMembers | library-frontend/src/App.js:141-153 | a genre is scanned exactly when some book has it |
| Client.DedupMembers | library-frontend/src/App.js:149-152 | de-duplication keeps exactly the genres scanned |
| Client.DedupDistinct | library-frontend/src/App.js:149-152 | the de-duplicated list has no repeated genre |
| Client.FirstIndexPrefix | library-frontend/src/App.js:141-153 | the first occurrence ignores later appends |
| Client.DedupOrder | library-frontend/src/App.js:141-153 | genres appear in the order they are first met |
| Client.DedupScanStep | library-frontend/src/App.js:148-152 | scanning one more genre of the current book appends it to the list exactly when it is not yet listed |
| Client.GenresList | library-frontend/src/App.js:135-158 | nothing without data; otherwise the de-duplicated scan; every genre of every book, and only those; no duplicates |

## Left out

- The MongoDB connection, Mongoose, `countDocuments` and `populate`. The collections are sequences, and queries and updates are sequence operations.
- The Mongoose schemas (`backend/models/*`) are not part of this model. Which saves they reject is the `Rejections` parameter of `addBook` and the `rejected` parameter of `createUser`.
- Store.Library.EditAuthor: a rejected save of the edited author is not modelled. The edit always goes through.
- The GraphQL schema string, ApolloServer construction and `listen`: these are transport.
- `jwt.sign` and `jwt.verify`: these are foreign cryptography. They are function parameters, and `SharedPassword` is the fixed password.
- The PubSub async iterators and subscriber fan-out: this is streaming. Publishing is an append to the event log.
- Concurrency: the resolvers are `async` and may interleave at each `await`. The model runs each resolver to completion before the next, so interleavings, including the duplicate-author race in find-or-create, are outside it.
- CreateUserThenLogin: when an earlier user already has the username, `login` finds that earlier user and signs its id, as `User.findOne` does. Whether the store refuses a duplicate username is a schema constraint that is not part of this model.
- The seed arrays `authors` and `books`: the code never uses them.
- `Query.me`: it only returns the context's current user, which `Auth.ResolveContext` models.
- Auth.Lower: lowercases ASCII letters only. JavaScript's `toLowerCase` also maps other Unicode letters, which does not affect a `bearer` prefix test.
- React rendering, hooks, `setTimeout` notifications, network fetches, `localStorage` and logout in the client.
- `library-frontend/src/components/UpdateBirthYear.js`: it is a UI form, and it is not part of this model.
