/** The write side of the resolvers as functions from one store snapshot to the next:
    `addBook` (find-or-create of the author, the book write, the back-list push, the two
    publications), `editAuthor` and `createUser`; the store invariants they keep; and the
    relations between the reads and the writes. */
module Mutations {
  import opened Wrappers
  import opened Records
  import opened Queries
  import opened Auth

  /** The document store and the publication log at one moment. `nextId` is the next
      ObjectId to hand out. */
  datatype Snapshot = Snapshot(authors: seq<Author>, books: seq<Book>, users: seq<User>, events: seq<Event>, nextId: Id)

  /** The store after an operation, and what the operation returned or threw. */
  datatype Step<T> = Step(state: Snapshot, result: Result<T, Error>)

  /** Which of the writes of `addBook` the store rejects: saving the new author, saving the
      book, or pushing the book onto the author's back-list. */
  datatype Rejections = Rejections(authorSave: bool, bookSave: bool, backListPush: bool)

  /** The store's structural invariant: ids are distinct and already handed out, author
      names are distinct, every book refers to a stored author, and every back-list entry
      is the id of a stored book. */
  ghost predicate Valid(s: Snapshot) {
    && AuthorIdsDistinct(s.authors)
    && AuthorNamesDistinct(s.authors)
    && BookIdsDistinct(s.books)
    && UserIdsDistinct(s.users)
    && (forall a :: a in s.authors ==> a.id < s.nextId)
    && (forall b :: b in s.books ==> b.id < s.nextId)
    && (forall u :: u in s.users ==> u.id < s.nextId)
    && (forall b :: b in s.books ==> exists a :: a in s.authors && Some(a.id) == b.author)
    && (forall a, id :: a in s.authors && id in a.books ==> exists b :: b in s.books && b.id == id)
  }

  /** The books whose author reference is `id`, in store order. */
  function BooksBy(books: seq<Book>, id: Id): seq<Book> {
    Select(books, BookQuery(Some(Some(id)), None))
  }

  /** The ids of `books`, in order. */
  function Ids(books: seq<Book>): (r: seq<Id>)
    ensures |r| == |books|
    ensures forall i :: 0 <= i < |books| ==> r[i] == books[i].id
  {
    seq(|books|, i requires 0 <= i < |books| => books[i].id)
  }

  /** Every author's back-list is exactly the ids of the books that refer to it, in the
      order they were stored. */
  ghost predicate Linked(s: Snapshot) {
    forall i :: 0 <= i < |s.authors| ==> s.authors[i].books == Ids(BooksBy(s.books, s.authors[i].id))
  }

  /** `bookAuthor.updateOne({ $push: { books: book } })`. */
  function PushBook(authors: seq<Author>, authorId: Id, bookId: Id): (r: seq<Author>)
    ensures |r| == |authors|
    ensures forall i :: 0 <= i < |r| ==>
      && r[i].id == authors[i].id && r[i].name == authors[i].name && r[i].born == authors[i].born
      && r[i].books == (if authors[i].id == authorId then authors[i].books + [bookId] else authors[i].books)
  {
    seq(|authors|, i requires 0 <= i < |authors| =>
      if authors[i].id == authorId then authors[i].(books := authors[i].books + [bookId]) else authors[i])
  }

  /** The author a book for `name` is attached to: the stored one, or the one to be created. */
  function ResolvedAuthor(s: Snapshot, name: string): Author {
    match FindAuthorByName(s.authors, name)
    case Some(a) => a
    case None => Author(s.nextId, name, None, [])
  }

  /** A document is constructed: it takes the next id. */
  function Allocated(s: Snapshot): Snapshot {
    s.(nextId := s.nextId + 1)
  }

  /** `new Author({ name }).save()`, then `pubSub.publish("AUTHOR_ADDED", ...)`. */
  function WithNewAuthor(s: Snapshot, name: string): Snapshot {
    var created := Author(s.nextId, name, None, []);
    s.(authors := s.authors + [created], events := s.events + [AuthorAdded(created)], nextId := s.nextId + 1)
  }

  /** `new Book({ ...args, author })` under the next id, then `book.save()`. */
  function WithBook(s: Snapshot, book: Book): Snapshot {
    s.(books := s.books + [book], nextId := s.nextId + 1)
  }

  /** The back-list push. */
  function WithPush(s: Snapshot, authorId: Id, bookId: Id): Snapshot {
    s.(authors := PushBook(s.authors, authorId, bookId))
  }

  /** `pubSub.publish(...)`: the event is appended to the log. */
  function Published(s: Snapshot, e: Event): Snapshot {
    s.(events := s.events + [e])
  }

  /** `Mutation.addBook`. */
  function AddBookStep(s: Snapshot, currentUser: Option<User>, args: BookArgs, rejects: Rejections): Step<Book> {
    if currentUser.None? then
      Step(s, Err(NotAuthenticated))
    else
      var existing := FindAuthorByName(s.authors, args.author);
      if existing.None? && rejects.authorSave then
        Step(Allocated(s), Err(InvalidBookArgs(args)))
      else
        var bookAuthor := ResolvedAuthor(s, args.author);
        var s1 := if existing.Some? then s else WithNewAuthor(s, args.author);
        var book := Book(s1.nextId, args.title, args.published, args.genres, Some(bookAuthor.id));
        if rejects.bookSave then
          Step(Allocated(s1), Err(InvalidBookArgs(args)))
        else if rejects.backListPush then
          Step(WithBook(s1, book), Err(InvalidBookArgs(args)))
        else
          Step(Published(WithPush(WithBook(s1, book), bookAuthor.id, book.id), BookAdded(book)), Ok(book))
  }

  /** `Mutation.editAuthor`: the birth year is set to `setBornTo` even when it is absent. */
  function EditAuthorStep(s: Snapshot, currentUser: Option<User>, name: string, setBornTo: Option<int>): Step<Author> {
    if currentUser.None? then
      Step(s, Err(NotAuthenticated))
    else
      match AuthorIndexByName(s.authors, name)
      case None => Step(s, Err(AuthorNotFound))
      case Some(i) =>
        var edited := s.authors[i].(born := setBornTo);
        Step(s.(authors := s.authors[i := edited]), Ok(edited))
  }

  /** `Mutation.createUser`: `rejected` says whether the store refuses the new user. */
  function CreateUserStep(s: Snapshot, username: string, favoriteGenre: string, rejected: bool): Step<User> {
    var user := User(s.nextId, username, favoriteGenre);
    if rejected then
      Step(Allocated(s), Err(InvalidUserArgs(username, favoriteGenre)))
    else
      Step(s.(users := s.users + [user], nextId := s.nextId + 1), Ok(user))
  }

  // ----- the invariants, one write at a time -----

  /** A new author with a name nobody has and the next id keeps the store valid and exact. */
  lemma WithNewAuthorKeepsInvariants(s: Snapshot, name: string)
    requires Valid(s)
    requires FindAuthorByName(s.authors, name).None?
    ensures Valid(WithNewAuthor(s, name))
    ensures Linked(s) ==> Linked(WithNewAuthor(s, name))
  {
    WithNewAuthorKeepsKeys(s, name);
    var t := WithNewAuthor(s, name);
    forall b | b in t.books
      ensures exists a :: a in t.authors && Some(a.id) == b.author
    {
      var a :| a in s.authors && Some(a.id) == b.author;
      assert a in t.authors;
    }
    if Linked(s) {
      WithNewAuthorKeepsLinked(s, name);
    }
  }

  lemma WithNewAuthorKeepsKeys(s: Snapshot, name: string)
    requires Valid(s)
    requires FindAuthorByName(s.authors, name).None?
    ensures AuthorIdsDistinct(WithNewAuthor(s, name).authors) && AuthorNamesDistinct(WithNewAuthor(s, name).authors)
  {
    var t := WithNewAuthor(s, name);
    forall i, j | 0 <= i < j < |t.authors|
      ensures t.authors[i].id != t.authors[j].id && t.authors[i].name != t.authors[j].name
    {
      if j == |s.authors| {
        assert t.authors[i] in s.authors;
      }
    }
  }

  lemma WithNewAuthorKeepsLinked(s: Snapshot, name: string)
    requires Valid(s) && Linked(s)
    ensures Linked(WithNewAuthor(s, name))
  {
    var t := WithNewAuthor(s, name);
    NoBookByFreshId(s);
    forall i | 0 <= i < |t.authors|
      ensures t.authors[i].books == Ids(BooksBy(t.books, t.authors[i].id))
    {
      if i < |s.authors| {
        assert t.authors[i] == s.authors[i];
      }
    }
  }

  /** No stored book refers to an id that has not been handed out yet. */
  lemma NoBookByFreshId(s: Snapshot)
    requires Valid(s)
    ensures BooksBy(s.books, s.nextId) == []
  {
    forall b | b in s.books
      ensures !Matches(BookQuery(Some(Some(s.nextId)), None), b)
    {
      var a :| a in s.authors && Some(a.id) == b.author;
    }
    SelectNoMatch(s.books, BookQuery(Some(Some(s.nextId)), None));
  }

  /** Storing a book under the next id that refers to a stored author keeps the store valid. */
  lemma WithBookKeepsValid(s: Snapshot, book: Book)
    requires Valid(s)
    requires book.id == s.nextId
    requires exists a :: a in s.authors && Some(a.id) == book.author
    ensures Valid(WithBook(s, book))
  {
    var t := WithBook(s, book);
    forall i, j | 0 <= i < j < |t.books|
      ensures t.books[i].id != t.books[j].id
    {
      if j == |s.books| {
        assert t.books[i] in s.books;
      }
    }
    forall a, id | a in t.authors && id in a.books
      ensures exists b :: b in t.books && b.id == id
    {
      var b :| b in s.books && b.id == id;
      assert b in t.books;
    }
  }

  /** The push changes only back-lists: ids and names are those of the author at the same place. */
  lemma PushBookKeepsKeys(authors: seq<Author>, authorId: Id, bookId: Id)
    requires AuthorIdsDistinct(authors) && AuthorNamesDistinct(authors)
    ensures AuthorIdsDistinct(PushBook(authors, authorId, bookId)) && AuthorNamesDistinct(PushBook(authors, authorId, bookId))
    ensures forall a :: a in PushBook(authors, authorId, bookId) ==>
      exists i :: 0 <= i < |authors| && a.id == authors[i].id && a.name == authors[i].name
    ensures forall a :: a in authors ==>
      exists a' :: a' in PushBook(authors, authorId, bookId) && a'.id == a.id
  {
    var r := PushBook(authors, authorId, bookId);
    forall a | a in authors
      ensures exists a' :: a' in r && a'.id == a.id
    {
      var i :| 0 <= i < |authors| && authors[i] == a;
      assert r[i] in r;
    }
  }

  /** Pushing the id of a stored book onto a back-list keeps the store valid. */
  lemma WithPushKeepsValid(s: Snapshot, authorId: Id, bookId: Id)
    requires Valid(s)
    requires exists b :: b in s.books && b.id == bookId
    ensures Valid(WithPush(s, authorId, bookId))
  {
    var t := WithPush(s, authorId, bookId);
    PushBookKeepsKeys(s.authors, authorId, bookId);
    forall a | a in t.authors
      ensures a.id < t.nextId
    {
      var i :| 0 <= i < |s.authors| && a.id == s.authors[i].id;
      assert s.authors[i] in s.authors;
    }
    forall b | b in t.books
      ensures exists a :: a in t.authors && Some(a.id) == b.author
    {
      var a :| a in s.authors && Some(a.id) == b.author;
    }
    forall a, id | a in t.authors && id in a.books
      ensures exists b :: b in t.books && b.id == id
    {
      PushBookBackLists(s.authors, authorId, bookId, a, id);
    }
  }

  /** An id on a back-list after the push was pushed, or was on a back-list before. */
  lemma PushBookBackLists(authors: seq<Author>, authorId: Id, bookId: Id, a: Author, id: Id)
    requires a in PushBook(authors, authorId, bookId) && id in a.books
    ensures id == bookId || exists a0 :: a0 in authors && id in a0.books
  {
    var r := PushBook(authors, authorId, bookId);
    var i :| 0 <= i < |r| && r[i] == a;
    assert authors[i] in authors;
  }

  lemma IdsSnoc(books: seq<Book>, b: Book)
    ensures Ids(books + [b]) == Ids(books) + [b.id]
  {
  }

  /** Storing a book and pushing its id onto its author's back-list keeps every back-list exact. */
  lemma WithBookAndPushKeepsLinked(s: Snapshot, book: Book)
    requires Linked(s)
    requires book.author.Some?
    ensures Linked(WithPush(WithBook(s, book), book.author.value, book.id))
  {
    var t := WithPush(WithBook(s, book), book.author.value, book.id);
    forall i | 0 <= i < |t.authors|
      ensures t.authors[i].books == Ids(BooksBy(t.books, t.authors[i].id))
    {
      var id := s.authors[i].id;
      SelectSnoc(s.books, book, BookQuery(Some(Some(id)), None));
      IdsSnoc(BooksBy(s.books, id), book);
    }
  }

  /** The author `addBook` attaches the book to is stored once the author step is done. */
  lemma ResolvedAuthorStored(s: Snapshot, name: string)
    ensures FindAuthorByName(s.authors, name).Some? ==> ResolvedAuthor(s, name) in s.authors
    ensures FindAuthorByName(s.authors, name).None? ==>
      ResolvedAuthor(s, name) == Author(s.nextId, name, None, []) && ResolvedAuthor(s, name) in WithNewAuthor(s, name).authors
  {
  }

  /** `addBook` keeps the store valid, whichever of its writes is rejected. */
  lemma AddBookKeepsValid(s: Snapshot, currentUser: Option<User>, args: BookArgs, rejects: Rejections)
    requires Valid(s)
    ensures Valid(AddBookStep(s, currentUser, args, rejects).state)
  {
    var existing := FindAuthorByName(s.authors, args.author);
    if currentUser.Some? && (existing.Some? || !rejects.authorSave) {
      var bookAuthor := ResolvedAuthor(s, args.author);
      var s1 := if existing.Some? then s else WithNewAuthor(s, args.author);
      if existing.None? {
        WithNewAuthorKeepsInvariants(s, args.author);
      }
      ResolvedAuthorStored(s, args.author);
      var book := Book(s1.nextId, args.title, args.published, args.genres, Some(bookAuthor.id));
      if !rejects.bookSave {
        WithBookKeepsValid(s1, book);
        assert book in WithBook(s1, book).books;
        WithPushKeepsValid(WithBook(s1, book), bookAuthor.id, book.id);
      }
    }
  }

  /** `addBook` keeps every back-list exact unless the push onto the back-list is rejected. */
  lemma AddBookKeepsLinked(s: Snapshot, currentUser: Option<User>, args: BookArgs, rejects: Rejections)
    requires Valid(s) && Linked(s)
    requires !rejects.backListPush
    ensures Linked(AddBookStep(s, currentUser, args, rejects).state)
  {
    var existing := FindAuthorByName(s.authors, args.author);
    if currentUser.Some? && (existing.Some? || !rejects.authorSave) {
      var bookAuthor := ResolvedAuthor(s, args.author);
      var s1 := if existing.Some? then s else WithNewAuthor(s, args.author);
      if existing.None? {
        WithNewAuthorKeepsInvariants(s, args.author);
      }
      var book := Book(s1.nextId, args.title, args.published, args.genres, Some(bookAuthor.id));
      if !rejects.bookSave {
        WithBookAndPushKeepsLinked(s1, book);
      }
    }
  }

  // ----- what addBook does -----

  /** Whether `addBook` stores a new author: the caller is signed in, nobody has the name,
      and the author save is accepted. */
  predicate CreatesAuthor(s: Snapshot, currentUser: Option<User>, args: BookArgs, rejects: Rejections) {
    currentUser.Some? && FindAuthorByName(s.authors, args.author).None? && !rejects.authorSave
  }

  /** `addBook` succeeds exactly when the caller is signed in and every write it makes is
      accepted; otherwise it throws an authentication error (no caller) or a user-input
      error carrying its arguments. The event log only grows: AUTHOR_ADDED with the new,
      birth-year-less, empty-back-list author exactly when one is stored, then BOOK_ADDED
      with the book, last, exactly when the book save and the back-list push both succeeded. */
  lemma AddBookPublishes(s: Snapshot, currentUser: Option<User>, args: BookArgs, rejects: Rejections)
    ensures var r := AddBookStep(s, currentUser, args, rejects);
      r.result.Ok? <==>
        && currentUser.Some?
        && (FindAuthorByName(s.authors, args.author).Some? || !rejects.authorSave)
        && !rejects.bookSave && !rejects.backListPush
    ensures var r := AddBookStep(s, currentUser, args, rejects);
      r.result.Err? ==> r.result.error == if currentUser.None? then NotAuthenticated else InvalidBookArgs(args)
    ensures var r := AddBookStep(s, currentUser, args, rejects);
      r.state.events ==
        s.events
        + (if CreatesAuthor(s, currentUser, args, rejects) then [AuthorAdded(Author(s.nextId, args.author, None, []))] else [])
        + (if r.result.Ok? then [BookAdded(r.result.value)] else [])
  {
    var r := AddBookStep(s, currentUser, args, rejects);
    if currentUser.Some? && (FindAuthorByName(s.authors, args.author).Some? || !rejects.authorSave) {
      ResolvedAuthorStored(s, args.author);
    }
  }

  /** Find-or-create: an author who already has the name is reused and no author is added;
      otherwise, once the author save is accepted, exactly one author is appended, under a
      fresh id, with that name, no birth year, and a back-list holding at most the new book. */
  lemma AddBookFindOrCreate(s: Snapshot, currentUser: Option<User>, args: BookArgs, rejects: Rejections)
    requires Valid(s)
    requires currentUser.Some?
    ensures var r := AddBookStep(s, currentUser, args, rejects);
      FindAuthorByName(s.authors, args.author).Some? ==> AuthorCount(r.state.authors) == AuthorCount(s.authors)
    ensures var r := AddBookStep(s, currentUser, args, rejects);
      CreatesAuthor(s, currentUser, args, rejects) ==>
        && AuthorCount(r.state.authors) == AuthorCount(s.authors) + 1
        && (forall a :: a in s.authors ==> a.id != r.state.authors[|s.authors|].id)
        && r.state.authors[|s.authors|].name == args.author
        && r.state.authors[|s.authors|].born.None?
        && r.state.authors[|s.authors|].books == (if r.result.Ok? then [r.result.value.id] else [])
    ensures var r := AddBookStep(s, currentUser, args, rejects);
      FindAuthorByName(s.authors, args.author).None? && rejects.authorSave ==>
        r.state.authors == s.authors && r.state.books == s.books && r.state.events == s.events
    ensures var r := AddBookStep(s, currentUser, args, rejects);
      FindAuthorByName(s.authors, args.author).Some? || !rejects.authorSave ==>
        FindAuthorByName(r.state.authors, args.author).Some?
  {
    var r := AddBookStep(s, currentUser, args, rejects);
    var existing := FindAuthorByName(s.authors, args.author);
    if existing.Some? || !rejects.authorSave {
      var bookAuthor := ResolvedAuthor(s, args.author);
      var s1 := if existing.Some? then s else WithNewAuthor(s, args.author);
      ResolvedAuthorStored(s, args.author);
      var book := Book(s1.nextId, args.title, args.published, args.genres, Some(bookAuthor.id));
      var k :| 0 <= k < |s1.authors| && s1.authors[k] == bookAuthor;
      assert |r.state.authors| == |s1.authors|;
      assert r.state.authors[k].name == args.author;
      if existing.None? {
        assert k == |s.authors|;
      }
    }
  }

  /** A successful `addBook` stores one new book, under a fresh id, with the given title,
      year and genres, leaves the users as they were, and its last event is BOOK_ADDED
      with the book. */
  lemma AddBookSucceeds(s: Snapshot, currentUser: Option<User>, args: BookArgs, rejects: Rejections)
    requires Valid(s)
    requires AddBookStep(s, currentUser, args, rejects).result.Ok?
    ensures var r := AddBookStep(s, currentUser, args, rejects); var book := r.result.value;
      && r.state.books == s.books + [book]
      && book.title == args.title && book.published == args.published && book.genres == args.genres
      && (forall b :: b in s.books ==> b.id != book.id)
      && |r.state.events| > 0 && r.state.events[|r.state.events| - 1] == BookAdded(book)
      && r.state.users == s.users
  {
  }

  /** A successful `addBook` refers the book to the author who has the given name and
      appends the book's id to the end of that author's back-list (empty before, when the
      author was just created); every author with another name is left as it was. */
  lemma AddBookAppendsToBackList(s: Snapshot, currentUser: Option<User>, args: BookArgs, rejects: Rejections)
    requires Valid(s)
    requires AddBookStep(s, currentUser, args, rejects).result.Ok?
    ensures var r := AddBookStep(s, currentUser, args, rejects); var book := r.result.value;
      && (exists i :: 0 <= i < |r.state.authors| && r.state.authors[i].name == args.author
                     && book.author == Some(r.state.authors[i].id)
                     && r.state.authors[i].books == (if i < |s.authors| then s.authors[i].books else []) + [book.id])
      && (forall j :: 0 <= j < |s.authors| && s.authors[j].name != args.author ==> r.state.authors[j] == s.authors[j])
  {
    var r := AddBookStep(s, currentUser, args, rejects);
    var existing := FindAuthorByName(s.authors, args.author);
    var bookAuthor := ResolvedAuthor(s, args.author);
    var s1 := if existing.Some? then s else WithNewAuthor(s, args.author);
    ResolvedAuthorStored(s, args.author);
    if existing.None? {
      WithNewAuthorKeepsKeys(s, args.author);
    }
    assert AuthorIdsDistinct(s1.authors);
    var book := r.result.value;
    var k :| 0 <= k < |s1.authors| && s1.authors[k] == bookAuthor;
    if existing.None? {
      assert k == |s.authors|;
    }
    assert r.state.authors == PushBook(s1.authors, bookAuthor.id, book.id);
    PushBookOthers(s1.authors, k, book.id);
    assert bookAuthor.books == if k < |s.authors| then s.authors[k].books else [];
    assert r.state.authors[k].name == args.author && book.author == Some(r.state.authors[k].id);
    assert r.state.authors[k].books == (if k < |s.authors| then s.authors[k].books else []) + [book.id];
    forall j | 0 <= j < |s.authors| && s.authors[j].name != args.author
      ensures r.state.authors[j] == s.authors[j]
    {
      assert s1.authors[j] == s.authors[j];
      assert j != k;
    }
  }

  /** The push reaches the one author with the target id and no other. */
  lemma PushBookOthers(authors: seq<Author>, k: nat, bookId: Id)
    requires AuthorIdsDistinct(authors) && k < |authors|
    ensures PushBook(authors, authors[k].id, bookId)[k] == authors[k].(books := authors[k].books + [bookId])
    ensures forall j :: 0 <= j < |authors| && j != k ==> PushBook(authors, authors[k].id, bookId)[j] == authors[j]
  {
    var r := PushBook(authors, authors[k].id, bookId);
    forall j | 0 <= j < |authors| && j != k
      ensures r[j] == authors[j]
    {
      if j < k {
        assert authors[j].id != authors[k].id;
      } else {
        assert authors[k].id != authors[j].id;
      }
    }
  }

  /** When the back-list push is rejected after the book was saved, the book stays stored
      but no back-list names it: the store is left with an orphan, and BOOK_ADDED is not
      published. */
  lemma AddBookPushRejectedLeavesOrphan(s: Snapshot, currentUser: Option<User>, args: BookArgs, rejects: Rejections)
    requires Valid(s)
    requires currentUser.Some?
    requires FindAuthorByName(s.authors, args.author).Some? || !rejects.authorSave
    requires !rejects.bookSave && rejects.backListPush
    ensures var r := AddBookStep(s, currentUser, args, rejects);
      && r.result == Err(InvalidBookArgs(args))
      && |r.state.books| == |s.books| + 1
      && r.state.books[..|s.books|] == s.books
      && (forall a :: a in r.state.authors ==> r.state.books[|s.books|].id !in a.books)
      && !Linked(r.state)
      && r.state.events == s.events + (if CreatesAuthor(s, currentUser, args, rejects) then [AuthorAdded(Author(s.nextId, args.author, None, []))] else [])
  {
    var r := AddBookStep(s, currentUser, args, rejects);
    var existing := FindAuthorByName(s.authors, args.author);
    var bookAuthor := ResolvedAuthor(s, args.author);
    var s1 := if existing.Some? then s else WithNewAuthor(s, args.author);
    ResolvedAuthorStored(s, args.author);
    if existing.None? {
      WithNewAuthorKeepsInvariants(s, args.author);
    }
    var book := r.state.books[|s.books|];
    assert r.state == WithBook(s1, book);
    BackListIdsHandedOut(s1);
    assert r.state.authors == s1.authors;
    var k :| 0 <= k < |s1.authors| && s1.authors[k] == bookAuthor;
    assert book in r.state.books && book.author == Some(r.state.authors[k].id);
    OrphanBreaksLinked(r.state, k, book);
  }

  /** A stored book missing from its author's back-list makes the back-lists inexact. */
  lemma OrphanBreaksLinked(t: Snapshot, k: nat, book: Book)
    requires k < |t.authors|
    requires book in t.books && book.author == Some(t.authors[k].id)
    requires book.id !in t.authors[k].books
    ensures !Linked(t)
  {
    var selected := BooksBy(t.books, t.authors[k].id);
    assert book in selected;
    var j :| 0 <= j < |selected| && selected[j] == book;
    assert Ids(selected)[j] == book.id;
  }

  /** Every back-list entry is an id already handed out. */
  lemma BackListIdsHandedOut(s: Snapshot)
    requires Valid(s)
    ensures forall a, id :: a in s.authors && id in a.books ==> id < s.nextId
  {
    forall a, id | a in s.authors && id in a.books
      ensures id < s.nextId
    {
      var b :| b in s.books && b.id == id;
    }
  }

  /** Two sequential `addBook` calls for the same new author name create that author once. */
  lemma SequentialAddBooksCreateOneAuthor(s: Snapshot, user1: Option<User>, args1: BookArgs, rejects1: Rejections,
                                          user2: Option<User>, args2: BookArgs, rejects2: Rejections)
    requires Valid(s)
    requires user1.Some? && user2.Some? && args1.author == args2.author
    requires FindAuthorByName(s.authors, args1.author).None? && !rejects1.authorSave
    ensures var s1 := AddBookStep(s, user1, args1, rejects1).state;
            var s2 := AddBookStep(s1, user2, args2, rejects2).state;
      && AuthorCount(s2.authors) == AuthorCount(s.authors) + 1
      && (forall i, j ::
            (0 <= i < |s2.authors| && 0 <= j < |s2.authors| &&
             s2.authors[i].name == args1.author && s2.authors[j].name == args1.author) ==> i == j)
      && !CreatesAuthor(s1, user2, args2, rejects2)
  {
    AddBookFindOrCreate(s, user1, args1, rejects1);
    AddBookKeepsValid(s, user1, args1, rejects1);
    var s1 := AddBookStep(s, user1, args1, rejects1).state;
    AddBookFindOrCreate(s1, user2, args2, rejects2);
    AddBookKeepsValid(s1, user2, args2, rejects2);
  }

  /** A request whose context gives no current user (no header, or not a bearer header)
      cannot add a book or edit an author: both throw the authentication error and leave
      the store and the event log exactly as they were. */
  lemma AnonymousMutationsChangeNothing(s: Snapshot, auth: Option<string>, verify: string -> Option<Claims>,
                                        args: BookArgs, rejects: Rejections, name: string, setBornTo: Option<int>)
    requires !IsBearer(auth)
    ensures ResolveContext(auth, verify, s.users) == Ok(None)
    ensures AddBookStep(s, ResolveContext(auth, verify, s.users).value, args, rejects) == Step(s, Err(NotAuthenticated))
    ensures EditAuthorStep(s, ResolveContext(auth, verify, s.users).value, name, setBornTo) == Step(s, Err(NotAuthenticated))
  {
  }

  // ----- editAuthor and createUser -----

  /** `editAuthor` by a signed-in caller throws when nobody has the name and then changes
      nothing; otherwise it sets the named author's birth year to exactly `setBornTo`
      (clearing it when `setBornTo` is absent) and changes no other author, no other field
      and nothing else in the store. */
  lemma EditAuthorSetsBorn(s: Snapshot, currentUser: Option<User>, name: string, setBornTo: Option<int>)
    requires Valid(s)
    requires currentUser.Some?
    ensures var r := EditAuthorStep(s, currentUser, name, setBornTo);
      && (r.result.Err? <==> forall a :: a in s.authors ==> a.name != name)
      && (r.result.Err? ==> r.result.error == AuthorNotFound && r.state == s)
      && (r.result.Ok? ==> r.result.value.name == name && r.result.value.born == setBornTo && r.result.value in r.state.authors)
      && |r.state.authors| == |s.authors|
      && (forall i :: 0 <= i < |s.authors| ==>
            r.state.authors[i] == if s.authors[i].name == name then s.authors[i].(born := setBornTo) else s.authors[i])
      && r.state.books == s.books && r.state.users == s.users && r.state.events == s.events && r.state.nextId == s.nextId
  {
    var r := EditAuthorStep(s, currentUser, name, setBornTo);
    var found := AuthorIndexByName(s.authors, name);
    if found.None? {
      assert forall a :: a in s.authors ==> a.name != name;
    } else {
      var k := found.value;
      assert s.authors[k] in s.authors;
      forall i | 0 <= i < |s.authors|
        ensures r.state.authors[i] == if s.authors[i].name == name then s.authors[i].(born := setBornTo) else s.authors[i]
      {
        if i != k {
          assert s.authors[i].name != s.authors[k].name;
        }
      }
    }
  }

  /** `editAuthor` keeps the store valid and every back-list exact. */
  lemma EditAuthorKeepsInvariants(s: Snapshot, currentUser: Option<User>, name: string, setBornTo: Option<int>)
    requires Valid(s)
    ensures Valid(EditAuthorStep(s, currentUser, name, setBornTo).state)
    ensures Linked(s) ==> Linked(EditAuthorStep(s, currentUser, name, setBornTo).state)
  {
    var r := EditAuthorStep(s, currentUser, name, setBornTo);
    var found := AuthorIndexByName(s.authors, name);
    if currentUser.Some? && found.Some? {
      var k := found.value;
      var t := r.state;
      forall a | a in t.authors
        ensures a.id < t.nextId && forall id :: id in a.books ==> exists b :: b in t.books && b.id == id
      {
        var i :| 0 <= i < |t.authors| && t.authors[i] == a;
        assert s.authors[i] in s.authors;
      }
      forall b | b in t.books
        ensures exists a :: a in t.authors && Some(a.id) == b.author
      {
        var a :| a in s.authors && Some(a.id) == b.author;
        var i :| 0 <= i < |s.authors| && s.authors[i] == a;
        assert t.authors[i] in t.authors;
      }
    }
  }

  /** `createUser` keeps the store valid and every back-list exact. */
  lemma CreateUserKeepsInvariants(s: Snapshot, username: string, favoriteGenre: string, rejected: bool)
    requires Valid(s)
    ensures Valid(CreateUserStep(s, username, favoriteGenre, rejected).state)
    ensures Linked(s) ==> Linked(CreateUserStep(s, username, favoriteGenre, rejected).state)
  {
    var r := CreateUserStep(s, username, favoriteGenre, rejected);
    if !rejected {
      var t := r.state;
      forall i, j | 0 <= i < j < |t.users|
        ensures t.users[i].id != t.users[j].id
      {
        if j == |s.users| {
          assert t.users[i] in s.users;
        }
      }
    }
  }

  /** Once `createUser` succeeds, that user can log in with the shared password, and with
      no other. */
  lemma CreateUserThenLogin(s: Snapshot, username: string, favoriteGenre: string, rejected: bool,
                            sign: Claims -> string, password: string)
    ensures var r := CreateUserStep(s, username, favoriteGenre, rejected);
      r.result.Ok? ==>
        && Login(r.state.users, username, SharedPassword, sign).Ok?
        && (password != SharedPassword ==> Login(r.state.users, username, password, sign) == Err(IncorrectCredentials))
        && ((forall u :: u in s.users ==> u.username != username) ==>
              Login(r.state.users, username, SharedPassword, sign) == Ok(Token(sign(Claims(username, r.result.value.id)))))
  {
    var r := CreateUserStep(s, username, favoriteGenre, rejected);
    if !rejected {
      assert r.result.value in r.state.users;
    }
  }

  // ----- reads against the invariants -----

  /** Every stored book is on the back-list of the author it refers to. */
  lemma EveryBookOnItsAuthorsBackList(s: Snapshot)
    requires Valid(s) && Linked(s)
    ensures forall b :: b in s.books ==> exists a :: a in s.authors && Some(a.id) == b.author && b.id in a.books
  {
    forall b | b in s.books
      ensures exists a :: a in s.authors && Some(a.id) == b.author && b.id in a.books
    {
      var a :| a in s.authors && Some(a.id) == b.author;
      var k :| 0 <= k < |s.authors| && s.authors[k] == a;
      var selected := BooksBy(s.books, a.id);
      assert b in selected;
      var j :| 0 <= j < |selected| && selected[j] == b;
      assert Ids(selected)[j] == b.id;
    }
  }

  /** An author's `bookCount` equals the length of its back-list, and equals the number of
      books `allBooks(author: name)` returns for its name. */
  lemma BookCountMatchesAllBooks(s: Snapshot, i: nat)
    requires Valid(s) && Linked(s)
    requires i < |s.authors| && s.authors[i].name != ""
    ensures AuthorBookCount(AllAuthors(s.authors, s.books)[i]) == |s.authors[i].books|
    ensures |AllBooks(s.authors, s.books, Some(s.authors[i].name), None)| == |s.authors[i].books|
  {
    var a := s.authors[i];
    assert a in s.authors;
    BookCountIsBackListLength(s.authors, s.books, i);
    AuthorIdOfStored(s, i);
    var selected := SelectBooks(s.authors, s.books, Some(a.name), None);
    assert selected == BooksBy(s.books, a.id);
    assert a.books == Ids(selected);
  }

  /** `getAuthorId` on a stored author's name returns that author's id. */
  lemma AuthorIdOfStored(s: Snapshot, i: nat)
    requires AuthorNamesDistinct(s.authors)
    requires i < |s.authors|
    ensures GetAuthorId(s.authors, s.authors[i].name) == Some(s.authors[i].id)
  {
    var a := s.authors[i];
    assert a in s.authors;
    var found := FindAuthorByName(s.authors, a.name);
    var j :| 0 <= j < |s.authors| && s.authors[j] == found.value;
    assert s.authors[j].name == s.authors[i].name;
  }

  /** The `bookCount` of each author in `views`, summed. */
  function SumBookCounts(views: seq<AuthorView>): nat {
    if views == [] then 0 else AuthorBookCount(views[0]) + SumBookCounts(views[1..])
  }

  /** The number of books referring to each author, summed over the authors. */
  function CountByAuthors(authors: seq<Author>, books: seq<Book>): nat {
    if authors == [] then 0 else |BooksBy(books, authors[0].id)| + CountByAuthors(authors[1..], books)
  }

  /** The number of authors a book refers to. */
  function Hits(authors: seq<Author>, b: Book): nat {
    if authors == [] then 0 else (if Some(authors[0].id) == b.author then 1 else 0) + Hits(authors[1..], b)
  }

  lemma {:induction false} CountByAuthorsSnoc(authors: seq<Author>, books: seq<Book>, b: Book)
    ensures CountByAuthors(authors, books + [b]) == CountByAuthors(authors, books) + Hits(authors, b)
  {
    if authors != [] {
      CountByAuthorsSnoc(authors[1..], books, b);
      SelectSnoc(books, b, BookQuery(Some(Some(authors[0].id)), None));
    }
  }

  lemma {:induction false} HitsOfStoredAuthor(authors: seq<Author>, b: Book)
    requires AuthorIdsDistinct(authors)
    requires exists a :: a in authors && Some(a.id) == b.author
    ensures Hits(authors, b) == 1
  {
    if Some(authors[0].id) == b.author {
      HitsNone(authors[1..], b);
    } else {
      var a :| a in authors && Some(a.id) == b.author;
      assert a in authors[1..];
      HitsOfStoredAuthor(authors[1..], b);
    }
  }

  lemma {:induction false} HitsNone(authors: seq<Author>, b: Book)
    requires authors == [] || forall a :: a in authors ==> Some(a.id) != b.author
    ensures Hits(authors, b) == 0
  {
    if authors != [] {
      HitsNone(authors[1..], b);
    }
  }

  lemma {:induction false} CountByAuthorsIsBookCount(authors: seq<Author>, books: seq<Book>)
    requires AuthorIdsDistinct(authors)
    requires forall b :: b in books ==> exists a :: a in authors && Some(a.id) == b.author
    ensures CountByAuthors(authors, books) == |books|
    decreases |books|
  {
    if books == [] {
      CountByAuthorsEmpty(authors);
    } else {
      var init, last := books[..|books| - 1], books[|books| - 1];
      assert books == init + [last];
      assert forall b :: b in init ==> b in books;
      CountByAuthorsIsBookCount(authors, init);
      CountByAuthorsSnoc(authors, init, last);
      HitsOfStoredAuthor(authors, last);
    }
  }

  lemma {:induction false} CountByAuthorsEmpty(authors: seq<Author>)
    ensures CountByAuthors(authors, []) == 0
  {
    if authors != [] {
      CountByAuthorsEmpty(authors[1..]);
    }
  }

  lemma {:induction false} SumOfViews(authors: seq<Author>, books: seq<Book>)
    requires forall i :: 0 <= i < |authors| ==> |Populate(books, authors[i].books)| == |BooksBy(books, authors[i].id)|
    ensures SumBookCounts(AllAuthors(authors, books)) == CountByAuthors(authors, books)
  {
    if authors != [] {
      assert AllAuthors(authors, books)[1..] == AllAuthors(authors[1..], books);
      SumOfViews(authors[1..], books);
    }
  }

  /** `bookCount` of the whole collection equals the sum of the authors' `bookCount`s:
      back-lists count every book once. */
  lemma TotalBookCount(s: Snapshot)
    requires Valid(s) && Linked(s)
    ensures BookCount(s.books) == SumBookCounts(AllAuthors(s.authors, s.books))
  {
    forall i | 0 <= i < |s.authors|
      ensures |Populate(s.books, s.authors[i].books)| == |BooksBy(s.books, s.authors[i].id)|
    {
      assert s.authors[i] in s.authors;
      PopulateResolved(s.books, s.authors[i].books);
    }
    SumOfViews(s.authors, s.books);
    CountByAuthorsIsBookCount(s.authors, s.books);
  }
}
