/** The store as the resolvers use it: a mutable collection of documents that `addBook`,
    `editAuthor` and `createUser` update one write at a time. Each method is proved to
    leave the store exactly where the matching step function of `Mutations` says, so the
    invariants and lemmas proved there carry over to it. */
module Store {
  import opened Wrappers
  import opened Records
  import opened Queries
  import Mutations

  /** `Author.findById(id)` on a stored author's id returns that author. */
  lemma AuthorByIdOfStored(authors: seq<Author>, a: Author)
    requires AuthorIdsDistinct(authors)
    requires a in authors
    ensures AuthorById(authors, Some(a.id)) == Some(a)
  {
    var found := AuthorById(authors, Some(a.id));
    assert found.Some?;
    var i :| 0 <= i < |authors| && authors[i] == a;
    var j :| 0 <= j < |authors| && authors[j] == found.value;
    assert authors[j].id == authors[i].id;
  }

  class Library {
    var authors: seq<Author>
    var books: seq<Book>
    var users: seq<User>
    var events: seq<Event>
    var nextId: Id

    /** The collections and the publication log as one value. */
    function State(): Mutations.Snapshot
      reads this
    {
      Mutations.Snapshot(authors, books, users, events, nextId)
    }

    ghost predicate Valid()
      reads this
    {
      Mutations.Valid(State())
    }

    ghost predicate Linked()
      reads this
    {
      Mutations.Linked(State())
    }

    /** An empty database. */
    constructor ()
      ensures State() == Mutations.Snapshot([], [], [], [], 0)
      ensures Valid() && Linked()
    {
      authors, books, users, events, nextId := [], [], [], [], 0;
    }

    /** `new Model(...)`: the document takes the next ObjectId. */
    method NewId() returns (id: Id)
      modifies this
      ensures id == old(nextId)
      ensures State() == Mutations.Allocated(old(State()))
    {
      id := nextId;
      nextId := nextId + 1;
    }

    /** `author.save()` of a new author. */
    method InsertAuthor(author: Author)
      modifies this
      ensures State() == old(State()).(authors := old(authors) + [author])
    {
      authors := authors + [author];
    }

    /** `book.save()`. */
    method InsertBook(book: Book)
      modifies this
      ensures State() == old(State()).(books := old(books) + [book])
    {
      books := books + [book];
    }

    /** `author.updateOne({ $push: { books: book } })`. */
    method PushOntoBackList(authorId: Id, bookId: Id)
      modifies this
      ensures State() == Mutations.WithPush(old(State()), authorId, bookId)
    {
      authors := Mutations.PushBook(authors, authorId, bookId);
    }

    /** `pubSub.publish(...)`. */
    method Publish(e: Event)
      modifies this
      ensures State() == Mutations.Published(old(State()), e)
    {
      events := events + [e];
    }

    /** The find-or-create step of `addBook`: the stored author with the name, or a new
        author saved and published; a rejected save throws after the id was taken. */
    method FindOrCreateAuthor(args: BookArgs, rejectSave: bool) returns (r: Result<Author, Error>)
      requires AuthorIdsDistinct(authors)
      modifies this
      ensures var s := old(State()); var existing := FindAuthorByName(s.authors, args.author);
        if existing.None? && rejectSave then
          r == Err(InvalidBookArgs(args)) && State() == Mutations.Allocated(s)
        else
          r == Ok(Mutations.ResolvedAuthor(s, args.author))
          && State() == if existing.Some? then s else Mutations.WithNewAuthor(s, args.author)
    {
      var authorId: Option<Id> := None;
      var existingAuthor := FindAuthorByName(authors, args.author);
      if existingAuthor.Some? {
        authorId := Some(existingAuthor.value.id);
      }
      if authorId.None? {
        var id := NewId();
        var bookAuthor := Author(id, args.author, None, []);
        if rejectSave {
          return Err(InvalidBookArgs(args));
        }
        InsertAuthor(bookAuthor);
        Publish(AuthorAdded(bookAuthor));
        return Ok(bookAuthor);
      } else {
        AuthorByIdOfStored(authors, existingAuthor.value);
        return Ok(AuthorById(authors, authorId).value);
      }
    }

    /** `Mutation.addBook`. */
    method AddBook(currentUser: Option<User>, args: BookArgs, rejects: Mutations.Rejections) returns (r: Result<Book, Error>)
      requires Valid()
      modifies this
      ensures Mutations.Step(State(), r) == Mutations.AddBookStep(old(State()), currentUser, args, rejects)
      ensures Valid()
      ensures old(Linked()) && !rejects.backListPush ==> Linked()
    {
      ghost var s := State();
      Mutations.AddBookKeepsValid(s, currentUser, args, rejects);
      if Mutations.Linked(s) && !rejects.backListPush {
        Mutations.AddBookKeepsLinked(s, currentUser, args, rejects);
      }
      assert AuthorIdsDistinct(authors);

      if currentUser.None? {
        return Err(NotAuthenticated);
      }

      var found := FindOrCreateAuthor(args, rejects.authorSave);
      if found.Err? {
        return Err(found.error);
      }
      var bookAuthor := found.value;
      ghost var s1 := State();

      var bookId := NewId();
      var book := Book(bookId, args.title, args.published, args.genres, Some(bookAuthor.id));
      if rejects.bookSave {
        return Err(InvalidBookArgs(args));
      }
      InsertBook(book);
      assert State() == Mutations.WithBook(s1, book);
      if rejects.backListPush {
        return Err(InvalidBookArgs(args));
      }
      PushOntoBackList(bookAuthor.id, book.id);
      Publish(BookAdded(book));
      return Ok(book);
    }

    /** `Mutation.editAuthor`. */
    method EditAuthor(currentUser: Option<User>, name: string, setBornTo: Option<int>) returns (r: Result<Author, Error>)
      requires Valid()
      modifies this
      ensures Mutations.Step(State(), r) == Mutations.EditAuthorStep(old(State()), currentUser, name, setBornTo)
      ensures Valid()
      ensures old(Linked()) ==> Linked()
    {
      Mutations.EditAuthorKeepsInvariants(State(), currentUser, name, setBornTo);
      if currentUser.None? {
        return Err(NotAuthenticated);
      }
      var found := AuthorIndexByName(authors, name);
      if found.None? {
        return Err(AuthorNotFound);
      }
      var author := authors[found.value].(born := setBornTo);
      authors := authors[found.value := author];
      return Ok(author);
    }

    /** `Mutation.createUser`. */
    method CreateUser(username: string, favoriteGenre: string, rejected: bool) returns (r: Result<User, Error>)
      requires Valid()
      modifies this
      ensures Mutations.Step(State(), r) == Mutations.CreateUserStep(old(State()), username, favoriteGenre, rejected)
      ensures Valid()
      ensures old(Linked()) ==> Linked()
    {
      Mutations.CreateUserKeepsInvariants(State(), username, favoriteGenre, rejected);
      var user := User(nextId, username, favoriteGenre);
      nextId := nextId + 1;
      if rejected {
        return Err(InvalidUserArgs(username, favoriteGenre));
      }
      users := users + [user];
      return Ok(user);
    }
  }
}
