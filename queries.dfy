/** The read side of the resolvers: author lookup, the four `allBooks` filter cases,
    the author details attached to each book, `allAuthors` with its populated back-lists,
    and the counts. The document store is the two sequences `authors` and `books`, in
    their natural (insertion) order. */
module Queries {
  import opened Wrappers
  import opened Seqs
  import opened Records

  /** `Author.findOne({ name })`: the index of the first author with that name. */
  function AuthorIndexByName(authors: seq<Author>, name: string): (r: Option<nat>)
    ensures r.Some? ==> r.value < |authors| && authors[r.value].name == name
    ensures r.Some? ==> forall j :: 0 <= j < r.value ==> authors[j].name != name
    ensures r.None? ==> forall j :: 0 <= j < |authors| ==> authors[j].name != name
  {
    IndexWhere(authors, (a: Author) => a.name == name)
  }

  /** `Author.findOne({ name })` as a document, or null. */
  function FindAuthorByName(authors: seq<Author>, name: string): (r: Option<Author>)
    ensures r.Some? ==> r.value in authors && r.value.name == name
    ensures r.None? <==> forall a :: a in authors ==> a.name != name
  {
    match AuthorIndexByName(authors, name)
    case None => None
    case Some(i) => Some(authors[i])
  }

  /** `getAuthorId(name)`: the id of the author with that name, or null. */
  function GetAuthorId(authors: seq<Author>, name: string): (r: Option<Id>)
    ensures r.None? <==> forall a :: a in authors ==> a.name != name
    ensures r.Some? ==> exists a :: a in authors && a.name == name && a.id == r.value
  {
    match FindAuthorByName(authors, name)
    case None => None
    case Some(a) => Some(a.id)
  }

  /** `Author.findById(id)`: a null id finds nothing. */
  function AuthorById(authors: seq<Author>, id: Option<Id>): (r: Option<Author>)
    ensures r.Some? ==> r.value in authors && Some(r.value.id) == id
    ensures r.None? <==> forall a :: a in authors ==> Some(a.id) != id
  {
    if id.None? then None
    else match IndexWhere(authors, (a: Author) => a.id == id.value)
      case None => None
      case Some(i) => Some(authors[i])
  }

  /** `Book.findById(id)`. */
  function BookById(books: seq<Book>, id: Id): (r: Option<Book>)
    ensures r.Some? ==> r.value in books && r.value.id == id
    ensures r.None? <==> forall b :: b in books ==> b.id != id
  {
    match IndexWhere(books, (b: Book) => b.id == id)
    case None => None
    case Some(i) => Some(books[i])
  }

  /** The filter document given to `Book.find`: an optional `author: { $in: [authorId] }`
      (where `authorId` itself may be null) and an optional `genres: { $in: genre }`. */
  datatype BookQuery = BookQuery(author: Option<Option<Id>>, genre: Option<string>)

  /** A book matches when its author reference equals the wanted one (null matches null)
      and its genres contain the wanted genre. */
  predicate Matches(q: BookQuery, b: Book) {
    && (q.author.Some? ==> b.author == q.author.value)
    && (q.genre.Some? ==> q.genre.value in b.genres)
  }

  /** `Book.find(q)`: the matching books, in store order. */
  function Select(books: seq<Book>, q: BookQuery): (r: seq<Book>)
    ensures |r| <= |books|
    ensures forall b :: b in r <==> b in books && Matches(q, b)
    decreases |books|
  {
    if books == [] then []
    else
      var init, last := books[..|books| - 1], books[|books| - 1];
      assert books == init + [last];
      Select(init, q) + (if Matches(q, last) then [last] else [])
  }

  lemma SelectSnoc(books: seq<Book>, b: Book, q: BookQuery)
    ensures Select(books + [b], q) == Select(books, q) + (if Matches(q, b) then [b] else [])
  {
    assert (books + [b])[..|books|] == books;
  }

  /** With no filter, `Book.find({})` returns the whole collection in order. */
  lemma {:induction false} SelectUnfiltered(books: seq<Book>)
    ensures Select(books, BookQuery(None, None)) == books
    decreases |books|
  {
    if books != [] {
      var init, last := books[..|books| - 1], books[|books| - 1];
      SelectUnfiltered(init);
      assert Matches(BookQuery(None, None), last);
      assert Select(books, BookQuery(None, None)) == init + [last];
      assert init + [last] == books;
    }
  }

  /** Filtering by author and genre at once is filtering the author's books by genre. */
  lemma {:induction false} SelectBoth(books: seq<Book>, authorId: Option<Id>, genre: string)
    ensures Select(books, BookQuery(Some(authorId), Some(genre)))
         == Select(Select(books, BookQuery(Some(authorId), None)), BookQuery(None, Some(genre)))
    decreases |books|
  {
    if books != [] {
      var init, last := books[..|books| - 1], books[|books| - 1];
      var both, byAuthor, byGenre := BookQuery(Some(authorId), Some(genre)), BookQuery(Some(authorId), None), BookQuery(None, Some(genre));
      SelectBoth(init, authorId, genre);
      var mine := Select(init, byAuthor);
      assert Select(books, both) == Select(init, both) + (if Matches(both, last) then [last] else []);
      assert Select(books, byAuthor) == mine + (if Matches(byAuthor, last) then [last] else []);
      if Matches(byAuthor, last) {
        SelectSnoc(mine, last, byGenre);
      } else {
        assert Select(books, byAuthor) == mine;
      }
    }
  }

  /** When no book matches, the selection is empty. */
  lemma {:induction false} SelectNoMatch(books: seq<Book>, q: BookQuery)
    requires forall b :: b in books ==> !Matches(q, b)
    ensures Select(books, q) == []
    decreases |books|
  {
    if books != [] {
      var init := books[..|books| - 1];
      assert forall b :: b in init ==> b in books;
      SelectNoMatch(init, q);
      assert books[|books| - 1] in books;
    }
  }

  /** A resolver argument counts only when it is truthy: null, undefined and "" do not. */
  predicate IsGiven(arg: Option<string>) {
    arg.Some? && arg.value != ""
  }

  /** The book selection of `allBooks(author, genre)`, by its four cases. */
  function SelectBooks(authors: seq<Author>, books: seq<Book>, author: Option<string>, genre: Option<string>): (r: seq<Book>)
    ensures !IsGiven(author) && !IsGiven(genre) ==> r == books
    ensures !IsGiven(author) && IsGiven(genre) ==>
      forall b :: b in r <==> b in books && genre.value in b.genres
    ensures IsGiven(author) && !IsGiven(genre) ==>
      forall b :: b in r <==> b in books && b.author == GetAuthorId(authors, author.value)
    ensures IsGiven(author) && IsGiven(genre) ==>
      forall b :: b in r <==> b in books && b.author == GetAuthorId(authors, author.value) && genre.value in b.genres
  {
    if !IsGiven(author) && !IsGiven(genre) then
      SelectUnfiltered(books);
      Select(books, BookQuery(None, None))
    else if !IsGiven(author) && IsGiven(genre) then
      Select(books, BookQuery(None, Some(genre.value)))
    else if IsGiven(author) && !IsGiven(genre) then
      var authorId := GetAuthorId(authors, author.value);
      Select(books, BookQuery(Some(authorId), None))
    else
      var authorId := GetAuthorId(authors, author.value);
      Select(books, BookQuery(Some(authorId), Some(genre.value)))
  }

  /** With both filters, the result is the genre filter applied to the author-only result,
      so as sets it is the intersection of the two single-filter results. */
  lemma AllBooksBothFilters(authors: seq<Author>, books: seq<Book>, author: string, genre: string)
    requires author != "" && genre != ""
    ensures SelectBooks(authors, books, Some(author), Some(genre))
         == Select(SelectBooks(authors, books, Some(author), None), BookQuery(None, Some(genre)))
    ensures forall b :: b in SelectBooks(authors, books, Some(author), Some(genre)) <==>
      b in SelectBooks(authors, books, Some(author), None) && b in SelectBooks(authors, books, None, Some(genre))
  {
    SelectBoth(books, GetAuthorId(authors, author), genre);
  }

  /** An author name that nobody has resolves to null, and `{ author: { $in: [null] } }`
      then matches only books without an author: none, when every book has one. */
  lemma AllBooksUnknownAuthor(authors: seq<Author>, books: seq<Book>, author: string, genre: Option<string>)
    requires author != ""
    requires forall a :: a in authors ==> a.name != author
    requires forall b :: b in books ==> b.author.Some?
    ensures SelectBooks(authors, books, Some(author), genre) == []
  {
    var g := if IsGiven(genre) then Some(genre.value) else None;
    SelectNoMatch(books, BookQuery(Some(None), g));
  }

  /** A book as `authorDetails` returns it: its id is not carried over. */
  datatype BookView = BookView(title: string, published: Option<int>, genres: seq<string>, author: Option<Author>)

  /** `authorDetails(booklist)`: each book with its author looked up by id. */
  function AuthorDetails(authors: seq<Author>, booklist: seq<Book>): (r: seq<BookView>)
    ensures |r| == |booklist|
    ensures forall i :: 0 <= i < |r| ==>
      && r[i].title == booklist[i].title
      && r[i].published == booklist[i].published
      && r[i].genres == booklist[i].genres
    ensures forall i :: 0 <= i < |r| ==>
      (r[i].author.Some? <==> exists a :: a in authors && Some(a.id) == booklist[i].author)
    ensures forall i :: 0 <= i < |r| && r[i].author.Some? ==>
      r[i].author.value in authors && Some(r[i].author.value.id) == booklist[i].author
  {
    seq(|booklist|, i requires 0 <= i < |booklist| =>
      BookView(booklist[i].title, booklist[i].published, booklist[i].genres, AuthorById(authors, booklist[i].author)))
  }

  /** `Query.allBooks`. */
  function AllBooks(authors: seq<Author>, books: seq<Book>, author: Option<string>, genre: Option<string>): (r: seq<BookView>)
    ensures |r| == |SelectBooks(authors, books, author, genre)|
    ensures forall i :: 0 <= i < |r| ==>
      var b := SelectBooks(authors, books, author, genre)[i];
      && r[i].title == b.title && r[i].published == b.published && r[i].genres == b.genres
      && r[i].author == AuthorById(authors, b.author)
    ensures (forall b :: b in books ==> exists a :: a in authors && Some(a.id) == b.author) ==>
      forall i :: 0 <= i < |r| ==> r[i].author.Some?
  {
    var selected := SelectBooks(authors, books, author, genre);
    assert forall i :: 0 <= i < |selected| ==> selected[i] in books;
    AuthorDetails(authors, selected)
  }

  /** `populate("books")`: each back-list id replaced by its book; ids that find no book are dropped. */
  function Populate(books: seq<Book>, ids: seq<Id>): (r: seq<Book>)
    ensures |r| <= |ids|
    ensures forall b :: b in r ==> b in books && b.id in ids
    decreases |ids|
  {
    if ids == [] then []
    else
      var init, last := ids[..|ids| - 1], ids[|ids| - 1];
      assert ids == init + [last];
      Populate(books, init) + (match BookById(books, last) case None => [] case Some(b) => [b])
  }

  /** When every id of the back-list finds its book, populating keeps its length and order. */
  lemma {:induction false} PopulateResolved(books: seq<Book>, ids: seq<Id>)
    requires forall id :: id in ids ==> exists b :: b in books && b.id == id
    ensures |Populate(books, ids)| == |ids|
    ensures forall i :: 0 <= i < |ids| ==> Populate(books, ids)[i].id == ids[i]
    decreases |ids|
  {
    if ids != [] {
      var init, last := ids[..|ids| - 1], ids[|ids| - 1];
      forall id | id in init
        ensures exists b :: b in books && b.id == id
      {
        assert id in ids;
      }
      PopulateResolved(books, init);
      assert last in ids;
      var found := BookById(books, last);
      var front := Populate(books, init);
      var p := Populate(books, ids);
      assert p == front + [found.value];
      forall i | 0 <= i < |ids|
        ensures p[i].id == ids[i]
      {
        if i < |init| {
          assert p[i] == front[i];
        }
      }
    }
  }

  /** An author as `allAuthors` returns it, with its back-list populated. */
  datatype AuthorView = AuthorView(id: Id, name: string, born: Option<int>, books: seq<Book>)

  /** `Query.allAuthors`: `Author.find({}).populate("books")`. */
  function AllAuthors(authors: seq<Author>, books: seq<Book>): (r: seq<AuthorView>)
    ensures |r| == |authors|
    ensures forall i :: 0 <= i < |r| ==>
      r[i].id == authors[i].id && r[i].name == authors[i].name && r[i].born == authors[i].born
    ensures forall i :: 0 <= i < |r| ==> forall b :: b in r[i].books ==> b in books && b.id in authors[i].books
  {
    seq(|authors|, i requires 0 <= i < |authors| =>
      AuthorView(authors[i].id, authors[i].name, authors[i].born, Populate(books, authors[i].books)))
  }

  /** `Author.bookCount`: `root.books.length`. */
  function AuthorBookCount(root: AuthorView): nat {
    |root.books|
  }

  /** An author's `bookCount` is the length of its back-list, when every listed id finds its book. */
  lemma BookCountIsBackListLength(authors: seq<Author>, books: seq<Book>, i: nat)
    requires i < |authors|
    requires forall id :: id in authors[i].books ==> exists b :: b in books && b.id == id
    ensures AuthorBookCount(AllAuthors(authors, books)[i]) == |authors[i].books|
  {
    PopulateResolved(books, authors[i].books);
  }

  /** `Query.bookCount`: `Book.collection.countDocuments()`. */
  function BookCount(books: seq<Book>): nat {
    |books|
  }

  /** `Query.authorCount`: `Author.collection.countDocuments()`. */
  function AuthorCount(authors: seq<Author>): nat {
    |authors|
  }
}
