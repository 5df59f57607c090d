/** The records of the library backend (authors, books, users), its events and its errors. */
module Records {
  import opened Wrappers

  /** A document id (a MongoDB ObjectId), drawn from one counter so ids never repeat. */
  type Id = nat

  /** An author document: `born` may be absent; `books` is the back-list of book ids. */
  datatype Author = Author(id: Id, name: string, born: Option<int>, books: seq<Id>)

  /** A book document: `author` holds the author's id, or nothing (a null reference). */
  datatype Book = Book(id: Id, title: string, published: Option<int>, genres: seq<string>, author: Option<Id>)

  /** A user document; no per-user password is stored. */
  datatype User = User(id: Id, username: string, favoriteGenre: string)

  /** The arguments of the `addBook` mutation. */
  datatype BookArgs = BookArgs(title: string, author: string, published: Option<int>, genres: seq<string>)

  /** What is published on the two subscription channels. */
  datatype Event = AuthorAdded(author: Author) | BookAdded(book: Book)

  /** The errors the resolvers throw. */
  datatype Error =
    | NotAuthenticated                                     // AuthenticationError("Not Authenticated, please sign in")
    | InvalidBookArgs(invalid: BookArgs)                   // UserInputError from addBook, carrying its arguments
    | InvalidUserArgs(username: string, favoriteGenre: string) // UserInputError from createUser
    | IncorrectCredentials                                 // UserInputError("Incorrect credentials") from login
    | AuthorNotFound                                       // the TypeError of `author.born = ...` on a null author
    | InvalidToken                                         // jwt.verify throwing on the bearer token

  /** No two authors share an id. */
  ghost predicate AuthorIdsDistinct(authors: seq<Author>) {
    forall i, j :: 0 <= i < j < |authors| ==> authors[i].id != authors[j].id
  }

  /** No two authors share a name. */
  ghost predicate AuthorNamesDistinct(authors: seq<Author>) {
    forall i, j :: 0 <= i < j < |authors| ==> authors[i].name != authors[j].name
  }

  /** No two books share an id. */
  ghost predicate BookIdsDistinct(books: seq<Book>) {
    forall i, j :: 0 <= i < j < |books| ==> books[i].id != books[j].id
  }

  /** No two users share an id. */
  ghost predicate UserIdsDistinct(users: seq<User>) {
    forall i, j :: 0 <= i < j < |users| ==> users[i].id != users[j].id
  }
}
