/** Two data-structure routines of the React client: the insert-if-absent update of the
    cached `allBooks` list, and the de-duplicated genre list built from it. */
module Client {
  import opened Wrappers

  /** A book as the client caches it: the GraphQL id, and the fields the genre list uses. */
  datatype BookEntry = BookEntry(id: string, title: string, genres: seq<string>)

  // ----- the cache update -----

  /** `set.map((book) => book.id)`. */
  function IdsOf(cached: seq<BookEntry>): (r: seq<string>)
    ensures |r| == |cached|
    ensures forall i :: 0 <= i < |cached| ==> r[i] == cached[i].id
  {
    seq(|cached|, i requires 0 <= i < |cached| => cached[i].id)
  }

  /** `includedIn(set, object)`. */
  function IncludedIn(cached: seq<BookEntry>, obj: BookEntry): (r: bool)
    ensures r <==> exists i :: 0 <= i < |cached| && cached[i].id == obj.id
  {
    var ids := IdsOf(cached);
    assert forall i :: 0 <= i < |cached| ==> ids[i] == cached[i].id;
    obj.id in ids
  }

  /** The cached list after `updateCacheWith(added)`. */
  function CacheInsert(cache: seq<BookEntry>, added: BookEntry): seq<BookEntry> {
    if IncludedIn(cache, added) then cache else cache + [added]
  }

  /** No two cached books share an id. */
  ghost predicate DistinctIds(cache: seq<BookEntry>) {
    forall i, j :: 0 <= i < j < |cache| ==> cache[i].id != cache[j].id
  }

  /** A book whose id is already cached leaves the cache as it was; any other book is
      appended at the end, every earlier entry kept in place. Afterwards the book's id
      is cached, and distinct ids stay distinct. */
  lemma CacheInsertEffect(cache: seq<BookEntry>, added: BookEntry)
    ensures (exists i :: 0 <= i < |cache| && cache[i].id == added.id) ==> CacheInsert(cache, added) == cache
    ensures (forall i :: 0 <= i < |cache| ==> cache[i].id != added.id) ==>
      && |CacheInsert(cache, added)| == |cache| + 1
      && CacheInsert(cache, added)[..|cache|] == cache
      && CacheInsert(cache, added)[|cache|] == added
    ensures IncludedIn(CacheInsert(cache, added), added)
    ensures DistinctIds(cache) ==> DistinctIds(CacheInsert(cache, added))
  {
    var r := CacheInsert(cache, added);
    if !IncludedIn(cache, added) {
      assert r[|cache|] == added;
      assert r[..|cache|] == cache;
    }
  }

  /** Delivering the same book twice, once through the mutation's `update` callback and once
      through the subscription, leaves the cache as a single delivery does. */
  lemma CacheInsertIdempotent(cache: seq<BookEntry>, added: BookEntry)
    ensures CacheInsert(CacheInsert(cache, added), added) == CacheInsert(cache, added)
  {
    CacheInsertEffect(cache, added);
  }

  /** The Apollo cache's `ALL_BOOKS` entry, updated in place. */
  class BookCache {
    var allBooks: seq<BookEntry>

    constructor (initial: seq<BookEntry>)
      ensures allBooks == initial
    {
      allBooks := initial;
    }

    /** `updateCacheWith(addedBook)`. */
    method UpdateCacheWith(addedBook: BookEntry)
      modifies this
      ensures allBooks == CacheInsert(old(allBooks), addedBook)
      ensures old(DistinctIds(allBooks)) ==> DistinctIds(allBooks)
    {
      CacheInsertEffect(allBooks, addedBook);
      if !IncludedIn(allBooks, addedBook) {
        allBooks := allBooks + [addedBook];
      }
    }

    /** The `addBook` mutation's `update` callback and the `bookAdded` subscription handler
        both hand the same new book to `updateCacheWith`: it is cached once. */
    method DeliverTwice(addedBook: BookEntry)
      modifies this
      ensures allBooks == CacheInsert(old(allBooks), addedBook)
    {
      UpdateCacheWith(addedBook);
      UpdateCacheWith(addedBook);
      CacheInsertIdempotent(old(allBooks), addedBook);
    }
  }

  // ----- the genre list -----

  /** The genres of `books`, book by book, each book's genres left to right. */
  function Flatten(books: seq<BookEntry>): seq<string> {
    if books == [] then [] else Flatten(books[..|books| - 1]) + books[|books| - 1].genres
  }

  /** `s` with every element after its first occurrence dropped. */
  function Dedup(s: seq<string>): (r: seq<string>)
    ensures |r| <= |s|
  {
    if s == [] then []
    else
      var kept := Dedup(s[..|s| - 1]);
      if s[|s| - 1] in kept then kept else kept + [s[|s| - 1]]
  }

  /** The position of the first occurrence of `x` in `s`. */
  function FirstIndex(s: seq<string>, x: string): (r: nat)
    requires x in s
    ensures r < |s| && s[r] == x
    ensures forall k :: 0 <= k < r ==> s[k] != x
  {
    if s[0] == x then 0 else 1 + FirstIndex(s[1..], x)
  }

  lemma {:induction false} FlattenMembers(books: seq<BookEntry>, g: string)
    ensures g in Flatten(books) <==> exists b :: b in books && g in b.genres
  {
    if books != [] {
      var init := books[..|books| - 1];
      FlattenMembers(init, g);
      assert books == init + [books[|books| - 1]];
      if g in Flatten(books) && g !in books[|books| - 1].genres {
        var b :| b in init && g in b.genres;
        assert b in books;
      }
      if exists b :: b in books && g in b.genres {
        var b :| b in books && g in b.genres;
        if b != books[|books| - 1] {
          assert b in init;
        }
      }
    }
  }

  lemma {:induction false} DedupMembers(s: seq<string>, x: string)
    ensures x in Dedup(s) <==> x in s
  {
    if s != [] {
      var init := s[..|s| - 1];
      DedupMembers(init, x);
      assert s == init + [s[|s| - 1]];
    }
  }

  lemma {:induction false} DedupDistinct(s: seq<string>)
    ensures forall i, j :: 0 <= i < j < |Dedup(s)| ==> Dedup(s)[i] != Dedup(s)[j]
  {
    if s != [] {
      var init := s[..|s| - 1];
      DedupDistinct(init);
      var kept := Dedup(init);
      if s[|s| - 1] !in kept {
        var r := kept + [s[|s| - 1]];
        forall i, j | 0 <= i < j < |r|
          ensures r[i] != r[j]
        {
          if j == |kept| {
            assert r[i] in kept;
          }
        }
      }
    }
  }

  lemma {:induction false} FirstIndexPrefix(init: seq<string>, x: string, y: string)
    requires x in init
    ensures FirstIndex(init + [y], x) == FirstIndex(init, x)
  {
    if init[0] != x {
      assert (init + [y])[1..] == init[1..] + [y];
      FirstIndexPrefix(init[1..], x, y);
    }
  }

  /** Genres appear in the order of their first occurrence. */
  lemma {:induction false} DedupOrder(s: seq<string>)
    ensures forall x :: x in Dedup(s) ==> x in s
    ensures forall i, j :: 0 <= i < j < |Dedup(s)| ==> FirstIndex(s, Dedup(s)[i]) < FirstIndex(s, Dedup(s)[j])
  {
    forall x | x in Dedup(s)
      ensures x in s
    {
      DedupMembers(s, x);
    }
    if s != [] {
      var init, last := s[..|s| - 1], s[|s| - 1];
      assert s == init + [last];
      DedupOrder(init);
      var kept := Dedup(init);
      var r := Dedup(s);
      forall i, j | 0 <= i < j < |r|
        ensures FirstIndex(s, r[i]) < FirstIndex(s, r[j])
      {
        assert r[i] in kept;
        FirstIndexPrefix(init, r[i], last);
        if j < |kept| {
          assert r[j] in kept;
          FirstIndexPrefix(init, r[j], last);
        } else {
          DedupMembers(init, last);
          assert FirstIndex(s, r[j]) == |init|;
        }
      }
    }
  }

  /** Scanning one more genre of the current book appends it exactly when it is not yet listed. */
  lemma DedupScanStep(scanned: seq<string>, genres: seq<string>, j: nat)
    requires j < |genres|
    ensures Dedup(scanned + genres[..j + 1]) ==
      if genres[j] in Dedup(scanned + genres[..j]) then Dedup(scanned + genres[..j])
      else Dedup(scanned + genres[..j]) + [genres[j]]
  {
    var prefix := scanned + genres[..j];
    assert scanned + genres[..j + 1] == prefix + [genres[j]];
    assert (prefix + [genres[j]])[..|prefix|] == prefix;
  }

  /** Scanning one more book appends its genres to the scan. */
  lemma FlattenStep(books: seq<BookEntry>, i: nat)
    requires i < |books|
    ensures Flatten(books[..i + 1]) == Flatten(books[..i]) + books[i].genres[..|books[i].genres|]
  {
    assert books[..i + 1][..i] == books[..i];
    assert books[i].genres[..|books[i].genres|] == books[i].genres;
  }

  /** The de-duplicated scan lists every genre of every book, only those, and each once. */
  lemma GenreListFacts(books: seq<BookEntry>)
    ensures forall g :: g in Dedup(Flatten(books)) <==> exists b :: b in books && g in b.genres
    ensures forall i, j :: 0 <= i < j < |Dedup(Flatten(books))| ==> Dedup(Flatten(books))[i] != Dedup(Flatten(books))[j]
  {
    DedupDistinct(Flatten(books));
    forall g
      ensures g in Dedup(Flatten(books)) <==> exists b :: b in books && g in b.genres
    {
      DedupMembers(Flatten(books), g);
      FlattenMembers(books, g);
    }
  }

  /** The genre list of the fourth `useEffect`: every genre of every cached book, once
      each, in the order first met; nothing when the query has no data yet. */
  method GenresList(allBooks: Option<seq<BookEntry>>) returns (allGenres: seq<string>)
    ensures allBooks.None? ==> allGenres == []
    ensures allBooks.Some? ==> allGenres == Dedup(Flatten(allBooks.value))
    ensures forall g :: g in allGenres <==> allBooks.Some? && exists b :: b in allBooks.value && g in b.genres
    ensures forall i, j :: 0 <= i < j < |allGenres| ==> allGenres[i] != allGenres[j]
  {
    allGenres := [];
    if allBooks.Some? {
      var books := allBooks.value;
      var i := 0;
      while i < |books|
        invariant 0 <= i <= |books|
        invariant allGenres == Dedup(Flatten(books[..i]))
      {
        var book := books[i];
        var j := 0;
        assert Flatten(books[..i]) + book.genres[..0] == Flatten(books[..i]);
        while j < |book.genres|
          invariant 0 <= j <= |book.genres|
          invariant allGenres == Dedup(Flatten(books[..i]) + book.genres[..j])
        {
          var genre := book.genres[j];
          DedupScanStep(Flatten(books[..i]), book.genres, j);
          if genre !in allGenres {
            allGenres := allGenres + [genre];
          }
          j := j + 1;
        }
        FlattenStep(books, i);
        i := i + 1;
      }
      assert books[..|books|] == books;
      GenreListFacts(books);
    }
  }
}
