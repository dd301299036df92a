/** service/BookService.java: the Spring catalog operations. Failures are the
    `RuntimeException` messages, returned as `Err`. */
module BookService {
  import opened Common
  import opened Text
  import opened Listing
  import opened SpringModel
  import opened SpringStore

  /** The request body of add and update (`BookRequest`). */
  datatype BookRequest = BookRequest(title: string, author: string, isbn: string, category: string,
                                     copies: int, description: Option<string>)

  /** `BookResponse.fromBook` (the creation time is left out). */
  datatype BookResponse = BookResponse(id: Id, title: string, author: string, isbn: string, category: string,
                                       copies: int, available: int, description: Option<string>)

  function FromBook(k: Id, b: BookRecord): (v: BookResponse)
    ensures v.id == k && v.isbn == b.isbn && v.copies == b.copies && v.available == b.available
    ensures v.title == b.title && v.author == b.author
  {
    BookResponse(k, b.title, b.author, b.isbn, b.category, b.copies, b.available, b.description)
  }

  /** `getAllBooks`: every book once, newest first. */
  function GetAllBooks(repo: Repositories): (r: seq<BookResponse>)
    reads repo
    requires repo.Wellformed()
    ensures forall i :: 0 <= i < |r| ==> r[i].id in repo.books && r[i] == FromBook(r[i].id, repo.books[r[i].id])
    ensures forall k :: k in repo.books ==> FromBook(k, repo.books[k]) in r
    ensures forall i, j :: 0 <= i < j < |r| ==> r[i].id > r[j].id
  {
    var ks := NewestFirst(repo.books, repo.nextId, (b: BookRecord) => true);
    Project(repo.books, ks, FromBook)
  }

  /** `getBookById` */
  function GetBookById(repo: Repositories, id: Id): (r: Result<BookResponse>)
    reads repo
    ensures r.Ok? <==> id in repo.books
    ensures r.Ok? ==> r.value == FromBook(id, repo.books[id])
    ensures r.Err? ==> r.message == "Book not found"
  {
    if id in repo.books then Ok(FromBook(id, repo.books[id])) else Err("Book not found")
  }

  /** `addBook`: refuses an isbn already in the catalog; otherwise stores a
      new book with every copy available. */
  method AddBook(repo: Repositories, req: BookRequest) returns (r: Result<BookResponse>)
    requires repo.Valid()
    modifies repo
    ensures repo.Valid()
    ensures IsbnExists(old(repo.books), req.isbn) ==> r == Err("Book with this ISBN already exists")
    ensures r.Ok? <==> !IsbnExists(old(repo.books), req.isbn)
    ensures r.Err? ==> unchanged(repo)
    ensures r.Ok? ==>
              var added := BookRecord(req.title, req.author, req.isbn, req.category, req.copies, req.copies, req.description);
              && r.value == FromBook(old(repo.nextId), added)
              && repo.books == old(repo.books)[old(repo.nextId) := added] && old(repo.nextId) !in old(repo.books)
              && repo.borrows == old(repo.borrows) && repo.users == old(repo.users)
    ensures old(NonNegativeAvailable(repo.books)) && req.copies >= 0 ==> NonNegativeAvailable(repo.books)
  {
    if IsbnExists(repo.books, req.isbn) {
      return Err("Book with this ISBN already exists");
    }
    var book := new Book(req.title, req.author, req.isbn, req.category, req.copies, req.description);
    var id := repo.SaveBook(book);
    r := Ok(FromBook(id, book.Record()));
  }

  /** `Math.max(0, available + (newCopies - previousCopies))` */
  function AdjustedAvailable(available: int, previousCopies: int, newCopies: int): (a: int)
    ensures a >= 0
    ensures available + (newCopies - previousCopies) >= 0 ==> a - available == newCopies - previousCopies
    ensures available + (newCopies - previousCopies) < 0 ==> a == 0
  {
    var shifted := available + (newCopies - previousCopies);
    if shifted > 0 then shifted else 0
  }

  /** The book after `updateBook`: the request's fields, with `available`
      shifted by the change in copies and floored at 0. */
  function Revised(b: BookRecord, req: BookRequest): (r: BookRecord)
    ensures r.copies == req.copies && r.isbn == req.isbn && r.available >= 0
    ensures r.available == AdjustedAvailable(b.available, b.copies, req.copies)
  {
    BookRecord(req.title, req.author, req.isbn, req.category, req.copies,
               AdjustedAvailable(b.available, b.copies, req.copies), req.description)
  }

  /** A balanced book (`available + open borrows == copies`) stays balanced
      under `updateBook` exactly when the new copy count still covers the open
      borrows; with fewer copies than open borrows, `available` is floored at 0
      and the book counts more copies out and on the shelf than it owns. */
  lemma RevisedKeepsBalanceIff(b: BookRecord, open: nat, req: BookRequest)
    requires b.available + open == b.copies
    ensures Revised(b, req).available + open == Revised(b, req).copies <==> req.copies >= open
    ensures req.copies < open ==> Revised(b, req).available == 0 && Revised(b, req).available + open > Revised(b, req).copies
  {
  }

  /** The catalog after `n` returns of book `b`, one `returnBook` each. */
  function RestockedTimes(books: map<Id, BookRecord>, b: Id, n: nat): (r: map<Id, BookRecord>)
    ensures r.Keys == books.Keys
    ensures b in books ==> r[b] == books[b].(available := books[b].available + n)
    ensures forall c :: c in books && c != b ==> r[c] == books[c]
  {
    if n == 0 then books else Restocked(RestockedTimes(books, b, n - 1), b)
  }

  /** Neither `updateBook` nor `returnBook` keeps `available <= copies`: cut
      the copies of a balanced book below its open borrows, let those borrows
      come back, and the book shows more copies on the shelf than it owns. */
  lemma OverReturned(books: map<Id, BookRecord>, b: Id, open: nat, req: BookRequest)
    requires b in books && books[b].available + open == books[b].copies
    requires 0 <= req.copies < open
    ensures var after := RestockedTimes(books[b := Revised(books[b], req)], b, open);
            after[b].available == open && after[b].available > after[b].copies
  {
    RevisedKeepsBalanceIff(books[b], open, req);
  }

  /** `updateBook` */
  method UpdateBook(repo: Repositories, id: Id, req: BookRequest) returns (r: Result<BookResponse>)
    requires repo.Valid()
    modifies repo
    ensures repo.Valid()
    ensures id !in old(repo.books) ==> r == Err("Book not found")
    ensures (id in old(repo.books) && old(repo.books[id]).isbn != req.isbn && IsbnExists(old(repo.books), req.isbn)) ==>
              r == Err("Book with this ISBN already exists")
    ensures r.Ok? <==> id in old(repo.books) && (old(repo.books[id]).isbn == req.isbn || !IsbnExists(old(repo.books), req.isbn))
    ensures r.Err? ==> unchanged(repo)
    ensures r.Ok? ==>
              && repo.books == old(repo.books)[id := Revised(old(repo.books[id]), req)]
              && r.value == FromBook(id, repo.books[id])
    ensures repo.borrows == old(repo.borrows) && repo.users == old(repo.users)
    ensures old(NonNegativeAvailable(repo.books)) ==> NonNegativeAvailable(repo.books)
  {
    var found := repo.FindBookById(id);
    if found.None? {
      return Err("Book not found");
    }
    var book := found.value;
    if book.isbn != req.isbn && IsbnExists(repo.books, req.isbn) {
      return Err("Book with this ISBN already exists");
    }
    book.title := req.title;
    book.author := req.author;
    book.isbn := req.isbn;
    book.category := req.category;
    var previousCopies := book.copies;
    var newCopies := req.copies;
    var difference := newCopies - previousCopies;
    book.copies := newCopies;
    book.available := if book.available + difference > 0 then book.available + difference else 0;
    book.description := req.description;
    ghost var revised := Revised(repo.books[id], req);
    assert book.Record() == revised;
    ReplaceKeepsIsbns(repo.books, id, revised);
    var saved := repo.SaveBook(book);
    assert saved == id && repo.books[id] == revised;
    r := Ok(FromBook(saved, book.Record()));
  }

  /** `deleteBook`: refuses an unknown book and a book with BORROWED records;
      otherwise removes exactly that book. */
  method DeleteBook(repo: Repositories, id: Id) returns (r: Result<()>)
    requires repo.Valid()
    modifies repo
    ensures repo.Valid()
    ensures id !in old(repo.books) ==> r == Err("Book not found")
    ensures id in old(repo.books) && HasOpenBorrowOfBook(old(repo.borrows), id) ==>
              r == Err("Cannot delete book with active borrows")
    ensures r.Ok? <==> id in old(repo.books) && !HasOpenBorrowOfBook(old(repo.borrows), id)
    ensures r.Ok? ==> repo.books == old(repo.books) - {id}
    ensures r.Err? ==> repo.books == old(repo.books)
    ensures repo.borrows == old(repo.borrows) && repo.users == old(repo.users) && repo.nextId == old(repo.nextId)
  {
    var found := repo.FindBookById(id);
    if found.None? {
      return Err("Book not found");
    }
    if HasOpenBorrowOfBook(repo.borrows, id) {
      return Err("Cannot delete book with active borrows");
    }
    repo.DeleteBookById(id);
    r := Ok(());
  }

  predicate TitleMatches(b: BookRecord, query: string) { ContainsIgnoreCase(b.title, query) }

  predicate AuthorMatches(b: BookRecord, query: string) { ContainsIgnoreCase(b.author, query) }

  /** `findByTitleContainingIgnoreCase(query)`: matching ids, oldest first. */
  function TitleHits(repo: Repositories, query: string): seq<Id>
    reads repo
  {
    OldestFirst(repo.books, repo.nextId, TitleFinder(query))
  }

  function TitleFinder(query: string): BookRecord -> bool { (b: BookRecord) => TitleMatches(b, query) }

  function AuthorFinder(query: string): BookRecord -> bool { (b: BookRecord) => AuthorMatches(b, query) }

  /** `findByAuthorContainingIgnoreCase(query)`: matching ids, oldest first. */
  function AuthorHits(repo: Repositories, query: string): seq<Id>
    reads repo
  {
    OldestFirst(repo.books, repo.nextId, AuthorFinder(query))
  }

  /** `searchBooks`, as written: the title matches followed by the author
      matches. `Book` does not override `equals`, and the two finders return
      distinct objects, so `distinct()` removes nothing. */
  function SearchBooksAsWritten(repo: Repositories, query: string): (r: seq<BookResponse>)
    reads repo
    requires repo.Wellformed()
    ensures forall i :: 0 <= i < |r| ==>
              && r[i].id in repo.books && r[i] == FromBook(r[i].id, repo.books[r[i].id])
              && (TitleMatches(repo.books[r[i].id], query) || AuthorMatches(repo.books[r[i].id], query))
    ensures forall k :: k in repo.books && (TitleMatches(repo.books[k], query) || AuthorMatches(repo.books[k], query)) ==>
              FromBook(k, repo.books[k]) in r
  {
    Project(repo.books, TitleHits(repo, query) + AuthorHits(repo, query), FromBook)
  }

  /** A book whose title and author both match is listed twice. */
  lemma SearchBooksAsWrittenRepeats(repo: Repositories, query: string, k: Id)
    requires repo.Wellformed()
    requires k in repo.books && TitleMatches(repo.books[k], query) && AuthorMatches(repo.books[k], query)
    ensures exists i, j :: 0 <= i < j < |SearchBooksAsWritten(repo, query)|
              && SearchBooksAsWritten(repo, query)[i].id == k && SearchBooksAsWritten(repo, query)[j].id == k
  {
    var titles := TitleHits(repo, query);
    assert k < repo.nextId;
    var i := OldestFirstIndex(repo.books, repo.nextId, TitleFinder(query), k);
    var j := OldestFirstIndex(repo.books, repo.nextId, AuthorFinder(query), k);
    var r := SearchBooksAsWritten(repo, query);
    ProjectListsTwice(repo.books, titles, AuthorHits(repo, query), FromBook, i, j);
    assert r[i].id == k && r[|titles| + j].id == k;
  }

  /** The ids a working `distinct()` keeps: the title matches, then the
      author matches not already listed, each group oldest first. */
  function SearchKeys(books: map<Id, BookRecord>, n: nat, query: string): (ks: seq<Id>)
    ensures forall i :: 0 <= i < |ks| ==> ks[i] in books
    ensures forall i :: 0 <= i < |ks| ==> TitleMatches(books[ks[i]], query) || AuthorMatches(books[ks[i]], query)
    ensures forall k :: k < n && k in books && (TitleMatches(books[k], query) || AuthorMatches(books[k], query)) ==> k in ks
    ensures forall i, j :: 0 <= i < j < |ks| && TitleMatches(books[ks[j]], query) ==> TitleMatches(books[ks[i]], query)
    ensures forall i, j :: 0 <= i < j < |ks| && TitleMatches(books[ks[i]], query) == TitleMatches(books[ks[j]], query) ==>
              ks[i] < ks[j]
    ensures forall i, j :: 0 <= i < j < |ks| ==> ks[i] != ks[j]
  {
    var ks := OldestFirstGrouped(books, n, TitleFinder(query), AuthorFinder(query));
    assert forall b :: TitleFinder(query)(b) == TitleMatches(b, query);
    assert forall b :: AuthorFinder(query)(b) == AuthorMatches(b, query);
    ks
  }

  /** `searchBooks` as intended: each book whose title or author contains
      the query, ignoring case, exactly once, listed in the order of
      `SearchKeys`. */
  function SearchBooks(repo: Repositories, query: string): (r: seq<BookResponse>)
    reads repo
    requires repo.Wellformed()
    ensures forall i :: 0 <= i < |r| ==>
              && r[i].id in repo.books && r[i] == FromBook(r[i].id, repo.books[r[i].id])
              && (TitleMatches(repo.books[r[i].id], query) || AuthorMatches(repo.books[r[i].id], query))
    ensures forall k :: k in repo.books && (TitleMatches(repo.books[k], query) || AuthorMatches(repo.books[k], query)) ==>
              FromBook(k, repo.books[k]) in r
    ensures |r| == |SearchKeys(repo.books, repo.nextId, query)|
    ensures forall i :: 0 <= i < |r| ==> r[i].id == SearchKeys(repo.books, repo.nextId, query)[i]
    ensures forall i, j :: 0 <= i < j < |r| ==> r[i].id != r[j].id
  {
    var books := repo.books;
    var ks := SearchKeys(books, repo.nextId, query);
    forall k | k in books && (TitleMatches(books[k], query) || AuthorMatches(books[k], query))
      ensures k in ks
    {
      assert k < repo.nextId;
    }
    Project(books, ks, FromBook)
  }

  /** With an empty query every book is found. */
  lemma SearchBooksEmptyQuery(repo: Repositories, k: Id)
    requires repo.Wellformed() && k in repo.books
    ensures FromBook(k, repo.books[k]) in SearchBooks(repo, "")
  {
    ContainsIgnoreCaseEmpty(repo.books[k].title);
    assert TitleMatches(repo.books[k], "");
    var r := SearchBooks(repo, "");
  }
}
