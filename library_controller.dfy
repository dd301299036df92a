/** controller/LibraryController.java: the Spring REST endpoints. Each one
    calls a service and maps a thrown `RuntimeException` to a fixed status
    with the message as `error`; a body failing its `@Valid` constraints is
    answered 400 "Validation failed" before the service is reached. */
module LibraryController {
  import opened Common
  import opened SpringModel
  import opened SpringStore
  import opened BookService
  import opened BorrowService

  /** The authenticated caller (`UserPrincipal`) taken from the token. */
  datatype Principal = Principal(userId: Id, email: string, role: string)

  const ValidationFailed: string := "Validation failed"

  /** `Character.isWhitespace` on ASCII: space, tab to carriage return, and
      the four separator controls. */
  predicate IsWhitespace(c: char) {
    c == ' ' || '\t' <= c <= '\r' || '\U{1C}' <= c <= '\U{1F}'
  }

  /** `@NotBlank` fails on text made only of whitespace, the empty text included. */
  predicate IsBlank(s: string) {
    forall i :: 0 <= i < |s| ==> IsWhitespace(s[i])
  }

  /** The constraints of `BookRequest`: four non-blank texts and `copies >= 1`. */
  predicate BookRequestValid(req: BookRequest) {
    !IsBlank(req.title) && !IsBlank(req.author) && !IsBlank(req.isbn) && !IsBlank(req.category) && req.copies >= 1
  }

  /** The JSON body of POST /borrows; a blank id is None. */
  datatype BorrowBody = BorrowBody(bookId: Option<Id>, userId: Option<Id>, userName: string)

  predicate BorrowBodyValid(body: BorrowBody) {
    body.bookId.Some? && body.userId.Some? && !IsBlank(body.userName)
  }

  /** GET /books */
  function GetBooks(repo: Repositories): (r: Reply<seq<BookResponse>>)
    reads repo
    requires repo.Wellformed()
    ensures r.Success? && r.status == 200 && r.body == GetAllBooks(repo)
  {
    Success(200, GetAllBooks(repo))
  }

  /** GET /books/{id}: an unknown id is 404. */
  function GetBook(repo: Repositories, id: Id): (r: Reply<BookResponse>)
    reads repo
    ensures r.Success? <==> id in repo.books
    ensures r.Success? ==> r == Success(200, FromBook(id, repo.books[id]))
    ensures r.Failure? ==> r == Failure(404, "Book not found")
  {
    match GetBookById(repo, id)
    case Ok(book) => Success(200, book)
    case Err(message) => Failure(404, message)
  }

  /** POST /admin/books: an isbn clash is 409. */
  method AddBook(repo: Repositories, req: BookRequest) returns (r: Reply<BookResponse>)
    requires repo.Valid()
    modifies repo
    ensures repo.Valid()
    ensures !BookRequestValid(req) ==> r == Failure(400, ValidationFailed)
    ensures BookRequestValid(req) && IsbnExists(old(repo.books), req.isbn) ==>
              r == Failure(409, "Book with this ISBN already exists")
    ensures r.Success? <==> BookRequestValid(req) && !IsbnExists(old(repo.books), req.isbn)
    ensures r.Failure? ==> unchanged(repo)
    ensures r.Success? ==>
              var added := BookRecord(req.title, req.author, req.isbn, req.category, req.copies, req.copies, req.description);
              && r == Success(200, FromBook(old(repo.nextId), added))
              && repo.books == old(repo.books)[old(repo.nextId) := added]
              && BookConstraints(repo.books[old(repo.nextId)])
    ensures repo.borrows == old(repo.borrows) && repo.users == old(repo.users)
    ensures old(NonNegativeAvailable(repo.books)) ==> NonNegativeAvailable(repo.books)
  {
    if !BookRequestValid(req) {
      return Failure(400, ValidationFailed);
    }
    var added := BookService.AddBook(repo, req);
    match added
    case Ok(book) => r := Success(200, book);
    case Err(message) => r := Failure(409, message);
  }

  /** PUT /admin/books/{id}: every service failure, the isbn clash included, is 404. */
  method UpdateBook(repo: Repositories, id: Id, req: BookRequest) returns (r: Reply<BookResponse>)
    requires repo.Valid()
    modifies repo
    ensures repo.Valid()
    ensures !BookRequestValid(req) ==> r == Failure(400, ValidationFailed)
    ensures BookRequestValid(req) && id !in old(repo.books) ==> r == Failure(404, "Book not found")
    ensures (BookRequestValid(req) && id in old(repo.books) && old(repo.books[id]).isbn != req.isbn
             && IsbnExists(old(repo.books), req.isbn)) ==> r == Failure(404, "Book with this ISBN already exists")
    ensures r.Success? <==> BookRequestValid(req) && id in old(repo.books)
                            && (old(repo.books[id]).isbn == req.isbn || !IsbnExists(old(repo.books), req.isbn))
    ensures r.Failure? ==> unchanged(repo)
    ensures r.Success? ==>
              && repo.books == old(repo.books)[id := Revised(old(repo.books[id]), req)]
              && r == Success(200, FromBook(id, repo.books[id]))
              && BookConstraints(repo.books[id])
    ensures repo.borrows == old(repo.borrows) && repo.users == old(repo.users)
    ensures old(NonNegativeAvailable(repo.books)) ==> NonNegativeAvailable(repo.books)
  {
    if !BookRequestValid(req) {
      return Failure(400, ValidationFailed);
    }
    var updated := BookService.UpdateBook(repo, id, req);
    match updated
    case Ok(book) => r := Success(200, book);
    case Err(message) => r := Failure(404, message);
  }

  /** DELETE /admin/books/{id}: every service failure is 404. */
  method DeleteBook(repo: Repositories, id: Id) returns (r: Reply<string>)
    requires repo.Valid()
    modifies repo
    ensures repo.Valid()
    ensures id !in old(repo.books) ==> r == Failure(404, "Book not found")
    ensures id in old(repo.books) && HasOpenBorrowOfBook(old(repo.borrows), id) ==>
              r == Failure(404, "Cannot delete book with active borrows")
    ensures r.Success? <==> id in old(repo.books) && !HasOpenBorrowOfBook(old(repo.borrows), id)
    ensures r.Success? ==> r == Success(200, "Book deleted successfully") && repo.books == old(repo.books) - {id}
    ensures r.Failure? ==> repo.books == old(repo.books)
    ensures repo.borrows == old(repo.borrows) && repo.users == old(repo.users)
  {
    var deleted := BookService.DeleteBook(repo, id);
    match deleted
    case Ok(_) => r := Success(200, "Book deleted successfully");
    case Err(message) => r := Failure(404, message);
  }

  /** GET /books/search?query=...: the service's search as written, so a
      book matching on title and author is listed twice. */
  function SearchBooks(repo: Repositories, query: string): (r: Reply<seq<BookResponse>>)
    reads repo
    requires repo.Wellformed()
    ensures r.Success? && r.status == 200
    ensures forall i :: 0 <= i < |r.body| ==>
              r.body[i].id in repo.books && r.body[i] == FromBook(r.body[i].id, repo.books[r.body[i].id])
    ensures forall k :: k in repo.books && (TitleMatches(repo.books[k], query) || AuthorMatches(repo.books[k], query)) ==>
              FromBook(k, repo.books[k]) in r.body
  {
    Success(200, SearchBooksAsWritten(repo, query))
  }

  /** The same endpoint over the corrected search: each match listed once. */
  function CorrectedSearchBooks(repo: Repositories, query: string): (r: Reply<seq<BookResponse>>)
    reads repo
    requires repo.Wellformed()
    ensures r.Success? && r.status == 200
    ensures forall k :: k in repo.books && (TitleMatches(repo.books[k], query) || AuthorMatches(repo.books[k], query)) ==>
              FromBook(k, repo.books[k]) in r.body
    ensures forall i, j :: 0 <= i < j < |r.body| ==> r.body[i].id != r.body[j].id
  {
    Success(200, BookService.SearchBooks(repo, query))
  }

  /** GET /admin/borrows */
  function GetAllBorrows(repo: Repositories): (r: Reply<seq<BorrowResponse>>)
    reads repo
    requires repo.Wellformed()
    ensures r.Success? && r.status == 200 && r.body == BorrowService.GetAllBorrows(repo)
  {
    Success(200, BorrowService.GetAllBorrows(repo))
  }

  /** GET /borrows/my: only the caller's own borrows, whatever else is stored. */
  function GetMyBorrows(repo: Repositories, principal: Principal): (r: Reply<seq<BorrowResponse>>)
    reads repo
    requires repo.Wellformed()
    ensures r.Success? && r.status == 200
    ensures forall i :: 0 <= i < |r.body| ==> r.body[i].userId == principal.userId && r.body[i].id in repo.borrows
    ensures forall k :: k in repo.borrows && repo.borrows[k].userId == principal.userId ==>
              ToResponse(repo.books, k, repo.borrows[k]) in r.body
  {
    Success(200, GetUserBorrows(repo, principal.userId))
  }

  /** POST /borrows: after validation the borrower's id and name are replaced
      by the caller's id and email, so the body cannot borrow in another
      member's name; every service failure is 400. */
  method BorrowBook(repo: Repositories, body: BorrowBody, principal: Principal, now: Millis)
    returns (r: Reply<BorrowResponse>)
    requires repo.Valid()
    modifies repo
    ensures repo.Valid()
    ensures !BorrowBodyValid(body) ==> r == Failure(400, ValidationFailed)
    ensures r.Success? <==> BorrowBodyValid(body) && body.bookId.value in old(repo.books)
                            && old(repo.books[body.bookId.value]).available > 0
                            && principal.userId in old(repo.users)
                            && !HasOpenBorrow(old(repo.borrows), body.bookId.value, principal.userId)
    ensures r.Failure? ==> r.status == 400 && unchanged(repo)
    ensures r.Success? ==>
              && r.status == 200 && r.body.userId == principal.userId && r.body.userName == principal.email
              && repo.borrows == old(repo.borrows)[old(repo.nextId) :=
                   BorrowRecord(body.bookId.value, principal.userId, principal.email, Some(now),
                                Some(now + LoanPeriodMillis), None, BORROWED)]
              && repo.books == Lent(old(repo.books), body.bookId.value)
    ensures repo.users == old(repo.users)
    ensures Conserved(old(repo.books), old(repo.borrows), repo.books, repo.borrows)
  {
    if !BorrowBodyValid(body) {
      return Failure(400, ValidationFailed);
    }
    var req := new BorrowRequest(body.bookId.value, body.userId.value, body.userName);
    req.userId := principal.userId;
    req.userName := principal.email;
    var lent := BorrowService.BorrowBook(repo, req, now);
    match lent
    case Ok(borrow) => r := Success(200, borrow);
    case Err(message) => r := Failure(400, message);
  }

  /** PUT /borrows/{id}/return: every service failure is 404. */
  method ReturnBook(repo: Repositories, id: Id, now: Millis) returns (r: Reply<BorrowResponse>)
    requires repo.Valid()
    modifies repo
    ensures repo.Valid()
    ensures id !in old(repo.borrows) ==> r == Failure(404, "Borrow record not found")
    ensures id in old(repo.borrows) && old(repo.borrows[id]).status != BORROWED ==>
              r == Failure(404, "Book is not currently borrowed")
    ensures r.Success? <==> id in old(repo.borrows) && old(repo.borrows[id]).status == BORROWED
    ensures r.Failure? ==> unchanged(repo)
    ensures r.Success? ==>
              && r.status == 200 && r.body.status == "returned"
              && repo.borrows == old(repo.borrows)[id := old(repo.borrows[id]).(status := RETURNED, returnDate := Some(now))]
              && repo.books == Restocked(old(repo.books), old(repo.borrows[id]).bookId)
    ensures repo.users == old(repo.users) && repo.nextId == old(repo.nextId)
    ensures Conserved(old(repo.books), old(repo.borrows), repo.books, repo.borrows)
  {
    var returned := BorrowService.ReturnBook(repo, id, now);
    match returned
    case Ok(borrow) => r := Success(200, borrow);
    case Err(message) => r := Failure(404, message);
  }
}
