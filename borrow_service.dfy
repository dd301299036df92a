/** service/BorrowService.java: lending and returning on the Spring backend,
    with the borrow records' responses. Failures are the `RuntimeException`
    messages, returned as `Err`; `LocalDateTime.now()` is the parameter `now`. */
module BorrowService {
  import opened Common
  import opened Listing
  import opened SpringModel
  import opened SpringStore

  /** `BorrowRequest` as the service receives it. */
  class BorrowRequest {
    var bookId: Id
    var userId: Id
    var userName: string

    constructor (bookId: Id, userId: Id, userName: string)
      ensures this.bookId == bookId && this.userId == userId && this.userName == userName
    {
      this.bookId, this.userId, this.userName := bookId, userId, userName;
    }
  }

  /** `BorrowResponse`; title and author are null when the book is gone. */
  datatype BorrowResponse = BorrowResponse(id: Id, bookId: Id, userId: Id, userName: string,
                                           borrowDate: Option<Millis>, dueDate: Option<Millis>,
                                           returnDate: Option<Millis>, status: string,
                                           bookTitle: Option<string>, bookAuthor: Option<string>)

  /** `convertToBorrowResponse`: the record's own fields, its status as text,
      and the title and author of its book as it is now. */
  function ToResponse(books: map<Id, BookRecord>, k: Id, b: BorrowRecord): (r: BorrowResponse)
    ensures r.id == k && r.bookId == b.bookId && r.userId == b.userId && r.userName == b.userName
    ensures r.returnDate == b.returnDate && r.status == b.status.Value()
    ensures r.bookTitle.Some? <==> b.bookId in books
    ensures r.bookAuthor.Some? <==> b.bookId in books
    ensures b.bookId in books ==> r.bookTitle == Some(books[b.bookId].title) && r.bookAuthor == Some(books[b.bookId].author)
  {
    var title := if b.bookId in books then Some(books[b.bookId].title) else None;
    var author := if b.bookId in books then Some(books[b.bookId].author) else None;
    BorrowResponse(k, b.bookId, b.userId, b.userName, b.borrowDate, b.dueDate, b.returnDate, b.status.Value(),
                   title, author)
  }

  /** `getAllBorrows`: every record once, in insertion order. */
  function GetAllBorrows(repo: Repositories): (r: seq<BorrowResponse>)
    reads repo
    requires repo.Wellformed()
    ensures forall i :: 0 <= i < |r| ==> r[i].id in repo.borrows && r[i] == ToResponse(repo.books, r[i].id, repo.borrows[r[i].id])
    ensures forall k :: k in repo.borrows ==> ToResponse(repo.books, k, repo.borrows[k]) in r
    ensures forall i, j :: 0 <= i < j < |r| ==> r[i].id < r[j].id
  {
    var books := repo.books;
    var ks := OldestFirst(repo.borrows, repo.nextId, (b: BorrowRecord) => true);
    Project(repo.borrows, ks, (k: Id, b: BorrowRecord) => ToResponse(books, k, b))
  }

  /** `getUserBorrows(userId)`: exactly that user's records, in insertion order. */
  function GetUserBorrows(repo: Repositories, userId: Id): (r: seq<BorrowResponse>)
    reads repo
    requires repo.Wellformed()
    ensures forall i :: 0 <= i < |r| ==>
              && r[i].id in repo.borrows && r[i] == ToResponse(repo.books, r[i].id, repo.borrows[r[i].id])
              && r[i].userId == userId
    ensures forall k :: k in repo.borrows && repo.borrows[k].userId == userId ==>
              ToResponse(repo.books, k, repo.borrows[k]) in r
    ensures forall i, j :: 0 <= i < j < |r| ==> r[i].id < r[j].id
  {
    var books := repo.books;
    var ks := OldestFirst(repo.borrows, repo.nextId, (b: BorrowRecord) => b.userId == userId);
    Project(repo.borrows, ks, (k: Id, b: BorrowRecord) => ToResponse(books, k, b))
  }

  /** `borrowBook`: the checks come in this order: the book exists, a copy is
      available, the user exists, the user holds no open borrow of it. On
      success one copy leaves the shelf and one BORROWED record, due in 14
      days, is added. */
  method BorrowBook(repo: Repositories, req: BorrowRequest, now: Millis) returns (r: Result<BorrowResponse>)
    requires repo.Valid()
    modifies repo
    ensures repo.Valid()
    ensures req.bookId !in old(repo.books) ==> r == Err("Book not found")
    ensures req.bookId in old(repo.books) && old(repo.books[req.bookId]).available <= 0 ==> r == Err("Book is not available")
    ensures (req.bookId in old(repo.books) && old(repo.books[req.bookId]).available > 0 && req.userId !in old(repo.users)) ==>
              r == Err("User not found")
    ensures (req.bookId in old(repo.books) && old(repo.books[req.bookId]).available > 0 && req.userId in old(repo.users)
             && HasOpenBorrow(old(repo.borrows), req.bookId, req.userId)) ==> r == Err("User has already borrowed this book")
    ensures r.Ok? <==> req.bookId in old(repo.books) && old(repo.books[req.bookId]).available > 0
                       && req.userId in old(repo.users) && !HasOpenBorrow(old(repo.borrows), req.bookId, req.userId)
    ensures r.Err? ==> unchanged(repo)
    ensures r.Ok? ==>
              var loan := BorrowRecord(req.bookId, req.userId, req.userName, Some(now), Some(now + LoanPeriodMillis), None, BORROWED);
              && old(repo.nextId) !in old(repo.borrows)
              && repo.borrows == old(repo.borrows)[old(repo.nextId) := loan]
              && repo.books == Lent(old(repo.books), req.bookId)
              && r.value == ToResponse(repo.books, old(repo.nextId), loan)
    ensures repo.users == old(repo.users)
    ensures Conserved(old(repo.books), old(repo.borrows), repo.books, repo.borrows)
    ensures old(NonNegativeAvailable(repo.books)) ==> NonNegativeAvailable(repo.books)
  {
    ghost var books0, borrows0 := repo.books, repo.borrows;
    var found := repo.FindBookById(req.bookId);
    if found.None? {
      return Err("Book not found");
    }
    var book := found.value;
    if book.available <= 0 {
      return Err("Book is not available");
    }
    if req.userId !in repo.users {
      return Err("User not found");
    }
    if HasOpenBorrow(repo.borrows, req.bookId, req.userId) {
      return Err("User has already borrowed this book");
    }
    var borrow := new Borrow(req.bookId, req.userId, req.userName, now);
    var loan := borrow.Record();
    book.available := book.available - 1;
    assert book.Record() == Lent(books0, req.bookId)[req.bookId];
    var _ := repo.SaveBook(book);
    var id := repo.SaveBorrow(borrow);
    assert borrow.Record() == loan;
    assert repo.books == Lent(books0, req.bookId) && repo.borrows == borrows0[id := loan];
    LendKeepsLedger(books0, borrows0, req.bookId, id, loan);
    r := Ok(ToResponse(repo.books, id, loan));
  }

  /** `returnBook`: only a BORROWED record can be returned (a RETURNED or
      OVERDUE one is refused). It becomes RETURNED with today's return date,
      and its book, if it still exists, gets one copy back, with no cap at
      `copies`. */
  method ReturnBook(repo: Repositories, borrowId: Id, now: Millis) returns (r: Result<BorrowResponse>)
    requires repo.Valid()
    modifies repo
    ensures repo.Valid()
    ensures borrowId !in old(repo.borrows) ==> r == Err("Borrow record not found")
    ensures borrowId in old(repo.borrows) && old(repo.borrows[borrowId]).status != BORROWED ==>
              r == Err("Book is not currently borrowed")
    ensures r.Ok? <==> borrowId in old(repo.borrows) && old(repo.borrows[borrowId]).status == BORROWED
    ensures r.Err? ==> unchanged(repo)
    ensures r.Ok? ==>
              var loan := old(repo.borrows[borrowId]);
              var closed := loan.(status := RETURNED, returnDate := Some(now));
              && repo.borrows == old(repo.borrows)[borrowId := closed]
              && repo.books == Restocked(old(repo.books), loan.bookId)
              && r.value == ToResponse(repo.books, borrowId, closed)
    ensures repo.users == old(repo.users) && repo.nextId == old(repo.nextId)
    ensures Conserved(old(repo.books), old(repo.borrows), repo.books, repo.borrows)
    ensures old(NonNegativeAvailable(repo.books)) ==> NonNegativeAvailable(repo.books)
  {
    ghost var books0, borrows0 := repo.books, repo.borrows;
    var found := repo.FindBorrowById(borrowId);
    if found.None? {
      return Err("Borrow record not found");
    }
    var borrow := found.value;
    if borrow.status != BORROWED {
      return Err("Book is not currently borrowed");
    }
    borrow.status := RETURNED;
    borrow.returnDate := Some(now);
    var closed := borrow.Record();
    assert closed == borrows0[borrowId].(status := RETURNED, returnDate := Some(now));
    ghost var restocked := Restocked(books0, closed.bookId);
    var bookOpt := repo.FindBookById(borrow.bookId);
    if bookOpt.Some? {
      var book := bookOpt.value;
      book.available := book.available + 1;
      assert book.Record() == restocked[closed.bookId];
      var bookId := repo.SaveBook(book);
      assert bookId == closed.bookId;
    }
    assert repo.books == restocked;
    var id := repo.SaveBorrow(borrow);
    assert id == borrowId && borrow.Record() == closed;
    ReturnKeepsLedger(books0, borrows0, borrowId, closed);
    r := Ok(ToResponse(repo.books, id, closed));
  }
}
