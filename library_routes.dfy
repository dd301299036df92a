/** server/routes/library.ts: the Express handlers for books, members and
    borrows. Each handler is a method on the shared `Database`; what it
    answers is a `Reply` carrying the HTTP status and either the JSON body
    or the `error` text. The request clock `new Date()` is the parameter `now`. */
module LibraryRoutes {
  import opened Common
  import opened Text
  import opened Listing
  import opened MongooseModels
  import opened JsNumber

  /** The catch-all answer of every handler. */
  const InternalError: string := "Internal server error"

  datatype BookView = BookView(id: Id, title: string, author: string, isbn: string, category: string,
                               copies: int, available: int, description: Option<string>)

  datatype MemberView = MemberView(id: Id, name: string, email: string, phone: string)

  datatype BorrowView = BorrowView(id: Id, bookId: Id, bookTitle: string, userId: Id, userName: string,
                                   borrowedAt: Millis, dueDate: Millis, returnedAt: Option<Millis>,
                                   isOverdue: bool)

  /** The `copies` member of a JSON body: absent, a JSON number, or a JSON string. */
  datatype CopiesField = NoCopies | CopiesNumber(n: int) | CopiesText(text: string)

  /** The request body of `addBook`. */
  datatype BookBody = BookBody(title: string, author: string, isbn: string, category: string,
                               copies: CopiesField, description: Option<string>)

  /** `!copies`: absent, the number 0 and the empty string are falsy. */
  predicate CopiesFalsy(c: CopiesField) {
    c.NoCopies? || c == CopiesNumber(0) || c == CopiesText("")
  }

  /** `parseInt(copies)`: a number reads back as itself, a string is parsed,
      and `None` stands for `NaN`, which the Number cast of the schema refuses. */
  function ParsedCopies(c: CopiesField): (r: Option<int>)
    ensures c.CopiesNumber? ==> r == Some(c.n)
    ensures c.CopiesText? ==> r == ParseInt(c.text)
    ensures c.NoCopies? ==> r.None?
  {
    match c
    case NoCopies => None
    case CopiesNumber(n) => Some(n)
    case CopiesText(t) => ParseInt(t)
  }

  function ViewOfBook(k: Id, b: BookDoc): (v: BookView)
    ensures v.id == k && v.copies == b.copies && v.available == b.available && v.isbn == b.isbn
  {
    BookView(k, b.title, b.author, b.isbn, b.category, b.copies, b.available, b.description)
  }

  /** `phone: member.phone || ''` */
  function ViewOfMember(k: Id, u: UserDoc): (v: MemberView)
    ensures v.id == k && v.email == u.email && v.name == u.name
    ensures u.phone.Some? ==> v.phone == u.phone.value
    ensures u.phone.None? ==> v.phone == ""
  {
    MemberView(k, u.name, u.email, if u.phone.Some? then u.phone.value else "")
  }

  /** A loan is shown overdue while it is open and its due date has passed;
      the stored `isOverdue` flag is not consulted. */
  function ViewOfBorrow(k: Id, r: BorrowDoc, now: Millis): (v: BorrowView)
    ensures v.id == k && v.bookId == r.bookId && v.userId == r.userId && v.returnedAt == r.returnedAt
    ensures v.isOverdue <==> r.returnedAt.None? && r.dueDate < now
  {
    BorrowView(k, r.bookId, r.bookTitle, r.userId, r.userName, r.borrowedAt, r.dueDate, r.returnedAt,
               r.returnedAt.None? && r.dueDate < now)
  }

  /** `!title || !author || !isbn || !category || !copies` */
  predicate MissingBookField(b: BookBody) {
    b.title == "" || b.author == "" || b.isbn == "" || b.category == "" || CopiesFalsy(b.copies)
  }

  /** The document `addBook` builds from the parsed copies: `available` starts
      equal to `copies`. */
  function NewBookDoc(b: BookBody, copies: int): (d: BookDoc)
    ensures d.copies == copies && d.available == copies && d.isbn == b.isbn
    ensures !MissingBookField(b) ==> (BookValidates(d) <==> copies >= 1)
  {
    BookDoc(b.title, b.author, b.isbn, b.category, copies, copies, b.description)
  }

  /** `copies: "0"` is truthy, so it passes the missing-field check, yet it
      parses to 0; so does a string such as "abc", which parses to `NaN`.
      Both reach the save, which refuses them, instead of the 400 answer. */
  lemma TruthyCopiesThatFail(b: BookBody)
    requires b.title != "" && b.author != "" && b.isbn != "" && b.category != ""
    ensures !MissingBookField(b.(copies := CopiesText("0"))) && ParsedCopies(CopiesText("0")) == Some(0)
    ensures !MissingBookField(b.(copies := CopiesText("abc"))) && ParsedCopies(CopiesText("abc")).None?
  {
    ParseIntNumeral(0);
    assert Numeral(0) == "0";
    ParseIntNeedsDigit("abc");
  }

  /** GET /books: every book once, newest first. */
  function GetBooks(db: Database): (r: seq<BookView>)
    reads db
    requires db.Issued()
    ensures forall i :: 0 <= i < |r| ==> r[i].id in db.books && r[i] == ViewOfBook(r[i].id, db.books[r[i].id])
    ensures forall k :: k in db.books ==> ViewOfBook(k, db.books[k]) in r
    ensures forall i, j :: 0 <= i < j < |r| ==> r[i].id > r[j].id
  {
    Project(db.books, NewestFirst(db.books, db.nextId, (b: BookDoc) => true), ViewOfBook)
  }

  predicate IsMemberDoc(u: UserDoc) { u.role == DefaultRole }

  /** GET /members: the users whose role is "member", newest first. */
  function GetMembers(db: Database): (r: seq<MemberView>)
    reads db
    requires db.Issued()
    ensures forall i :: 0 <= i < |r| ==> r[i].id in db.users && IsMemberDoc(db.users[r[i].id])
                                         && r[i] == ViewOfMember(r[i].id, db.users[r[i].id])
    ensures forall k :: k in db.users && IsMemberDoc(db.users[k]) ==> ViewOfMember(k, db.users[k]) in r
    ensures forall i, j :: 0 <= i < j < |r| ==> r[i].id > r[j].id
  {
    Project(db.users, NewestFirst(db.users, db.nextId, IsMemberDoc), ViewOfMember)
  }

  /** GET /loans?memberId=...: a malformed member id is refused; otherwise the
      borrows of that member, or all borrows when none is given. */
  function GetLoans(db: Database, memberId: IdArg, now: Millis): (r: Reply<seq<BorrowView>>)
    reads db
    requires db.Issued()
    ensures memberId.Malformed? <==> r == Failure(400, "Invalid user ID")
    ensures memberId.Absent? ==> r == Success(200, AllLoans(db, now))
    ensures memberId.ObjectId? ==> r == Success(200, LoansOf(db, memberId.id, now))
  {
    match memberId
    case Malformed => Failure(400, "Invalid user ID")
    case Absent => Success(200, AllLoans(db, now))
    case ObjectId(user) => Success(200, LoansOf(db, user, now))
  }

  /** `Borrow.find({}).sort({ createdAt: -1 })`: every borrow, newest first. */
  function AllLoans(db: Database, now: Millis): (r: seq<BorrowView>)
    reads db
    requires db.Issued()
    ensures forall i :: 0 <= i < |r| ==>
              r[i].id in db.borrows && r[i] == ViewOfBorrow(r[i].id, db.borrows[r[i].id], now)
    ensures forall k :: k in db.borrows ==> ViewOfBorrow(k, db.borrows[k], now) in r
    ensures forall i, j :: 0 <= i < j < |r| ==> r[i].id > r[j].id
  {
    Project(db.borrows, NewestFirst(db.borrows, db.nextId, AnyLoan), LoanView(now))
  }

  /** `Borrow.find({ userId }).sort({ createdAt: -1 })`: the member's borrows, newest first. */
  function LoansOf(db: Database, user: Id, now: Millis): (r: seq<BorrowView>)
    reads db
    requires db.Issued()
    ensures forall i :: 0 <= i < |r| ==>
              r[i].id in db.borrows && r[i] == ViewOfBorrow(r[i].id, db.borrows[r[i].id], now)
              && r[i].userId == user
    ensures forall k :: k in db.borrows && db.borrows[k].userId == user ==> ViewOfBorrow(k, db.borrows[k], now) in r
    ensures forall i, j :: 0 <= i < j < |r| ==> r[i].id > r[j].id
  {
    Project(db.borrows, NewestFirst(db.borrows, db.nextId, LoanOf(user)), LoanView(now))
  }

  predicate AnyLoan(d: BorrowDoc) { true }

  function LoanOf(user: Id): BorrowDoc -> bool {
    (d: BorrowDoc) => d.userId == user
  }

  function LoanView(now: Millis): (Id, BorrowDoc) -> BorrowView {
    (k: Id, d: BorrowDoc) => ViewOfBorrow(k, d, now)
  }

  /** POST /books: the missing-field check, then the isbn lookup; only then
      is `copies` parsed, and a value that is `NaN` or below 1 fails the
      validators on save, which the catch answers 500. */
  method AddBook(db: Database, body: BookBody) returns (r: Reply<BookView>)
    requires db.Valid()
    modifies db
    ensures db.Valid()
    ensures MissingBookField(body) ==> r == Failure(400, "Missing required fields")
    ensures !MissingBookField(body) && IsbnTaken(old(db.books), body.isbn) ==>
              r == Failure(409, "Book with this ISBN already exists")
    ensures !MissingBookField(body) && !IsbnTaken(old(db.books), body.isbn)
            && (ParsedCopies(body.copies).None? || ParsedCopies(body.copies).value < 1) ==>
              r == Failure(500, InternalError)
    ensures r.Success? <==> !MissingBookField(body) && !IsbnTaken(old(db.books), body.isbn)
                            && ParsedCopies(body.copies).Some? && ParsedCopies(body.copies).value >= 1
    ensures r.Failure? ==> unchanged(db)
    ensures r.Success? ==>
              var doc := NewBookDoc(body, ParsedCopies(body.copies).value);
              && r.status == 201 && r.body == ViewOfBook(old(db.nextId), doc)
              && db.books == old(db.books)[old(db.nextId) := doc]
              && db.users == old(db.users) && db.borrows == old(db.borrows)
  {
    if MissingBookField(body) {
      return Failure(400, "Missing required fields");
    }
    if IsbnTaken(db.books, body.isbn) {
      return Failure(409, "Book with this ISBN already exists");
    }
    var parsed := ParsedCopies(body.copies);
    if parsed.None? {
      return Failure(500, InternalError);
    }
    var doc := NewBookDoc(body, parsed.value);
    var saved := db.InsertBook(doc);
    if saved.Err? {
      return Failure(500, InternalError);
    }
    r := Success(201, ViewOfBook(saved.value, doc));
  }

  /** PUT /books/:id: the fields of the body are `$set` as sent, so `copies`
      and `available` may be changed independently of the loans. */
  method UpdateBook(db: Database, id: IdArg, patch: BookPatch) returns (r: Reply<BookView>)
    requires db.Valid()
    modifies db
    ensures db.Valid()
    ensures !id.ObjectId? ==> r == Failure(400, "Invalid book ID")
    ensures id.ObjectId? && !PatchValidates(patch) ==> r == Failure(500, InternalError)
    ensures id.ObjectId? && PatchValidates(patch) && id.id !in old(db.books) ==> r == Failure(404, "Book not found")
    ensures (id.ObjectId? && PatchValidates(patch) && id.id in old(db.books) && patch.isbn.Some?
             && IsbnTakenByOther(old(db.books), patch.isbn.value, id.id)) ==> r == Failure(500, InternalError)
    ensures r.Failure? ==> unchanged(db)
    ensures r.Success? ==>
              && id.ObjectId? && id.id in old(db.books) && r.status == 200
              && db.books == old(db.books)[id.id := ApplyPatch(old(db.books[id.id]), patch)]
              && r.body == ViewOfBook(id.id, db.books[id.id])
    ensures db.users == old(db.users) && db.borrows == old(db.borrows)
    ensures patch.available.None? ==> Conserved(old(db.books), old(db.borrows), db.books, db.borrows)
  {
    if !id.ObjectId? {
      return Failure(400, "Invalid book ID");
    }
    var updated := db.UpdateBook(id.id, patch);
    if updated.Err? {
      return Failure(500, InternalError);
    }
    if updated.value.None? {
      return Failure(404, "Book not found");
    }
    r := Success(200, ViewOfBook(id.id, updated.value.value));
  }

  /** DELETE /books/:id: the open-loan check comes before the existence check. */
  method DeleteBook(db: Database, id: IdArg) returns (r: Reply<string>)
    requires db.Valid()
    modifies db
    ensures db.Valid()
    ensures !id.ObjectId? ==> r == Failure(400, "Invalid book ID")
    ensures id.ObjectId? && HasOpenLoanOfBook(old(db.borrows), id.id) ==>
              r == Failure(400, "Cannot delete book with active borrows")
    ensures id.ObjectId? && !HasOpenLoanOfBook(old(db.borrows), id.id) && id.id !in old(db.books) ==>
              r == Failure(404, "Book not found")
    ensures r.Success? <==> id.ObjectId? && !HasOpenLoanOfBook(old(db.borrows), id.id) && id.id in old(db.books)
    ensures r.Success? ==> r == Success(200, "Book deleted successfully") && db.books == old(db.books) - {id.id}
    ensures r.Failure? ==> db.books == old(db.books)
    ensures db.users == old(db.users) && db.borrows == old(db.borrows) && db.nextId == old(db.nextId)
  {
    if !id.ObjectId? {
      return Failure(400, "Invalid book ID");
    }
    if HasOpenLoanOfBook(db.borrows, id.id) {
      return Failure(400, "Cannot delete book with active borrows");
    }
    var deleted := db.DeleteBook(id.id);
    if deleted.None? {
      return Failure(404, "Book not found");
    }
    r := Success(200, "Book deleted successfully");
  }

  /** The user `addMember` builds, as written: no username is given. */
  function MemberDocAsWritten(name: string, email: string, phone: Option<string>, hash: string): (u: UserDoc)
    ensures !UserValidates(u)
  {
    NewUser("", name, email, hash, Some("member"), phone)
  }

  /** POST /members, as written: the new user has no `username`, which the
      schema requires, so `save()` always throws and nothing is ever stored. */
  method AddMember(db: Database, name: string, email: string, phone: Option<string>, hash: string)
    returns (r: Reply<MemberView>)
    requires db.Valid()
    modifies db
    ensures db.Valid()
    ensures name == "" || email == "" ==> r == Failure(400, "Name and email are required")
    ensures name != "" && email != "" && EmailTaken(old(db.users), email) ==>
              r == Failure(409, "User with this email already exists")
    ensures name != "" && email != "" && !EmailTaken(old(db.users), email) ==> r == Failure(500, InternalError)
    ensures r.Failure? && unchanged(db)
  {
    if name == "" || email == "" {
      return Failure(400, "Name and email are required");
    }
    if EmailTaken(db.users, email) {
      return Failure(409, "User with this email already exists");
    }
    var saved := db.InsertUser(MemberDocAsWritten(name, email, phone, hash));
    assert saved.Err?;
    r := Failure(500, InternalError);
  }

  /** The user a corrected `addMember` builds: the lower-cased email doubles
      as the username. */
  function MemberDoc(name: string, email: string, phone: Option<string>, hash: string): (u: UserDoc)
    ensures name != "" && email != "" && hash != "" ==> UserValidates(u)
    ensures u.username == Lower(email) && u.email == Lower(email) && u.role == "member"
    ensures u.name == name && u.password == hash && u.phone == phone
  {
    NewUser(Lower(email), name, email, hash, Some("member"), phone)
  }

  /** POST /members with a username supplied: a new member is stored unless
      the email, or the username derived from it, is already in use. */
  method CorrectedAddMember(db: Database, name: string, email: string, phone: Option<string>, hash: string)
    returns (r: Reply<MemberView>)
    requires db.Valid() && hash != ""
    modifies db
    ensures db.Valid()
    ensures name == "" || email == "" ==> r == Failure(400, "Name and email are required")
    ensures name != "" && email != "" && EmailTaken(old(db.users), email) ==>
              r == Failure(409, "User with this email already exists")
    ensures r.Success? <==> name != "" && email != "" && !EmailTaken(old(db.users), email)
                            && !UsernameTaken(old(db.users), Lower(email))
    ensures r.Failure? ==> unchanged(db)
    ensures r.Success? ==>
              && r.status == 201 && r.body.id == old(db.nextId)
              && db.users == old(db.users)[old(db.nextId) := MemberDoc(name, email, phone, hash)]
              && r.body == ViewOfMember(old(db.nextId), MemberDoc(name, email, phone, hash))
              && db.books == old(db.books) && db.borrows == old(db.borrows)
  {
    if name == "" || email == "" {
      return Failure(400, "Name and email are required");
    }
    if EmailTaken(db.users, email) {
      return Failure(409, "User with this email already exists");
    }
    var doc := MemberDoc(name, email, phone, hash);
    LowerIdempotent(email);
    var saved := db.InsertUser(doc);
    if saved.Err? {
      return Failure(500, InternalError);
    }
    r := Success(201, ViewOfMember(saved.value, doc));
  }

  /** DELETE /members/:id: refuses a member with open loans; otherwise removes
      the user and every borrow record of theirs. */
  method DeleteMember(db: Database, id: IdArg) returns (r: Reply<string>)
    requires db.Valid()
    modifies db
    ensures db.Valid()
    ensures id.Absent? ==> r == Failure(400, "User ID is required")
    ensures id.Malformed? ==> r == Failure(500, InternalError)
    ensures id.ObjectId? && id.id !in old(db.users) ==> r == Failure(404, "User not found")
    ensures id.ObjectId? && id.id in old(db.users) && HasOpenLoanOfUser(old(db.borrows), id.id) ==>
              r == Failure(400, "Cannot delete user with active borrows. Please return all books first.")
    ensures r.Success? <==> id.ObjectId? && id.id in old(db.users) && !HasOpenLoanOfUser(old(db.borrows), id.id)
    ensures r.Failure? ==> unchanged(db)
    ensures r.Success? ==>
              && r == Success(200, "User and associated borrow history deleted successfully")
              && db.users == old(db.users) - {id.id}
              && db.borrows == BorrowsNotOf(old(db.borrows), id.id)
              && db.books == old(db.books)
  {
    if id.Absent? {
      return Failure(400, "User ID is required");
    }
    if id.Malformed? {
      return Failure(500, InternalError);
    }
    if id.id !in db.users {
      return Failure(404, "User not found");
    }
    if HasOpenLoanOfUser(db.borrows, id.id) {
      return Failure(400, "Cannot delete user with active borrows. Please return all books first.");
    }
    db.DeleteUser(id.id);
    db.DeleteBorrowsOf(id.id);
    r := Success(200, "User and associated borrow history deleted successfully");
  }

  /** Removing only returned borrows leaves every book's open loans alone. */
  lemma OpenLoansIgnoreReturned(borrows: map<Id, BorrowDoc>, user: Id, book: Id)
    requires !HasOpenLoanOfUser(borrows, user)
    ensures OpenLoans(BorrowsNotOf(borrows, user), book) == OpenLoans(borrows, book)
  {
  }

  /** POST /loans: lends one copy for 14 days to the member named by id. The
      title and the borrower's name are copied from the stored records;
      `memberName` from the body is only checked for presence. */
  method BorrowBook(db: Database, bookId: IdArg, memberId: IdArg, memberName: string, now: Millis)
    returns (r: Reply<BorrowView>)
    requires db.Valid()
    modifies db
    ensures db.Valid()
    ensures bookId.Absent? || memberId.Absent? || memberName == "" ==> r == Failure(400, "Missing required fields")
    ensures !(bookId.Absent? || memberId.Absent? || memberName == "") && bookId.Malformed? ==>
              r == Failure(400, "Invalid book ID")
    ensures (!memberId.Absent? && memberName != "" && bookId.ObjectId? && bookId.id !in old(db.books)) ==>
              r == Failure(404, "Book not found")
    ensures (!memberId.Absent? && memberName != "" && bookId.ObjectId? && bookId.id in old(db.books)
             && old(db.books[bookId.id]).available <= 0) ==> r == Failure(400, "Book is not available")
    ensures (memberName != "" && bookId.ObjectId? && bookId.id in old(db.books)
             && old(db.books[bookId.id]).available > 0 && memberId.Malformed?) ==> r == Failure(500, InternalError)
    ensures (memberName != "" && bookId.ObjectId? && bookId.id in old(db.books)
             && old(db.books[bookId.id]).available > 0 && memberId.ObjectId? && memberId.id !in old(db.users)) ==>
              r == Failure(400, "User not found. Please contact admin.")
    ensures r.Success? <==> memberName != "" && bookId.ObjectId? && bookId.id in old(db.books)
                            && old(db.books[bookId.id]).available > 0
                            && memberId.ObjectId? && memberId.id in old(db.users)
    ensures r.Failure? ==> unchanged(db)
    ensures r.Success? ==>
              var loan := NewBorrow(bookId.id, old(db.books[bookId.id]).title, memberId.id,
                                    old(db.users[memberId.id]).name, Some(now), now + LoanPeriodMillis, now);
              && r.status == 201 && r.body == ViewOfBorrow(old(db.nextId), loan, now) && !r.body.isOverdue
              && db.borrows == old(db.borrows)[old(db.nextId) := loan]
              && db.books == Lent(old(db.books), bookId.id)
              && db.users == old(db.users)
    ensures Conserved(old(db.books), old(db.borrows), db.books, db.borrows)
  {
    if bookId.Absent? || memberId.Absent? || memberName == "" {
      return Failure(400, "Missing required fields");
    }
    if !bookId.ObjectId? {
      return Failure(400, "Invalid book ID");
    }
    if bookId.id !in db.books {
      return Failure(404, "Book not found");
    }
    var book := db.books[bookId.id];
    if book.available <= 0 {
      return Failure(400, "Book is not available");
    }
    if memberId.Malformed? {
      return Failure(500, InternalError);
    }
    if memberId.id !in db.users {
      return Failure(400, "User not found. Please contact admin.");
    }
    var user := db.users[memberId.id];
    var loan := NewBorrow(bookId.id, book.title, memberId.id, user.name, Some(now), now + LoanPeriodMillis, now);
    var k := SaveLoan(db, loan);
    r := Success(201, ViewOfBorrow(k, loan, now));
  }

  /** The two writes of a loan: the borrow document is saved, then its book
      with one copy fewer. Neither can fail: the copied title and name passed
      the validators when their documents were stored. */
  method SaveLoan(db: Database, loan: BorrowDoc) returns (k: Id)
    requires db.Valid() && loan.bookId in db.books && loan.userId in db.users && IsOpen(loan)
    requires db.books[loan.bookId].available > 0
    requires loan.bookTitle == db.books[loan.bookId].title && loan.userName == db.users[loan.userId].name
    modifies db
    ensures db.Valid()
    ensures k == old(db.nextId) && k !in old(db.borrows)
    ensures db.borrows == old(db.borrows)[k := loan]
    ensures db.books == Lent(old(db.books), loan.bookId)
    ensures db.users == old(db.users)
    ensures Conserved(old(db.books), old(db.borrows), db.books, db.borrows)
  {
    ghost var books0, borrows0 := db.books, db.borrows;
    var saved := db.InsertBorrow(loan);
    assert saved.Ok?;
    var book := db.books[loan.bookId];
    var replaced := db.ReplaceBook(loan.bookId, book.(available := book.available - 1));
    assert replaced.Ok?;
    assert db.books == Lent(books0, loan.bookId) && db.borrows == borrows0[saved.value := loan];
    LendConserves(books0, borrows0, loan.bookId, saved.value, loan);
    k := saved.value;
  }

  /** PUT /loans/:id/return: closes an open loan and gives the copy back to
      its book when the book still exists; `available` is not capped by `copies`. */
  method ReturnBook(db: Database, id: IdArg, now: Millis) returns (r: Reply<BorrowView>)
    requires db.Valid()
    modifies db
    ensures db.Valid()
    ensures !id.ObjectId? ==> r == Failure(400, "Invalid borrow ID")
    ensures id.ObjectId? && id.id !in old(db.borrows) ==> r == Failure(404, "Borrow record not found")
    ensures id.ObjectId? && id.id in old(db.borrows) && old(db.borrows[id.id]).returnedAt.Some? ==>
              r == Failure(400, "Book already returned")
    ensures r.Success? <==> id.ObjectId? && id.id in old(db.borrows) && old(db.borrows[id.id]).returnedAt.None?
    ensures r.Failure? ==> unchanged(db)
    ensures r.Success? ==>
              var loan := old(db.borrows[id.id]);
              && r.status == 200 && r.body.id == id.id && r.body.returnedAt == Some(now) && !r.body.isOverdue
              && db.borrows == old(db.borrows)[id.id := loan.(returnedAt := Some(now))]
              && db.books == Restocked(old(db.books), loan.bookId)
    ensures db.users == old(db.users)
    ensures Conserved(old(db.books), old(db.borrows), db.books, db.borrows)
  {
    if !id.ObjectId? {
      return Failure(400, "Invalid borrow ID");
    }
    if id.id !in db.borrows {
      return Failure(404, "Borrow record not found");
    }
    var loan := db.borrows[id.id];
    if loan.returnedAt.Some? {
      return Failure(400, "Book already returned");
    }
    var closed := loan.(returnedAt := Some(now));
    SaveReturn(db, id.id, now);
    r := Success(200, ViewOfBorrow(id.id, closed, now));
  }

  /** The writes of a return: the borrow gets its `returnedAt`, then its book,
      if it still exists, one copy back. */
  method SaveReturn(db: Database, k: Id, now: Millis)
    requires db.Valid() && k in db.borrows && IsOpen(db.borrows[k])
    modifies db
    ensures db.Valid()
    ensures db.borrows == old(db.borrows)[k := old(db.borrows[k]).(returnedAt := Some(now))]
    ensures db.books == Restocked(old(db.books), old(db.borrows[k]).bookId)
    ensures db.users == old(db.users)
    ensures Conserved(old(db.books), old(db.borrows), db.books, db.borrows)
  {
    ghost var books0, borrows0 := db.books, db.borrows;
    var loan := db.borrows[k];
    var saved := db.ReplaceBorrow(k, loan.(returnedAt := Some(now)));
    assert saved.Ok?;
    if loan.bookId in db.books {
      var book := db.books[loan.bookId];
      var replaced := db.ReplaceBook(loan.bookId, book.(available := book.available + 1));
      assert replaced.Ok?;
    }
    assert db.books == Restocked(books0, loan.bookId) && db.borrows == borrows0[k := loan.(returnedAt := Some(now))];
    ReturnConserves(books0, borrows0, k, now);
  }
}
