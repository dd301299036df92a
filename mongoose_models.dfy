/** server/models/index.ts: the three Mongoose collections of the Express
    backend, the defaults and setters the schemas apply when a document is
    built, and what `save()` and `findByIdAndUpdate(..., { runValidators })`
    check before they write (required fields, `min`, `enum`, unique indexes). */
module MongooseModels {
  import opened Common
  import opened Text

  /** A route or query parameter naming a document: missing (or the empty
      string), a string `mongoose.Types.ObjectId.isValid` rejects, or an ObjectId. */
  datatype IdArg = Absent | Malformed | ObjectId(id: Id)

  datatype UserDoc = UserDoc(username: string, name: string, email: string, password: string,
                             role: string, phone: Option<string>)

  datatype BookDoc = BookDoc(title: string, author: string, isbn: string, category: string,
                             copies: int, available: int, description: Option<string>)

  datatype BorrowDoc = BorrowDoc(bookId: Id, bookTitle: string, userId: Id, userName: string,
                                 borrowedAt: Millis, dueDate: Millis, returnedAt: Option<Millis>,
                                 isOverdue: bool)

  /** `$set` of some of a book's fields. */
  datatype BookPatch = BookPatch(title: Option<string>, author: Option<string>, isbn: Option<string>,
                                 category: Option<string>, copies: Option<int>, available: Option<int>,
                                 description: Option<string>)

  const DefaultRole: string := "member"
  const ValidationError: string := "ValidationError"
  const DuplicateKey: string := "E11000 duplicate key error"

  /** `enum: ['admin', 'member']` */
  predicate IsRole(role: string) { role == "admin" || role == "member" }

  /** `new User({...})`: the email goes through the `lowercase` setter and a
      missing role takes the default "member"; everything else is kept as given. */
  function NewUser(username: string, name: string, email: string, password: string,
                   role: Option<string>, phone: Option<string>): (u: UserDoc)
    ensures u.email == Lower(email) && Lower(u.email) == u.email
    ensures role.None? ==> u.role == DefaultRole
    ensures role.Some? ==> u.role == role.value
    ensures u.username == username && u.name == name && u.password == password && u.phone == phone
  {
    LowerIdempotent(email);
    UserDoc(username, name, Lower(email), password, if role.Some? then role.value else DefaultRole, phone)
  }

  /** `new Borrow({...})`: `borrowedAt` defaults to the current time,
      `isOverdue` to false, and `returnedAt` starts absent. */
  function NewBorrow(bookId: Id, bookTitle: string, userId: Id, userName: string,
                     borrowedAt: Option<Millis>, dueDate: Millis, now: Millis): (r: BorrowDoc)
    ensures borrowedAt.None? ==> r.borrowedAt == now
    ensures borrowedAt.Some? ==> r.borrowedAt == borrowedAt.value
    ensures r.returnedAt.None? && !r.isOverdue
    ensures r.bookId == bookId && r.bookTitle == bookTitle && r.userId == userId
    ensures r.userName == userName && r.dueDate == dueDate
  {
    BorrowDoc(bookId, bookTitle, userId, userName,
              if borrowedAt.Some? then borrowedAt.value else now, dueDate, None, false)
  }

  /** The validators of the User schema (`required`, `enum`). Mongoose's
      `required` rejects the empty string. */
  predicate UserValidates(u: UserDoc) {
    u.username != "" && u.name != "" && u.email != "" && u.password != "" && IsRole(u.role)
  }

  /** The validators of the Book schema: required text, `copies >= 1`, `available >= 0`. */
  predicate BookValidates(b: BookDoc) {
    b.title != "" && b.author != "" && b.isbn != "" && b.category != ""
    && b.copies >= 1 && b.available >= 0
  }

  /** The validators of the Borrow schema (the ids and `dueDate` are always present here). */
  predicate BorrowValidates(r: BorrowDoc) {
    r.bookTitle != "" && r.userName != ""
  }

  /** Update validators run only on the paths being set. */
  predicate PatchValidates(p: BookPatch) {
    && (p.title.Some? ==> p.title.value != "")
    && (p.author.Some? ==> p.author.value != "")
    && (p.isbn.Some? ==> p.isbn.value != "")
    && (p.category.Some? ==> p.category.value != "")
    && (p.copies.Some? ==> p.copies.value >= 1)
    && (p.available.Some? ==> p.available.value >= 0)
  }

  /** `$set`: each field present in the patch replaces the stored one, verbatim. */
  function ApplyPatch(b: BookDoc, p: BookPatch): (r: BookDoc)
    ensures BookValidates(b) && PatchValidates(p) ==> BookValidates(r)
    ensures p == BookPatch(None, None, None, None, None, None, None) ==> r == b
    ensures p.copies.Some? ==> r.copies == p.copies.value
    ensures p.copies.None? ==> r.copies == b.copies
    ensures p.available.Some? ==> r.available == p.available.value
    ensures p.available.None? ==> r.available == b.available
  {
    BookDoc(if p.title.Some? then p.title.value else b.title,
            if p.author.Some? then p.author.value else b.author,
            if p.isbn.Some? then p.isbn.value else b.isbn,
            if p.category.Some? then p.category.value else b.category,
            if p.copies.Some? then p.copies.value else b.copies,
            if p.available.Some? then p.available.value else b.available,
            if p.description.Some? then p.description else b.description)
  }

  predicate IsbnTaken(books: map<Id, BookDoc>, isbn: string) {
    exists k :: k in books && books[k].isbn == isbn
  }

  predicate IsbnTakenByOther(books: map<Id, BookDoc>, isbn: string, self: Id) {
    exists k :: k in books && k != self && books[k].isbn == isbn
  }

  /** A lookup `findOne({ email })`: the `lowercase` setter is applied to the
      query value too, so it matches the stored lower-case form. */
  predicate EmailTaken(users: map<Id, UserDoc>, email: string) {
    exists k :: k in users && users[k].email == Lower(email)
  }

  predicate UsernameTaken(users: map<Id, UserDoc>, username: string) {
    exists k :: k in users && users[k].username == username
  }

  /** The `unique: true` indexes. */
  predicate UniqueIsbns(books: map<Id, BookDoc>) {
    forall j, k :: j in books && k in books && books[j].isbn == books[k].isbn ==> j == k
  }

  predicate UniqueEmails(users: map<Id, UserDoc>) {
    forall j, k :: j in users && k in users && users[j].email == users[k].email ==> j == k
  }

  predicate UniqueUsernames(users: map<Id, UserDoc>) {
    forall j, k :: j in users && k in users && users[j].username == users[k].username ==> j == k
  }

  /** A user whose email and username are both free keeps both indexes unique. */
  lemma InsertFreshUser(users: map<Id, UserDoc>, k: Id, u: UserDoc)
    requires UniqueEmails(users) && UniqueUsernames(users) && k !in users
    requires u.email == Lower(u.email) && !EmailTaken(users, u.email) && !UsernameTaken(users, u.username)
    ensures UniqueEmails(users[k := u]) && UniqueUsernames(users[k := u])
  {
  }

  /** A borrow is open while `returnedAt` is absent. */
  predicate IsOpen(r: BorrowDoc) { r.returnedAt.None? }

  /** The open borrows of one book. */
  function OpenLoans(borrows: map<Id, BorrowDoc>, book: Id): set<Id> {
    set k | k in borrows && borrows[k].bookId == book && IsOpen(borrows[k])
  }

  /** `Borrow.findOne({ bookId, returnedAt: { $exists: false } })` finds something. */
  predicate HasOpenLoanOfBook(borrows: map<Id, BorrowDoc>, book: Id) {
    exists k :: k in borrows && borrows[k].bookId == book && IsOpen(borrows[k])
  }

  /** `Borrow.find({ userId, returnedAt: { $exists: false } })` is non-empty. */
  predicate HasOpenLoanOfUser(borrows: map<Id, BorrowDoc>, user: Id) {
    exists k :: k in borrows && borrows[k].userId == user && IsOpen(borrows[k])
  }

  /** Inserting an open borrow adds one open loan to its book and none to the others. */
  lemma OpenLoansAfterInsert(borrows: map<Id, BorrowDoc>, k: Id, r: BorrowDoc, book: Id)
    requires k !in borrows && IsOpen(r)
    ensures |OpenLoans(borrows[k := r], book)| == |OpenLoans(borrows, book)| + (if r.bookId == book then 1 else 0)
  {
    if r.bookId == book {
      assert OpenLoans(borrows[k := r], book) == OpenLoans(borrows, book) + {k};
    } else {
      assert OpenLoans(borrows[k := r], book) == OpenLoans(borrows, book);
    }
  }

  /** Closing an open borrow takes one open loan from its book and none from the others. */
  lemma OpenLoansAfterClose(borrows: map<Id, BorrowDoc>, k: Id, t: Millis, book: Id)
    requires k in borrows && IsOpen(borrows[k])
    ensures |OpenLoans(borrows[k := borrows[k].(returnedAt := Some(t))], book)|
            == |OpenLoans(borrows, book)| - (if borrows[k].bookId == book then 1 else 0)
  {
    var after := borrows[k := borrows[k].(returnedAt := Some(t))];
    if borrows[k].bookId == book {
      assert OpenLoans(after, book) == OpenLoans(borrows, book) - {k};
    } else {
      assert OpenLoans(after, book) == OpenLoans(borrows, book);
    }
  }

  /** For every book present before and after, `available` plus its open
      borrows is the same number. */
  ghost predicate Conserved(books0: map<Id, BookDoc>, borrows0: map<Id, BorrowDoc>,
                            books1: map<Id, BookDoc>, borrows1: map<Id, BorrowDoc>) {
    forall b :: b in books0 && b in books1 ==>
      books1[b].available + |OpenLoans(borrows1, b)| == books0[b].available + |OpenLoans(borrows0, b)|
  }

  /** The catalog after one copy of book `b` leaves the shelf. */
  function Lent(books: map<Id, BookDoc>, b: Id): (r: map<Id, BookDoc>)
    requires b in books
    ensures r.Keys == books.Keys
    ensures r[b] == books[b].(available := books[b].available - 1)
    ensures forall c :: c in books && c != b ==> r[c] == books[c]
  {
    books[b := books[b].(available := books[b].available - 1)]
  }

  /** The catalog after one copy of book `b` comes back: `available` grows by
      one if the book is still there, and nothing changes otherwise. */
  function Restocked(books: map<Id, BookDoc>, b: Id): (r: map<Id, BookDoc>)
    ensures r.Keys == books.Keys
    ensures b in books ==> r[b] == books[b].(available := books[b].available + 1)
    ensures forall c :: c in books && c != b ==> r[c] == books[c]
  {
    if b in books then books[b := books[b].(available := books[b].available + 1)] else books
  }

  /** Lending a copy of `b` under a fresh open borrow conserves the ledger. */
  lemma LendConserves(books: map<Id, BookDoc>, borrows: map<Id, BorrowDoc>, b: Id, k: Id, loan: BorrowDoc)
    requires b in books && k !in borrows && loan.bookId == b && IsOpen(loan)
    ensures Conserved(books, borrows, Lent(books, b), borrows[k := loan])
  {
    forall c | c in books && c in Lent(books, b)
      ensures Lent(books, b)[c].available + |OpenLoans(borrows[k := loan], c)| == books[c].available + |OpenLoans(borrows, c)|
    {
      OpenLoansAfterInsert(borrows, k, loan, c);
    }
  }

  /** Closing the open borrow `k` and restocking its book conserves the ledger. */
  lemma ReturnConserves(books: map<Id, BookDoc>, borrows: map<Id, BorrowDoc>, k: Id, t: Millis)
    requires k in borrows && IsOpen(borrows[k])
    ensures Conserved(books, borrows, Restocked(books, borrows[k].bookId), borrows[k := borrows[k].(returnedAt := Some(t))])
  {
    var books1 := Restocked(books, borrows[k].bookId);
    forall c | c in books && c in books1
      ensures books1[c].available + |OpenLoans(borrows[k := borrows[k].(returnedAt := Some(t))], c)|
              == books[c].available + |OpenLoans(borrows, c)|
    {
      OpenLoansAfterClose(borrows, k, t, c);
    }
  }

  /** The borrows left after `Borrow.deleteMany({ userId: user })`. */
  function BorrowsNotOf(borrows: map<Id, BorrowDoc>, user: Id): (r: map<Id, BorrowDoc>)
    ensures forall k :: k in r <==> k in borrows && borrows[k].userId != user
    ensures forall k :: k in r ==> r[k] == borrows[k]
  {
    map k | k in borrows && borrows[k].userId != user :: borrows[k]
  }

  /** The accounting identity `available + open borrows == copies` of one book. */
  ghost predicate Balanced(books: map<Id, BookDoc>, borrows: map<Id, BorrowDoc>, b: Id)
    requires b in books
  {
    books[b].available + |OpenLoans(borrows, b)| == books[b].copies
  }

  /** A step that conserves the sum and keeps `copies` keeps every balanced book balanced. */
  lemma ConservedKeepsBalance(books0: map<Id, BookDoc>, borrows0: map<Id, BorrowDoc>,
                              books1: map<Id, BookDoc>, borrows1: map<Id, BorrowDoc>, b: Id)
    requires Conserved(books0, borrows0, books1, borrows1)
    requires b in books0 && b in books1 && books1[b].copies == books0[b].copies
    requires Balanced(books0, borrows0, b)
    ensures Balanced(books1, borrows1, b)
  {
  }

  /** The connected database: the users, books and borrows collections. */
  class Database {
    var users: map<Id, UserDoc>
    var books: map<Id, BookDoc>
    var borrows: map<Id, BorrowDoc>
    var nextId: Id

    /** Every stored id was handed out by the counter. */
    ghost predicate Issued()
      reads this
    {
      && (forall k :: k in users ==> k < nextId)
      && (forall k :: k in books ==> k < nextId)
      && (forall k :: k in borrows ==> k < nextId)
    }

    /** What every write keeps: ids come from the counter, borrows refer to
        issued ids, every stored document passed its schema's validators,
        emails are stored lower-case, and the unique indexes hold. */
    ghost predicate Valid()
      reads this
    {
      && Issued()
      && (forall k :: k in borrows ==> borrows[k].bookId < nextId && borrows[k].userId < nextId)
      && (forall k :: k in users ==> UserValidates(users[k]) && users[k].email == Lower(users[k].email))
      && (forall k :: k in books ==> BookValidates(books[k]))
      && (forall k :: k in borrows ==> BorrowValidates(borrows[k]))
      && UniqueIsbns(books) && UniqueEmails(users) && UniqueUsernames(users)
    }

    constructor ()
      ensures Valid()
      ensures users == map[] && books == map[] && borrows == map[] && nextId == 0
    {
      users, books, borrows, nextId := map[], map[], map[], 0;
    }

    /** `new Book({...}).save()`: the validators, then the unique index on isbn. */
    method InsertBook(doc: BookDoc) returns (r: Result<Id>)
      requires Valid()
      modifies this
      ensures Valid()
      ensures !BookValidates(doc) ==> r == Err(ValidationError)
      ensures BookValidates(doc) && IsbnTaken(old(books), doc.isbn) ==> r == Err(DuplicateKey)
      ensures r.Ok? <==> BookValidates(doc) && !IsbnTaken(old(books), doc.isbn)
      ensures r.Err? ==> unchanged(this)
      ensures r.Ok? ==> r.value == old(nextId) && r.value !in old(books) && nextId == old(nextId) + 1
      ensures r.Ok? ==> books == old(books)[r.value := doc] && users == old(users) && borrows == old(borrows)
    {
      if !BookValidates(doc) {
        return Err(ValidationError);
      }
      if IsbnTaken(books, doc.isbn) {
        return Err(DuplicateKey);
      }
      var id := nextId;
      books := books[id := doc];
      nextId := nextId + 1;
      r := Ok(id);
    }

    /** `book.save()` of a book that was read from the collection. */
    method ReplaceBook(id: Id, doc: BookDoc) returns (r: Result<Id>)
      requires Valid() && id in books
      modifies this
      ensures Valid()
      ensures r.Ok? <==> BookValidates(doc) && !IsbnTakenByOther(old(books), doc.isbn, id)
      ensures r.Err? ==> unchanged(this)
      ensures r.Ok? ==> r.value == id && books == old(books)[id := doc]
      ensures users == old(users) && borrows == old(borrows) && nextId == old(nextId)
    {
      if !BookValidates(doc) {
        return Err(ValidationError);
      }
      if IsbnTakenByOther(books, doc.isbn, id) {
        return Err(DuplicateKey);
      }
      books := books[id := doc];
      r := Ok(id);
    }

    /** `Book.findByIdAndUpdate(id, { $set: patch }, { new: true, runValidators: true })`:
        the update validators run first; an unknown id gives null (None); a clash
        on the isbn index throws; otherwise the updated document is returned. */
    method UpdateBook(id: Id, patch: BookPatch) returns (r: Result<Option<BookDoc>>)
      requires Valid()
      modifies this
      ensures Valid()
      ensures !PatchValidates(patch) ==> r == Err(ValidationError)
      ensures PatchValidates(patch) && id !in old(books) ==> r == Ok(None)
      ensures (PatchValidates(patch) && id in old(books) && patch.isbn.Some?
               && IsbnTakenByOther(old(books), patch.isbn.value, id)) ==> r == Err(DuplicateKey)
      ensures r.Ok? && r.value.Some? ==>
              id in old(books) && books == old(books)[id := ApplyPatch(old(books[id]), patch)]
              && r.value.value == books[id]
      ensures !(r.Ok? && r.value.Some?) ==> unchanged(this)
      ensures users == old(users) && borrows == old(borrows) && nextId == old(nextId)
    {
      if !PatchValidates(patch) {
        return Err(ValidationError);
      }
      if id !in books {
        return Ok(None);
      }
      var updated := ApplyPatch(books[id], patch);
      if IsbnTakenByOther(books, updated.isbn, id) {
        return Err(DuplicateKey);
      }
      books := books[id := updated];
      r := Ok(Some(updated));
    }

    /** `Book.findByIdAndDelete(id)`: the deleted document, or None when there is none. */
    method DeleteBook(id: Id) returns (deleted: Option<BookDoc>)
      requires Valid()
      modifies this`books
      ensures Valid()
      ensures id in old(books) ==> deleted == Some(old(books[id]))
      ensures id !in old(books) ==> deleted.None?
      ensures books == old(books) - {id}
    {
      deleted := if id in books then Some(books[id]) else None;
      books := books - {id};
    }

    /** `new User({...}).save()`: the validators, then the unique indexes on
        username and email. */
    method InsertUser(doc: UserDoc) returns (r: Result<Id>)
      requires Valid() && doc.email == Lower(doc.email)
      modifies this
      ensures Valid()
      ensures !UserValidates(doc) ==> r == Err(ValidationError)
      ensures r.Ok? <==> UserValidates(doc) && !EmailTaken(old(users), doc.email)
                         && !UsernameTaken(old(users), doc.username)
      ensures r.Err? ==> unchanged(this)
      ensures r.Ok? ==> r.value == old(nextId) && r.value !in old(users) && nextId == old(nextId) + 1
      ensures r.Ok? ==> users == old(users)[r.value := doc] && books == old(books) && borrows == old(borrows)
    {
      if !UserValidates(doc) {
        return Err(ValidationError);
      }
      if EmailTaken(users, doc.email) || UsernameTaken(users, doc.username) {
        return Err(DuplicateKey);
      }
      var id := nextId;
      InsertFreshUser(users, id, doc);
      users := users[id := doc];
      nextId := nextId + 1;
      r := Ok(id);
    }

    /** `User.findByIdAndDelete(id)` */
    method DeleteUser(id: Id)
      requires Valid()
      modifies this`users
      ensures Valid()
      ensures users == old(users) - {id}
    {
      users := users - {id};
    }

    /** `new Borrow({...}).save()` with ids already looked up in this database. */
    method InsertBorrow(doc: BorrowDoc) returns (r: Result<Id>)
      requires Valid() && doc.bookId < nextId && doc.userId < nextId
      modifies this
      ensures Valid()
      ensures r.Ok? <==> BorrowValidates(doc)
      ensures r.Err? ==> unchanged(this)
      ensures r.Ok? ==> r.value == old(nextId) && r.value !in old(borrows) && nextId == old(nextId) + 1
      ensures r.Ok? ==> borrows == old(borrows)[r.value := doc] && books == old(books) && users == old(users)
    {
      if !BorrowValidates(doc) {
        return Err(ValidationError);
      }
      var id := nextId;
      borrows := borrows[id := doc];
      nextId := nextId + 1;
      r := Ok(id);
    }

    /** `borrow.save()` of a borrow that was read from the collection. */
    method ReplaceBorrow(id: Id, doc: BorrowDoc) returns (r: Result<Id>)
      requires Valid() && id in borrows && doc.bookId == borrows[id].bookId && doc.userId == borrows[id].userId
      modifies this`borrows
      ensures Valid()
      ensures r.Ok? <==> BorrowValidates(doc)
      ensures r.Ok? ==> r.value == id && borrows == old(borrows)[id := doc]
      ensures r.Err? ==> borrows == old(borrows)
    {
      if !BorrowValidates(doc) {
        return Err(ValidationError);
      }
      borrows := borrows[id := doc];
      r := Ok(id);
    }

    /** `Borrow.deleteMany({ userId })` */
    method DeleteBorrowsOf(user: Id)
      requires Valid()
      modifies this`borrows
      ensures Valid()
      ensures borrows == BorrowsNotOf(old(borrows), user)
    {
      borrows := BorrowsNotOf(borrows, user);
    }
  }
}
