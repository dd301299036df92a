/** The Spring Data repositories of the books, borrows and users collections
    as in-memory maps. Finders return a fresh entity object loaded from the
    stored record; `save` stores a snapshot of the object and assigns a new id
    to an object that has none. No unique index is enforced on save: the
    uniqueness of isbn, email and username rests on the services' checks. */
module SpringStore {
  import opened Common
  import opened Text
  import opened SpringModel

  predicate IsbnExists(books: map<Id, BookRecord>, isbn: string) {
    exists k :: k in books && books[k].isbn == isbn
  }

  predicate UniqueIsbns(books: map<Id, BookRecord>) {
    forall j, k :: j in books && k in books && books[j].isbn == books[k].isbn ==> j == k
  }

  /** `existsByEmail` / `existsByUsername`: exact matches on the stored text. */
  predicate EmailExists(users: map<Id, UserRecord>, email: string) {
    exists k :: k in users && users[k].email == email
  }

  predicate UsernameExists(users: map<Id, UserRecord>, username: string) {
    exists k :: k in users && users[k].username == username
  }

  predicate UniqueEmails(users: map<Id, UserRecord>) {
    forall j, k :: j in users && k in users && users[j].email == users[k].email ==> j == k
  }

  predicate UniqueUsernames(users: map<Id, UserRecord>) {
    forall j, k :: j in users && k in users && users[j].username == users[k].username ==> j == k
  }

  predicate LowercaseEmails(users: map<Id, UserRecord>) {
    forall k :: k in users ==> Lower(users[k].email) == users[k].email
  }

  /** Lower-case stored emails that are unique are unique ignoring case. */
  lemma EmailsUniqueIgnoringCase(users: map<Id, UserRecord>, j: Id, k: Id)
    requires UniqueEmails(users) && LowercaseEmails(users)
    requires j in users && k in users && EqualsIgnoreCase(users[j].email, users[k].email)
    ensures j == k
  {
  }

  /** Rewriting book `k` with its own isbn or a free one keeps isbns unique. */
  lemma ReplaceKeepsIsbns(books: map<Id, BookRecord>, k: Id, b: BookRecord)
    requires UniqueIsbns(books) && k in books && (books[k].isbn == b.isbn || !IsbnExists(books, b.isbn))
    ensures UniqueIsbns(books[k := b])
  {
  }

  /** A new user whose email (lower-case) and username are both free keeps the user table's invariants. */
  lemma InsertFreshUser(users: map<Id, UserRecord>, k: Id, u: UserRecord)
    requires UniqueEmails(users) && UniqueUsernames(users) && LowercaseEmails(users)
    requires k !in users && !EmailExists(users, u.email) && !UsernameExists(users, u.username)
    requires Lower(u.email) == u.email
    ensures var users' := users[k := u];
            UniqueEmails(users') && UniqueUsernames(users') && LowercaseEmails(users')
  {
  }

  /** The records with status BORROWED for one book. */
  function OpenBorrows(borrows: map<Id, BorrowRecord>, book: Id): set<Id> {
    set k | k in borrows && borrows[k].bookId == book && borrows[k].status == BORROWED
  }

  /** `findByBookIdAndStatus(bookId, BORROWED)` is non-empty. */
  predicate HasOpenBorrowOfBook(borrows: map<Id, BorrowRecord>, book: Id) {
    exists k :: k in borrows && borrows[k].bookId == book && borrows[k].status == BORROWED
  }

  /** `findByBookIdAndUserIdAndStatus(bookId, userId, BORROWED)` is present. */
  predicate HasOpenBorrow(borrows: map<Id, BorrowRecord>, book: Id, user: Id) {
    exists k :: k in borrows && borrows[k].bookId == book && borrows[k].userId == user && borrows[k].status == BORROWED
  }

  /** At most one BORROWED record per (book, user) pair. */
  predicate UniqueOpenPairs(borrows: map<Id, BorrowRecord>) {
    forall j, k ::
      (j in borrows && k in borrows && borrows[j].status == BORROWED && borrows[k].status == BORROWED
       && borrows[j].bookId == borrows[k].bookId && borrows[j].userId == borrows[k].userId) ==> j == k
  }

  predicate NonNegativeAvailable(books: map<Id, BookRecord>) {
    forall k :: k in books ==> books[k].available >= 0
  }

  lemma OpenBorrowsAfterInsert(borrows: map<Id, BorrowRecord>, k: Id, r: BorrowRecord, book: Id)
    requires k !in borrows && r.status == BORROWED
    ensures |OpenBorrows(borrows[k := r], book)| == |OpenBorrows(borrows, book)| + (if r.bookId == book then 1 else 0)
  {
    if r.bookId == book {
      assert OpenBorrows(borrows[k := r], book) == OpenBorrows(borrows, book) + {k};
    } else {
      assert OpenBorrows(borrows[k := r], book) == OpenBorrows(borrows, book);
    }
  }

  lemma OpenBorrowsAfterClose(borrows: map<Id, BorrowRecord>, k: Id, r: BorrowRecord, book: Id)
    requires k in borrows && borrows[k].status == BORROWED && r.status != BORROWED && r.bookId == borrows[k].bookId
    ensures |OpenBorrows(borrows[k := r], book)| == |OpenBorrows(borrows, book)| - (if r.bookId == book then 1 else 0)
  {
    if r.bookId == book {
      assert OpenBorrows(borrows[k := r], book) == OpenBorrows(borrows, book) - {k};
    } else {
      assert OpenBorrows(borrows[k := r], book) == OpenBorrows(borrows, book);
    }
  }

  /** For every book present before and after, `available` plus its BORROWED
      records is the same number. */
  ghost predicate Conserved(books0: map<Id, BookRecord>, borrows0: map<Id, BorrowRecord>,
                            books1: map<Id, BookRecord>, borrows1: map<Id, BorrowRecord>) {
    forall b :: b in books0 && b in books1 ==>
      books1[b].available + |OpenBorrows(borrows1, b)| == books0[b].available + |OpenBorrows(borrows0, b)|
  }

  /** The catalog after one copy of book `b` leaves the shelf. */
  function Lent(books: map<Id, BookRecord>, b: Id): (r: map<Id, BookRecord>)
    requires b in books
    ensures r.Keys == books.Keys
    ensures r[b] == books[b].(available := books[b].available - 1)
    ensures forall c :: c in books && c != b ==> r[c] == books[c]
  {
    books[b := books[b].(available := books[b].available - 1)]
  }

  /** Lending copy `k` of book `b` keeps the unique isbns (only `available`
      changes), keeps one open borrow per pair when the borrower held none,
      and conserves the ledger. */
  lemma LendKeepsLedger(books: map<Id, BookRecord>, borrows: map<Id, BorrowRecord>, b: Id, k: Id, loan: BorrowRecord)
    requires b in books && k !in borrows && loan.bookId == b && loan.status == BORROWED
    requires UniqueIsbns(books) && UniqueOpenPairs(borrows) && !HasOpenBorrow(borrows, b, loan.userId)
    ensures var books1 := Lent(books, b);
            && UniqueIsbns(books1) && UniqueOpenPairs(borrows[k := loan])
            && Conserved(books, borrows, books1, borrows[k := loan])
            && (NonNegativeAvailable(books) && books[b].available > 0 ==> NonNegativeAvailable(books1))
  {
    var books1 := Lent(books, b);
    forall c | c in books && c in books1
      ensures books1[c].available + |OpenBorrows(borrows[k := loan], c)| == books[c].available + |OpenBorrows(borrows, c)|
    {
      OpenBorrowsAfterInsert(borrows, k, loan, c);
    }
  }

  /** The catalog after one copy of book `b` comes back: `available` grows by
      one if the book is still there, and nothing changes otherwise. */
  function Restocked(books: map<Id, BookRecord>, b: Id): (r: map<Id, BookRecord>)
    ensures r.Keys == books.Keys
    ensures b in books ==> r[b] == books[b].(available := books[b].available + 1)
    ensures forall c :: c in books && c != b ==> r[c] == books[c]
  {
    if b in books then books[b := books[b].(available := books[b].available + 1)] else books
  }

  /** Closing the open borrow `k` keeps the invariants and conserves the
      ledger, whether or not its book is still in the catalog. */
  lemma ReturnKeepsLedger(books: map<Id, BookRecord>, borrows: map<Id, BorrowRecord>, k: Id, closed: BorrowRecord)
    requires k in borrows && borrows[k].status == BORROWED && closed.status == RETURNED
    requires closed.bookId == borrows[k].bookId && closed.userId == borrows[k].userId
    requires UniqueIsbns(books) && UniqueOpenPairs(borrows)
    ensures var books1 := Restocked(books, closed.bookId);
            && UniqueIsbns(books1) && UniqueOpenPairs(borrows[k := closed])
            && Conserved(books, borrows, books1, borrows[k := closed])
            && (NonNegativeAvailable(books) ==> NonNegativeAvailable(books1))
  {
    var books1 := Restocked(books, closed.bookId);
    forall c | c in books && c in books1
      ensures books1[c].available + |OpenBorrows(borrows[k := closed], c)| == books[c].available + |OpenBorrows(borrows, c)|
    {
      OpenBorrowsAfterClose(borrows, k, closed, c);
    }
  }

  class Repositories {
    var books: map<Id, BookRecord>
    var borrows: map<Id, BorrowRecord>
    var users: map<Id, UserRecord>
    var nextId: Id

    /** Ids come from the counter. */
    ghost predicate Wellformed()
      reads this
    {
      && (forall k :: k in books ==> k < nextId)
      && (forall k :: k in borrows ==> k < nextId)
      && (forall k :: k in users ==> k < nextId)
    }

    /** What the services keep: unique isbns, emails (stored lower-case) and
        usernames, and at most one open borrow per book and user. */
    ghost predicate Valid()
      reads this
    {
      && Wellformed()
      && UniqueIsbns(books) && UniqueOpenPairs(borrows)
      && UniqueEmails(users) && UniqueUsernames(users) && LowercaseEmails(users)
    }

    constructor ()
      ensures Valid()
      ensures books == map[] && borrows == map[] && users == map[] && nextId == 0
    {
      books, borrows, users, nextId := map[], map[], map[], 0;
    }

    /** `bookRepository.findById(id)` */
    method FindBookById(id: Id) returns (b: Option<Book>)
      ensures b.Some? <==> id in books
      ensures b.Some? ==> fresh(b.value) && b.value.id == Some(id) && b.value.Record() == books[id]
    {
      if id !in books {
        return None;
      }
      var book := new Book.Load(id, books[id]);
      b := Some(book);
    }

    /** `bookRepository.save(book)` */
    method SaveBook(book: Book) returns (id: Id)
      requires Wellformed() && (book.id.Some? ==> book.id.value < nextId)
      modifies this, book`id
      ensures Wellformed()
      ensures old(book.id).Some? ==> id == old(book.id).value && nextId == old(nextId)
      ensures old(book.id).None? ==> id == old(nextId) && nextId == old(nextId) + 1
      ensures book.id == Some(id)
      ensures books == old(books)[id := book.Record()]
      ensures borrows == old(borrows) && users == old(users)
    {
      if book.id.None? {
        book.id := Some(nextId);
        nextId := nextId + 1;
      }
      id := book.id.value;
      books := books[id := book.Record()];
    }

    /** `bookRepository.deleteById(id)` */
    method DeleteBookById(id: Id)
      requires Wellformed()
      modifies this`books
      ensures Wellformed()
      ensures books == old(books) - {id}
    {
      books := books - {id};
    }

    /** `borrowRepository.findById(id)` */
    method FindBorrowById(id: Id) returns (b: Option<Borrow>)
      ensures b.Some? <==> id in borrows
      ensures b.Some? ==> fresh(b.value) && b.value.id == Some(id) && b.value.Record() == borrows[id]
    {
      if id !in borrows {
        return None;
      }
      var borrow := new Borrow.Load(id, borrows[id]);
      b := Some(borrow);
    }

    /** `borrowRepository.save(borrow)` */
    method SaveBorrow(borrow: Borrow) returns (id: Id)
      requires Wellformed() && (borrow.id.Some? ==> borrow.id.value < nextId)
      modifies this, borrow`id
      ensures Wellformed()
      ensures old(borrow.id).Some? ==> id == old(borrow.id).value && nextId == old(nextId)
      ensures old(borrow.id).None? ==> id == old(nextId) && nextId == old(nextId) + 1
      ensures borrow.id == Some(id)
      ensures borrows == old(borrows)[id := borrow.Record()]
      ensures books == old(books) && users == old(users)
    {
      if borrow.id.None? {
        borrow.id := Some(nextId);
        nextId := nextId + 1;
      }
      id := borrow.id.value;
      borrows := borrows[id := borrow.Record()];
    }

    /** `userRepository.save(user)` */
    method SaveUser(user: User) returns (id: Id)
      requires Wellformed() && (user.id.Some? ==> user.id.value < nextId)
      modifies this, user`id
      ensures Wellformed()
      ensures old(user.id).Some? ==> id == old(user.id).value && nextId == old(nextId)
      ensures old(user.id).None? ==> id == old(nextId) && nextId == old(nextId) + 1
      ensures user.id == Some(id)
      ensures users == old(users)[id := user.Record()]
      ensures books == old(books) && borrows == old(borrows)
    {
      if user.id.None? {
        user.id := Some(nextId);
        nextId := nextId + 1;
      }
      id := user.id.value;
      users := users[id := user.Record()];
    }
  }
}
