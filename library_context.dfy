/** The client's cached copy of the library (the React `LibraryProvider`):
    three arrays that each operation replaces after its API call succeeds.
    An API call is a function parameter: `None` (or `false`) is a failed
    request, which throws inside the provider and leaves the cache alone. */
module LibraryContext {
  import opened Common
  import opened Seqs

  datatype Book = Book(id: string, title: string, author: string, isbn: string, category: string,
                       copies: int, available: int, description: Option<string>, addedAt: string)

  /** What the add-book form submits: a book without id, addedAt and available. */
  datatype BookData = BookData(title: string, author: string, isbn: string, category: string,
                               copies: int, description: Option<string>)

  /** The JSON body of `POST /api/books`. */
  datatype BookPayload = BookPayload(data: BookData, available: int)

  datatype Member = Member(id: string, name: string, email: string, phone: Option<string>,
                           joinedAt: string, role: string)

  datatype Borrow = Borrow(id: string, bookId: string, bookTitle: string, userId: string,
                           userName: string, borrowedAt: string, dueDate: string,
                           returnedAt: Option<string>, isOverdue: bool)

  /** The JSON body of `POST /api/loans/borrow`. */
  datatype BorrowPayload = BorrowPayload(bookId: string, memberId: string, memberName: string)

  /** The signed-in user as the auth context holds it. */
  datatype SessionUser = SessionUser(id: string, name: string, role: string)

  /** `!borrow.returnedAt`: a missing and an empty return date are both falsy. */
  predicate Unreturned(b: Borrow) {
    b.returnedAt.None? || b.returnedAt.value == ""
  }

  function AddBookPayload(data: BookData): (p: BookPayload)
    ensures p.data == data && p.available == data.copies
  {
    BookPayload(data, data.copies)
  }

  function BorrowPayloadFor(bookId: string, user: SessionUser): (p: BorrowPayload)
    ensures p.bookId == bookId && p.memberId == user.id && p.memberName == user.name
  {
    BorrowPayload(bookId, user.id, user.name)
  }

  /** `xs.map(x => x.id === id ? nx : x)`, where `hasId` tests `x.id === id`:
      the cache update after a PUT, for books and borrows alike. */
  function ReplaceWhere<T>(xs: seq<T>, hasId: T -> bool, nx: T): (r: seq<T>)
    ensures |r| == |xs|
    ensures forall i :: 0 <= i < |xs| ==> r[i] == (if hasId(xs[i]) then nx else xs[i])
  {
    seq(|xs|, i requires 0 <= i < |xs| => if hasId(xs[i]) then nx else xs[i])
  }

  function BookIdIs(id: string): Book -> bool { (b: Book) => b.id == id }
  function BorrowIdIs(id: string): Borrow -> bool { (b: Borrow) => b.id == id }

  /** `books.map(b => b.id === id ? {...b, available: b.available + delta} : b)` */
  function ShiftAvailable(books: seq<Book>, id: string, delta: int): (r: seq<Book>)
    ensures |r| == |books|
    ensures forall i :: 0 <= i < |books| ==>
      r[i] == (if books[i].id == id then books[i].(available := books[i].available + delta) else books[i])
  {
    seq(|books|, i requires 0 <= i < |books| =>
      if books[i].id == id then books[i].(available := books[i].available + delta) else books[i])
  }

  /** `borrows.find(b => b.id === id)`: the first borrow with that id. */
  function FindBorrow(borrows: seq<Borrow>, id: string): (r: Option<Borrow>)
    ensures r.None? <==> forall b :: b in borrows ==> b.id != id
    ensures r.Some? ==> exists i :: 0 <= i < |borrows| && borrows[i] == r.value && r.value.id == id
                                    && forall j :: 0 <= j < i ==> borrows[j].id != id
  {
    if borrows == [] then None
    else if borrows[0].id == id then
      assert borrows[0] == borrows[0];
      Some(borrows[0])
    else
      var r := FindBorrow(borrows[1..], id);
      if r.Some? then
        var i :| 0 <= i < |borrows[1..]| && borrows[1..][i] == r.value && r.value.id == id
                 && forall j :: 0 <= j < i ==> borrows[1..][j].id != id;
        assert borrows[i + 1] == r.value;
        assert forall j :: 0 <= j < i + 1 ==> borrows[j].id != id by {
          forall j | 0 <= j < i + 1 ensures borrows[j].id != id {
            if j > 0 { assert borrows[j] == borrows[1..][j - 1]; }
          }
        }
        r
      else
        r
  }

  function BookIdIsNot(id: string): Book -> bool { (b: Book) => b.id != id }
  function MemberIdIsNot(id: string): Member -> bool { (m: Member) => m.id != id }

  function Copies(b: Book): int { b.copies }
  function Available(b: Book): int { b.available }

  /** Replacing every book with id `id` by one that carries the same id keeps
      every position's id. */
  lemma ReplaceBookKeepsIds(books: seq<Book>, id: string, nb: Book)
    requires nb.id == id
    ensures forall i :: 0 <= i < |books| ==> ReplaceWhere(books, BookIdIs(id), nb)[i].id == books[i].id
  {
  }

  /** How many cached books carry the id `id`. */
  function CountWithId(books: seq<Book>, id: string): (n: nat)
    ensures n <= |books|
  {
    if books == [] then 0 else (if books[0].id == id then 1 else 0) + CountWithId(books[1..], id)
  }

  lemma MulSucc(a: int, b: int)
    ensures a * (1 + b) == a + a * b
  {
  }

  /** Shifting availability by `delta` moves the total availability by `delta`
      for every cached book with that id. */
  lemma {:induction false} ShiftAvailableTotal(books: seq<Book>, id: string, delta: int)
    ensures Sum(ShiftAvailable(books, id, delta), Available)
         == Sum(books, Available) + delta * CountWithId(books, id)
  {
    if books != [] {
      var r := ShiftAvailable(books, id, delta);
      ShiftAvailableTotal(books[1..], id, delta);
      assert r[1..] == ShiftAvailable(books[1..], id, delta);
      assert Sum(r, Available) == Available(r[0]) + Sum(r[1..], Available);
      var c := CountWithId(books[1..], id);
      if books[0].id == id {
        assert Available(r[0]) == Available(books[0]) + delta;
        assert CountWithId(books, id) == 1 + c;
        MulSucc(delta, c);
      } else {
        assert Available(r[0]) == Available(books[0]);
        assert CountWithId(books, id) == c;
      }
      assert Sum(books, Available) == Available(books[0]) + Sum(books[1..], Available);
    }
  }

  /** Shifting availability leaves the total of copies alone. */
  lemma {:induction false} ShiftAvailableCopies(books: seq<Book>, id: string, delta: int)
    ensures Sum(ShiftAvailable(books, id, delta), Copies) == Sum(books, Copies)
  {
    if books != [] {
      var r := ShiftAvailable(books, id, delta);
      ShiftAvailableCopies(books[1..], id, delta);
      assert r[1..] == ShiftAvailable(books[1..], id, delta);
      assert Sum(r, Copies) == Copies(r[0]) + Sum(r[1..], Copies);
    }
  }

  class LibraryState {
    var user: Option<SessionUser>
    var books: seq<Book>
    var members: seq<Member>
    var borrows: seq<Borrow>

    /** The provider starts with empty arrays for the signed-in user (if any). */
    constructor(user: Option<SessionUser>)
      ensures this.user == user && books == [] && members == [] && borrows == []
    {
      this.user := user;
      books := [];
      members := [];
      borrows := [];
    }

    /** `refreshData`: with no user nothing is fetched; an admin fetches all loans
        and the members, a member only the loans filtered by their id, and the
        members array is left as it was. Any failed request leaves everything. */
    method RefreshData(getBooks: () -> Option<seq<Book>>,
                       getLoans: Option<string> -> Option<seq<Borrow>>,
                       getMembers: () -> Option<seq<Member>>)
      modifies this
      ensures user == old(user)
      ensures var loans := if old(user).Some? && old(user).value.role != "admin"
                           then getLoans(Some(old(user).value.id)) else getLoans(None);
              var ms := if old(user).Some? && old(user).value.role == "admin"
                        then getMembers() else Some([]);
              if old(user).Some? && getBooks().Some? && loans.Some? && ms.Some? then
                books == getBooks().value && borrows == loans.value
                && members == (if old(user).value.role == "admin" then ms.value else old(members))
              else
                books == old(books) && borrows == old(borrows) && members == old(members)
    {
      if user.None? {
        return;
      }
      var u := user.value;
      var booksData := getBooks();
      var borrowsData := if u.role == "admin" then getLoans(None) else getLoans(Some(u.id));
      var membersData := if u.role == "admin" then getMembers() else Some([]);
      if booksData.None? || borrowsData.None? || membersData.None? {
        return;
      }
      books := booksData.value;
      borrows := borrowsData.value;
      if u.role == "admin" {
        members := membersData.value;
      }
    }

    /** `addBook` posts the form with `available` set to `copies` and appends
        the server's book. */
    method AddBook(data: BookData, post: BookPayload -> Option<Book>) returns (ok: bool)
      modifies this
      ensures ok == post(AddBookPayload(data)).Some?
      ensures books == if ok then old(books) + [post(AddBookPayload(data)).value] else old(books)
      ensures user == old(user) && members == old(members) && borrows == old(borrows)
    {
      var newBook := post(AddBookPayload(data));
      if newBook.None? {
        return false;
      }
      books := books + [newBook.value];
      return true;
    }

    /** `updateBook` replaces every cached book with that id by the server's answer. */
    method UpdateBook(id: string, put: string -> Option<Book>) returns (ok: bool)
      modifies this
      ensures ok == put(id).Some?
      ensures books == if ok then ReplaceWhere(old(books), BookIdIs(id), put(id).value) else old(books)
      ensures user == old(user) && members == old(members) && borrows == old(borrows)
    {
      var updated := put(id);
      if updated.None? {
        return false;
      }
      books := ReplaceWhere(books, BookIdIs(id), updated.value);
      return true;
    }

    /** `deleteBook` drops exactly the books with that id, keeping the order of the rest. */
    method DeleteBook(id: string, delete: string -> bool) returns (ok: bool)
      modifies this
      ensures ok == delete(id)
      ensures books == if ok then Filter(old(books), BookIdIsNot(id)) else old(books)
      ensures user == old(user) && members == old(members) && borrows == old(borrows)
    {
      if !delete(id) {
        return false;
      }
      books := Filter(books, BookIdIsNot(id));
      return true;
    }

    /** `deleteMember` drops exactly the members with that id. */
    method DeleteMember(id: string, delete: string -> bool) returns (ok: bool)
      modifies this
      ensures ok == delete(id)
      ensures members == if ok then Filter(old(members), MemberIdIsNot(id)) else old(members)
      ensures user == old(user) && books == old(books) && borrows == old(borrows)
    {
      if !delete(id) {
        return false;
      }
      members := Filter(members, MemberIdIsNot(id));
      return true;
    }

    /** `borrowBook`: without a user nothing is sent; otherwise the server's
        borrow is appended and the matching books lose one available copy. */
    method BorrowBook(bookId: string, post: BorrowPayload -> Option<Borrow>) returns (ok: bool)
      modifies this
      ensures old(user).None? ==> !ok && unchanged(this)
      ensures old(user).Some? ==> ok == post(BorrowPayloadFor(bookId, old(user).value)).Some?
      ensures ok ==> borrows == old(borrows) + [post(BorrowPayloadFor(bookId, old(user).value)).value]
                     && books == ShiftAvailable(old(books), bookId, -1)
      ensures !ok ==> borrows == old(borrows) && books == old(books)
      ensures user == old(user) && members == old(members)
    {
      if user.None? {
        return false;
      }
      var newBorrow := post(BorrowPayloadFor(bookId, user.value));
      if newBorrow.None? {
        return false;
      }
      borrows := borrows + [newBorrow.value];
      books := ShiftAvailable(books, bookId, -1);
      return true;
    }

    /** `returnBook` replaces the borrow with that id by the server's answer and
        gives a copy back to the book named by the borrow cached BEFORE the call;
        a borrow that was not cached leaves the books alone. */
    method ReturnBook(borrowId: string, put: string -> Option<Borrow>) returns (ok: bool)
      modifies this
      ensures ok == put(borrowId).Some?
      ensures borrows == if ok then ReplaceWhere(old(borrows), BorrowIdIs(borrowId), put(borrowId).value) else old(borrows)
      ensures books == if ok && FindBorrow(old(borrows), borrowId).Some?
                       then ShiftAvailable(old(books), FindBorrow(old(borrows), borrowId).value.bookId, 1)
                       else old(books)
      ensures user == old(user) && members == old(members)
    {
      var updated := put(borrowId);
      if updated.None? {
        return false;
      }
      var cached := FindBorrow(borrows, borrowId);
      borrows := ReplaceWhere(borrows, BorrowIdIs(borrowId), updated.value);
      if cached.Some? {
        books := ShiftAvailable(books, cached.value.bookId, 1);
      }
      return true;
    }

    /** `userBorrows`: an admin sees their own unreturned borrows, a member every
        unreturned cached borrow (the cache holds only theirs), nobody nothing. */
    function UserBorrows(): (r: seq<Borrow>)
      reads this
      ensures user.None? ==> r == []
      ensures user.Some? && user.value.role == "admin" ==>
        forall b :: b in r <==> b in borrows && b.userId == user.value.id && Unreturned(b)
      ensures user.Some? && user.value.role != "admin" ==>
        forall b :: b in r <==> b in borrows && Unreturned(b)
      ensures IsSubsequence(r, borrows)
    {
      if user.None? then []
      else if user.value.role == "admin" then
        var id := user.value.id;
        Filter(borrows, (b: Borrow) => b.userId == id && Unreturned(b))
      else
        Filter(borrows, Unreturned)
    }
  }
}
