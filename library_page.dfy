/** The admin library page (`OriginalLibrarySystem`): the four stat cards,
    the search boxes of the books, members and borrows tabs, and the copies
    field of the book form. Everything here is computed from the cached arrays. */
module LibraryPage {
  import opened Common
  import opened Text
  import opened Seqs
  import opened JsNumber
  import opened LibraryContext

  datatype Stats = Stats(totalBooks: int, available: int, activeBorrows: nat, overdueBorrows: nat)

  /** `!l.returnedAt && l.isOverdue` */
  predicate OverdueOpen(b: Borrow) {
    Unreturned(b) && b.isOverdue
  }

  /** The stat cards: copies and available copies summed over the books,
      unreturned and unreturned-overdue borrows counted. */
  function PageStats(books: seq<Book>, borrows: seq<Borrow>): (s: Stats)
    ensures s.totalBooks == Sum(books, Copies) && s.available == Sum(books, Available)
    ensures s.activeBorrows == Count(borrows, Unreturned)
    ensures s.overdueBorrows == Count(borrows, OverdueOpen)
    ensures s.overdueBorrows <= s.activeBorrows
  {
    FilterMonotone(borrows, OverdueOpen, Unreturned);
    Stats(Sum(books, Copies), Sum(books, Available), Count(borrows, Unreturned), Count(borrows, OverdueOpen))
  }

  /** Adding a book to the cache adds its copies and its available copies to the totals. */
  lemma StatsAfterAddBook(books: seq<Book>, borrows: seq<Borrow>, nb: Book)
    ensures PageStats(books + [nb], borrows)
         == PageStats(books, borrows).(totalBooks := PageStats(books, borrows).totalBooks + nb.copies,
                                       available := PageStats(books, borrows).available + nb.available)
  {
    SumAppend(books, [nb], Copies);
    SumAppend(books, [nb], Available);
  }

  /** After a successful borrow the total of copies stays, the available total
      drops by one per cached book with that id, and the new borrow is counted
      as active (and overdue) exactly when it is. */
  lemma StatsAfterBorrow(books: seq<Book>, borrows: seq<Borrow>, bookId: string, nb: Borrow)
    ensures var before := PageStats(books, borrows);
            var after := PageStats(ShiftAvailable(books, bookId, -1), borrows + [nb]);
            && after.totalBooks == before.totalBooks
            && after.available == before.available - CountWithId(books, bookId)
            && after.activeBorrows == before.activeBorrows + (if Unreturned(nb) then 1 else 0)
            && after.overdueBorrows == before.overdueBorrows + (if OverdueOpen(nb) then 1 else 0)
  {
    ShiftAvailableCopies(books, bookId, -1);
    ShiftAvailableTotal(books, bookId, -1);
    FilterAppend(borrows, [nb], Unreturned);
    FilterAppend(borrows, [nb], OverdueOpen);
  }

  /** `b.title / b.author / b.category` contains the search, ignoring case. */
  predicate BookMatches(b: Book, search: string) {
    ContainsIgnoreCase(b.title, search) || ContainsIgnoreCase(b.author, search)
    || ContainsIgnoreCase(b.category, search)
  }

  function BookSearch(search: string): Book -> bool { (b: Book) => BookMatches(b, search) }

  /** `filteredBooks` on the books tab. */
  function FilteredBooks(books: seq<Book>, search: string): (r: seq<Book>)
    ensures forall b :: b in r <==> b in books && BookMatches(b, search)
    ensures IsSubsequence(r, books)
    ensures search == "" ==> r == books
  {
    if search == "" then
      forall b | b in books ensures BookMatches(b, search) {
        ContainsIgnoreCaseEmpty(b.title);
      }
      Filter(books, BookSearch(search))
    else
      Filter(books, BookSearch(search))
  }

  predicate MemberMatches(m: Member, search: string) {
    ContainsIgnoreCase(m.name, search) || ContainsIgnoreCase(m.email, search)
  }

  /** `filteredMembers` on the members tab. */
  function FilteredMembers(members: seq<Member>, search: string): (r: seq<Member>)
    ensures forall m :: m in r <==> m in members && MemberMatches(m, search)
    ensures IsSubsequence(r, members)
    ensures search == "" ==> r == members
  {
    if search == "" then
      forall m | m in members ensures MemberMatches(m, search) {
        ContainsIgnoreCaseEmpty(m.name);
      }
      Filter(members, (m: Member) => MemberMatches(m, search))
    else
      Filter(members, (m: Member) => MemberMatches(m, search))
  }

  predicate BorrowMatches(b: Borrow, search: string) {
    ContainsIgnoreCase(b.bookTitle, search) || ContainsIgnoreCase(b.userName, search)
  }

  /** `filteredBorrows` on the borrows tab. */
  function FilteredBorrows(borrows: seq<Borrow>, search: string): (r: seq<Borrow>)
    ensures forall b :: b in r <==> b in borrows && BorrowMatches(b, search)
    ensures IsSubsequence(r, borrows)
    ensures search == "" ==> r == borrows
  {
    if search == "" then
      forall b | b in borrows ensures BorrowMatches(b, search) {
        ContainsIgnoreCaseEmpty(b.bookTitle);
      }
      Filter(borrows, (b: Borrow) => BorrowMatches(b, search))
    else
      Filter(borrows, (b: Borrow) => BorrowMatches(b, search))
  }

  /** The rows of the active-borrows table: the matching borrows that are unreturned. */
  function BorrowRows(borrows: seq<Borrow>, search: string): (r: seq<Borrow>)
    ensures forall b :: b in r <==> b in borrows && BorrowMatches(b, search) && Unreturned(b)
    ensures |r| <= Count(borrows, Unreturned)
  {
    var matching := FilteredBorrows(borrows, search);
    FilterFilter(borrows, (b: Borrow) => BorrowMatches(b, search), Unreturned,
                 (b: Borrow) => BorrowMatches(b, search) && Unreturned(b));
    FilterMonotone(borrows, (b: Borrow) => BorrowMatches(b, search) && Unreturned(b), Unreturned);
    Filter(matching, Unreturned)
  }

  /** The copies field: `parseInt(value) || 1`, so `NaN` and `0` both become 1. */
  function CopiesInput(value: string): (copies: int)
    ensures copies != 0
    ensures ParseInt(value).None? ==> copies == 1
    ensures ParseInt(value).Some? && ParseInt(value).value != 0 ==> copies == ParseInt(value).value
  {
    match ParseInt(value)
    case None => 1
    case Some(n) => if n == 0 then 1 else n
  }

  /** A positive entry is taken as typed; a zero entry, and any text without a
      digit, falls back to one copy. */
  lemma CopiesInputCases(n: nat, text: string)
    requires forall i :: 0 <= i < |text| ==> !IsDecimalDigit(text[i])
    ensures n > 0 ==> CopiesInput(Numeral(n)) == n
    ensures CopiesInput(Numeral(0)) == 1
    ensures CopiesInput(text) == 1
  {
    ParseIntNumeral(n);
    ParseIntNumeral(0);
    ParseIntNeedsDigit(text);
  }
}
