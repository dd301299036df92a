/** The member dashboard: the book search, the three stat cards and the
    borrow button of each book card. */
module UserDashboard {
  import opened Seqs
  import opened LibraryContext
  import opened LibraryPage

  /** `filteredBooks`: the same case-insensitive title/author/category search
      as the admin books tab. */
  function FilteredBooks(books: seq<Book>, searchTerm: string): (r: seq<Book>)
    ensures forall b :: b in r <==> b in books && BookMatches(b, searchTerm)
    ensures IsSubsequence(r, books)
    ensures r == LibraryPage.FilteredBooks(books, searchTerm)
  {
    Filter(books, BookSearch(searchTerm))
  }

  datatype UserStats = UserStats(booksLoaned: nat, overdueBooks: nat, totalBooksRead: nat)

  predicate IsOverdue(b: Borrow) { b.isOverdue }

  /** Loans counted, overdue loans counted, and no reading history at all. */
  function DashboardStats(userBorrows: seq<Borrow>): (s: UserStats)
    ensures s.booksLoaned == |userBorrows|
    ensures s.overdueBooks == Count(userBorrows, IsOverdue) && s.overdueBooks <= s.booksLoaned
    ensures s.totalBooksRead == 0
  {
    UserStats(|userBorrows|, |Filter(userBorrows, IsOverdue)|, 0)
  }

  /** For a member, whose cache holds only their own borrows, the dashboard's
      loan and overdue counts are the library page's active and overdue counts. */
  lemma MemberStatsMatchPage(state: LibraryState)
    requires state.user.Some? && state.user.value.role != "admin"
    ensures DashboardStats(state.UserBorrows()).booksLoaned == PageStats(state.books, state.borrows).activeBorrows
    ensures DashboardStats(state.UserBorrows()).overdueBooks == PageStats(state.books, state.borrows).overdueBorrows
  {
    FilterFilter(state.borrows, Unreturned, IsOverdue, OverdueOpen);
  }

  datatype BorrowButton = BorrowButton(disabled: bool, text: string)

  /** `disabled={available === 0}` and the label `available > 0 ? "Borrow" : "Not Available"`. */
  function BorrowButtonFor(available: int): (b: BorrowButton)
    ensures b.disabled <==> available == 0
    ensures b.text == "Borrow" <==> available > 0
    ensures available <= 0 ==> b.text == "Not Available"
  {
    BorrowButton(available == 0, if available > 0 then "Borrow" else "Not Available")
  }
}
