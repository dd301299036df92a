/** The stat cards of the admin dashboard. */
module AdminDashboard {
  import opened Seqs
  import opened LibraryContext
  import opened LibraryPage

  datatype AdminStats = AdminStats(totalBooks: int, totalMembers: nat, activeBorrows: nat, overdueBorrows: nat)

  /** Copies summed over the books, the members counted, unreturned and
      unreturned-overdue borrows counted. */
  function DashboardStats(books: seq<Book>, members: seq<Member>, borrows: seq<Borrow>): (s: AdminStats)
    ensures s.totalBooks == Sum(books, Copies)
    ensures s.totalMembers == |members|
    ensures s.activeBorrows == Count(borrows, Unreturned)
    ensures s.overdueBorrows == Count(borrows, OverdueOpen)
    ensures s.overdueBorrows <= s.activeBorrows
  {
    FilterMonotone(borrows, OverdueOpen, Unreturned);
    AdminStats(Sum(books, Copies), |members|, |Filter(borrows, Unreturned)|, |Filter(borrows, OverdueOpen)|)
  }

  function MemberIdIs(id: string): Member -> bool { (m: Member) => m.id == id }

  /** Deleting a member from the cache lowers the member count by the number
      of cached members with that id and leaves the other cards alone. */
  lemma StatsAfterDeleteMember(books: seq<Book>, members: seq<Member>, borrows: seq<Borrow>, id: string)
    ensures DashboardStats(books, Filter(members, MemberIdIsNot(id)), borrows)
         == DashboardStats(books, members, borrows).(totalMembers := |members| - Count(members, MemberIdIs(id)))
  {
    FilterSplit(members, MemberIdIs(id), MemberIdIsNot(id));
  }
}
