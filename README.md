# Library ledger

This project models LeafStack, a small library system, in Dafny. The system has two
backends, each with a catalog of books, a table of borrow records and a table of users:

- an Express/Mongoose server, where a loan is open while `returnedAt` is absent;
- a Spring server, where a loan carries a `Status`.

A browser client keeps a cached copy of the three tables and computes the dashboards
from that copy.

The model contains:

- **Express server.** The stores are maps from id to document, held by a
  `MongooseModels.Database` object. Schema defaults, validators and unique indexes are
  checked when a document is saved. Every route handler is a method on that object.
  Each method's contract gives:
  - the HTTP status and error text of every failing branch;
  - the new state after a successful call;
  - the invariants the call keeps.
- **Spring server.** The entities `Book`, `Borrow` and `User` are classes whose fields
  the services assign. The repositories are maps of value snapshots, held by
  `SpringStore.Repositories`. `BookService`, `BorrowService`, `AuthService` and the
  `LibraryController` are methods over these repositories.
- **Client.** The cache is the class `LibraryContext.LibraryState`. The stat cards,
  searches and input parsing of the pages are functions over its sequences.
- **Conservation.** In both backends, for every book, `available` plus the number of
  open loans of that book does not change when a borrow or a return succeeds (the
  `Conserved` predicates). The model also shows where the other expected bound,
  `available <= copies`, fails:
  - neither backend caps a return at `copies`;
  - the Spring `updateBook` floors `available` at 0 when `copies` falls below the open
    loans (`BookService.RevisedKeepsBalanceIff`), and once those loans come back the
    book has `available > copies` (`BookService.OverReturned`);
  - the Express `updateBook` sets `copies` and `available` independently.

  One would expect returns capped at `copies` and `0 <= available <= copies` at all
  times. The code does neither, and the model follows the code.

Ids are natural numbers handed out by a counter in each store, so "newest first"
(`sort({ createdAt: -1 })`) is descending id and insertion order is ascending id. The
clock is the parameter `now`, in milliseconds. Hashing, token signing and checking,
and every HTTP request of the client are function parameters.

## Model

| member | source | states |
|---|---|---|
| Text.Lower | server/src/main/java/com/leafstack/library/service/AuthService.java:25 | `toLowerCase()` keeps the length and lowers each character on its own (ASCII letters only) |
| Text.LowerIdempotent | server/models/index.ts:27-33 | lowering twice is lowering once, so an email stored lower-case is its own lookup key |
| Text.ContainsIgnoreCaseEmpty | client/pages/OriginalLibrarySystem.tsx:168-175 | the empty search text is contained in every text, ignoring case |
| Seqs.Filter | client/contexts/LibraryContext.tsx:158 | `filter` keeps exactly the elements satisfying the predicate, in order (a subsequence), and keeps everything when all satisfy it |
| Seqs.FilterFilter | client/pages/OriginalLibrarySystem.tsx:500 | filtering twice is filtering once on the conjunction |
| Seqs.FilterMonotone | client/pages/OriginalLibrarySystem.tsx:40-41 | filtering on a stronger predicate keeps no more elements |
| Seqs.FilterSplit | client/pages/AdminDashboard.tsx:16 | a predicate and its negation split a sequence into two parts whose lengths add up to the whole |
| Seqs.SumAppend | client/pages/OriginalLibrarySystem.tsx:38-39 | the `reduce` sum of a concatenation is the sum of the sums |
| Listing.OldestFirst | server/src/main/java/com/leafstack/library/service/BorrowService.java:37 | a finder lists exactly the stored ids whose documents match, in increasing id order |
| Listing.NewestFirst | server/routes/library.ts:26 | `find().sort({ createdAt: -1 })` lists exactly the matching ids, in decreasing id order |
| Listing.FirstOf | server/routes/auth.ts:19 | `findOne` gives the oldest match, or none exactly when nothing matches |
| Listing.Project | server/routes/library.ts:29-39 | `map` gives one view per listed id, in list order, and contains the view of every listed id |
| Listing.OldestFirstGrouped | server/src/main/java/com/leafstack/library/service/BookService.java:112-116 | two finders' results with the repeats dropped: every id satisfying either predicate, once, the first predicate's ids first, each group in increasing id order |
| Api.TrimTrailingSlashAppend | client/lib/api.ts:5 | only one trailing slash is removed: `t + "/"` trims to `t` and `t + "//"` to `t + "/"` |
| Api.TrimTrailingSlash | client/lib/api.ts:5 | a text ending in "/" loses that slash and nothing else; any other text is unchanged |
| Api.ApiBase | client/lib/api.ts:7-9 | the base is "" when the variable is unset or empty, and the trimmed variable otherwise |
| Api.NormalizePath | client/lib/api.ts:12 | the normalized path starts with "/"; a path already starting with "/" is unchanged |
| Api.NormalizePathIdempotent | client/lib/api.ts:12 | normalizing twice is normalizing once |
| Api.ResolveApiUrl | client/lib/api.ts:11-14 | with no base the URL is the normalized path; with a base it is base + normalized path |
| Api.ResolveApiUrlProperties | client/lib/api.ts:11-14 | with no base, resolving is idempotent and the result starts with "/"; with a base, the URL starts with the base |
| Api.AuthHeaders | client/lib/api.ts:21-23 | a non-empty token gives exactly the header `Authorization: Bearer <token>`; no token or an empty token gives no header |
| AuthMiddleware.BearerToken | server/middleware/auth.ts:17-21 | a token is present exactly when the header starts with "Bearer ", and the header is then that prefix followed by the token |
| AuthMiddleware.AuthHeaderRoundTrip | server/middleware/auth.ts:21 | the header the client builds for a token parses back to that token |
| AuthMiddleware.Request.constructor | server/middleware/auth.ts:6-12 | a request arrives with its `Authorization` header and no user attached |
| AuthMiddleware.AuthenticateToken | server/middleware/auth.ts:14-35 | no bearer header gives 401; a token that fails verification gives 403; `next` exactly when the token verifies, and then `req.user` holds the decoded userId, email and role; `req.user` does not change on failure |
| AuthMiddleware.RequireAuth | server/middleware/auth.ts:49-54 | `next` exactly when a user is attached; otherwise 401 |
| AuthMiddleware.RequireAdmin | server/middleware/auth.ts:37-47 | 401 without a user; 403 for a role other than "admin"; `next` exactly for an admin, which then also passes `requireAuth` |
| MongooseModels.NewUser | server/models/index.ts:15-49 | the email is lower-cased and then stays lower-case; a missing role becomes "member"; the other fields are kept |
| MongooseModels.NewBorrow | server/models/index.ts:139-153 | `borrowedAt` defaults to now, `returnedAt` starts absent, `isOverdue` starts false |
| MongooseModels.ApplyPatch | server/routes/library.ts:91-95 | `$set` replaces exactly the fields the patch carries; an empty patch changes nothing; a valid patch of a valid book is valid |
| MongooseModels.InsertFreshUser | server/models/index.ts:16-33 | a user whose email and username are both free keeps both unique indexes |
| MongooseModels.OpenLoansAfterInsert | server/routes/library.ts:329 | saving an open borrow adds one open loan to its book and none to any other book |
| MongooseModels.OpenLoansAfterClose | server/routes/library.ts:382-383 | setting `returnedAt` takes one open loan from its book and none from any other book |
| MongooseModels.Lent | server/routes/library.ts:332-333 | lending changes only that book, whose `available` drops by one |
| MongooseModels.Restocked | server/routes/library.ts:386-390 | a return adds one to `available` of the book if it still exists, with no cap at `copies`, and changes nothing else |
| MongooseModels.LendConserves | server/routes/library.ts:317-333 | a new open borrow plus one copy fewer keeps `available + open loans` for every book |
| MongooseModels.ReturnConserves | server/routes/library.ts:382-390 | closing a borrow plus one copy back keeps `available + open loans` for every book, present or deleted |
| MongooseModels.BorrowsNotOf | server/routes/library.ts:234 | `deleteMany({ userId })` keeps exactly the borrows of the other users, unchanged |
| MongooseModels.ConservedKeepsBalance | server/routes/library.ts:317-390 | a conserving step that keeps `copies` keeps `available + open loans == copies` for every book |
| MongooseModels.Database.constructor | server/models/index.ts:15-156 | the empty database has no documents and satisfies every unique index |
| MongooseModels.Database.InsertBook | server/models/index.ts:64-102 | `save()` refuses a document that fails the validators, then an isbn already stored; otherwise it stores the document under a fresh id and changes nothing else |
| MongooseModels.Database.ReplaceBook | server/routes/library.ts:333 | `save()` of a loaded book succeeds exactly when the document validates and no other book has its isbn |
| MongooseModels.Database.UpdateBook | server/routes/library.ts:91-95 | the update validators come first, then an unknown id gives null, then an isbn held by another book is refused; otherwise the book becomes the patched document |
| MongooseModels.Database.DeleteBook | server/routes/library.ts:123 | `findByIdAndDelete` returns the deleted document, or none, and removes only that key |
| MongooseModels.Database.InsertUser | server/models/index.ts:15-49 | `save()` of a user: validators, then the email and username indexes; on success the user is stored under a fresh id |
| MongooseModels.Database.DeleteUser | server/routes/library.ts:231 | removes only that user |
| MongooseModels.Database.InsertBorrow | server/models/index.ts:118-156 | `save()` of a borrow succeeds exactly when it validates, under a fresh id |
| MongooseModels.Database.ReplaceBorrow | server/routes/library.ts:383 | `save()` of a loaded borrow succeeds exactly when it validates, and rewrites only that borrow |
| MongooseModels.Database.DeleteBorrowsOf | server/routes/library.ts:234 | the borrows become `BorrowsNotOf` the user; the invariants hold |
| LibraryRoutes.ViewOfBook | server/routes/library.ts:29-39 | the JSON view of a book carries its id and its counters |
| LibraryRoutes.ViewOfMember | server/routes/library.ts:142-148 | `phone: member.phone \|\| ''`: a missing phone is shown as "" |
| LibraryRoutes.ViewOfBorrow | server/routes/library.ts:261-275 | a loan is shown overdue exactly when it is open and its due date has passed; the stored flag is ignored |
| LibraryRoutes.ParsedCopies | server/routes/library.ts:68-69 | `parseInt(copies)`: a JSON number reads back as itself, a string goes through `parseInt`, and an unparseable value is `NaN` |
| LibraryRoutes.TruthyCopiesThatFail | server/routes/library.ts:53-69 | `copies: "0"` and `copies: "abc"` pass the missing-field check, yet they parse to 0 and `NaN` |
| LibraryRoutes.NewBookDoc | server/routes/library.ts:63-71 | the new book has `available == copies` for the parsed copies; with all fields present it validates exactly when `copies >= 1` |
| LibraryRoutes.GetBooks | server/routes/library.ts:23-46 | every book exactly once, with its view, newest first |
| LibraryRoutes.GetMembers | server/routes/library.ts:136-155 | exactly the users with role "member", newest first |
| LibraryRoutes.GetLoans | server/routes/library.ts:244-282 | a malformed `memberId` gives exactly 400 "Invalid user ID"; no `memberId` gives all loans; an id gives that member's loans |
| LibraryRoutes.AllLoans | server/routes/library.ts:257-275 | every borrow exactly once, newest first, overdue derived from `now` |
| LibraryRoutes.LoansOf | server/routes/library.ts:249-275 | exactly the borrows whose `userId` is the member, newest first |
| LibraryRoutes.AddBook | server/routes/library.ts:48-79 | a falsy field (absent, `0` or `""`) gives 400; an isbn in use gives 409; a parsed `copies` that is `NaN` or below 1 fails on save and gives 500; otherwise 201 and one new book with `available == copies`; no failure writes anything |
| LibraryRoutes.UpdateBook | server/routes/library.ts:81-106 | an invalid id gives 400; a failing validator or isbn clash gives 500; an unknown id gives 404; otherwise `$set` as sent; conservation holds whenever `available` is not among the fields sent |
| LibraryRoutes.DeleteBook | server/routes/library.ts:108-133 | an open loan of the book gives 400, checked before existence; an unknown book gives 404; otherwise exactly that book is removed |
| LibraryRoutes.MemberDocAsWritten | server/routes/library.ts:177-183 | the user `addMember` builds never passes the validators (no username) |
| LibraryRoutes.AddMember | server/routes/library.ts:157-201 | as written: 400 without name or email; 409 for an email in use; every other request gives 500, and the database never changes |
| LibraryRoutes.MemberDoc | server/routes/library.ts:177-183 | the corrected document uses the lower-cased email as username and validates for non-empty name, email and hash |
| LibraryRoutes.CorrectedAddMember | server/routes/library.ts:157-201 | corrected: a new member is stored, and 201 returned, exactly when the name and email are present and the email and derived username are free |
| LibraryRoutes.DeleteMember | server/routes/library.ts:203-241 | no id gives 400; a malformed id gives 500; an unknown user gives 404; a user with an open loan gives 400; otherwise the user and every borrow of theirs are removed and the books are untouched |
| LibraryRoutes.OpenLoansIgnoreReturned | server/routes/library.ts:218-234 | deleting the borrows of a user with no open loan leaves every book's open loans unchanged |
| LibraryRoutes.BorrowBook | server/routes/library.ts:284-360 | the failure order: missing field 400, invalid book id 400, unknown book 404, no copy 400, malformed member id 500, unknown member 400; on success 201, one open loan due in 14 days whose title and name are copied from the stored records, one copy fewer, conservation |
| LibraryRoutes.SaveLoan | server/routes/library.ts:317-333 | both writes of a loan succeed: the borrow is added under a fresh id and the book loses one copy, conserving the ledger |
| LibraryRoutes.ReturnBook | server/routes/library.ts:362-410 | an invalid id gives 400; an unknown borrow gives 404; an already-returned borrow gives 400; otherwise `returnedAt` is set to now, the book (if present) gets one copy back, conservation |
| LibraryRoutes.SaveReturn | server/routes/library.ts:382-390 | both writes of a return succeed and conserve the ledger |
| AuthRoutes.ViewOfUser | server/routes/auth.ts:35-40 | the user view carries the id, name, email and role and no password |
| AuthRoutes.ClaimsOf | server/routes/auth.ts:29-33 | the signed payload is the id, email and role of the user |
| AuthRoutes.FindByEmail | server/routes/auth.ts:19 | the lookup finds a user whose stored email is the lower-cased query, or none exactly when no user has it |
| AuthRoutes.Login | server/routes/auth.ts:10-47 | 400 without email or password; 200 exactly when a user with the lower-cased email has a password that matches; every other failure is the same 401 "Invalid credentials"; the token signs that user's claims |
| AuthRoutes.LoginFinds | server/routes/auth.ts:19-42 | the user stored under an email signs in with a password its hash accepts |
| AuthRoutes.Verify | server/routes/auth.ts:49-77 | 401 "No token provided" without a bearer header; 401 "Invalid token" when decoding fails; 401 "User not found" for a missing or unknown id; otherwise 200 with that user |
| AuthRoutes.LoginThenVerify | server/routes/auth.ts:29-72 | a token issued by login, sent back as a bearer header, verifies to the same user whenever decoding inverts signing |
| AuthRoutes.RegisteredUser | server/routes/auth.ts:95-101 | the new user's email is lower-cased, the password is hashed, and the role is the request's or "member" |
| AuthRoutes.Register | server/routes/auth.ts:79-125 | a missing field gives 400; an email in use gives 400; a role outside the enum or a taken username gives 500; otherwise 201 with one new user and their session, and the new user can then log in |
| SpringModel.Status.Value | server/src/main/java/com/leafstack/library/model/Borrow.java:39-51 | every status value is lower-case text |
| SpringModel.Role.Value | server/src/main/java/com/leafstack/library/model/User.java:42-54 | every role value is lower-case text |
| SpringModel.StatusValuesDistinct | server/src/main/java/com/leafstack/library/model/Borrow.java:39-42 | no two statuses have values equal ignoring case |
| SpringModel.RoleValuesDistinct | server/src/main/java/com/leafstack/library/model/User.java:43-44 | no two roles have values equal ignoring case |
| SpringModel.StatusFromString | server/src/main/java/com/leafstack/library/model/Borrow.java:54-61 | gives the status whose value equals the text ignoring case, exactly; `fromString(s.getValue()) == s`; anything else gives "Unknown status: " + text |
| SpringModel.RoleFromString | server/src/main/java/com/leafstack/library/model/User.java:56-63 | gives the role whose value equals the text ignoring case, exactly; `fromString(r.getValue()) == r`; anything else gives "Unknown role: " + text |
| SpringModel.Book.constructor | server/src/main/java/com/leafstack/library/model/Book.java:48-56 | the fields are stored as given, every copy starts available, and the id is unset |
| SpringModel.Book.Record | server/src/main/java/com/leafstack/library/model/Book.java:59-81 | the snapshot a repository stores carries the book's isbn and counters |
| SpringModel.Book.Load | server/src/main/java/com/leafstack/library/service/BookService.java:62 | a book read back by `findById` has the stored id and exactly the stored fields |
| SpringModel.Borrow.Blank | server/src/main/java/com/leafstack/library/model/Borrow.java:31 | a borrow built without arguments has status BORROWED and no dates |
| SpringModel.Borrow.constructor | server/src/main/java/com/leafstack/library/model/Borrow.java:67-74 | borrowed now, due in 14 days, not returned, status BORROWED, id unset |
| SpringModel.Borrow.Record | server/src/main/java/com/leafstack/library/model/Borrow.java:77-98 | the stored snapshot carries the borrow's ids, status and return date |
| SpringModel.Borrow.Load | server/src/main/java/com/leafstack/library/service/BorrowService.java:85 | a borrow read back by `findById` has the stored id and exactly the stored fields |
| SpringModel.User.Blank | server/src/main/java/com/leafstack/library/model/User.java:32 | the default role is MEMBER |
| SpringModel.User.constructor | server/src/main/java/com/leafstack/library/model/User.java:69-75 | every field as given; the email is not lower-cased |
| SpringModel.User.Record | server/src/main/java/com/leafstack/library/model/User.java:78-97 | the stored snapshot carries the user's email, username and role |
| SpringModel.User.Load | server/src/main/java/com/leafstack/library/service/BorrowService.java:56 | a user read back by `findById` has the stored id and exactly the stored fields |
| SpringStore.EmailsUniqueIgnoringCase | server/src/main/java/com/leafstack/library/service/AuthService.java:67-79 | stored lower-case emails that are unique are also unique ignoring case |
| SpringStore.ReplaceKeepsIsbns | server/src/main/java/com/leafstack/library/service/BookService.java:70-73 | rewriting a book with its own isbn or a free one keeps isbns unique |
| SpringStore.InsertFreshUser | server/src/main/java/com/leafstack/library/service/AuthService.java:67-84 | a user with a free lower-case email and a free username keeps the user table's invariants |
| SpringStore.OpenBorrowsAfterInsert | server/src/main/java/com/leafstack/library/service/BorrowService.java:80 | saving a BORROWED record adds one open borrow to its book only |
| SpringStore.OpenBorrowsAfterClose | server/src/main/java/com/leafstack/library/service/BorrowService.java:96-108 | marking an open borrow RETURNED takes one open borrow from its book only |
| SpringStore.Lent | server/src/main/java/com/leafstack/library/service/BorrowService.java:76-77 | lending changes only that book, whose `available` drops by one |
| SpringStore.LendKeepsLedger | server/src/main/java/com/leafstack/library/service/BorrowService.java:61-80 | a lend keeps unique isbns, at most one BORROWED record per book and user, `available >= 0`, and conservation |
| SpringStore.Restocked | server/src/main/java/com/leafstack/library/service/BorrowService.java:100-105 | a return adds one copy to the book if it still exists, with no cap, and nothing else |
| SpringStore.ReturnKeepsLedger | server/src/main/java/com/leafstack/library/service/BorrowService.java:95-108 | a return keeps the same invariants and conservation, whether or not the book still exists |
| SpringStore.Repositories.constructor | server/src/main/java/com/leafstack/library/repository/BookRepository.java:9-16 | the empty repositories hold no records and satisfy every invariant |
| SpringStore.Repositories.FindBookById | server/src/main/java/com/leafstack/library/service/BookService.java:62 | a book is found exactly when its id is stored, and is loaded with the stored fields |
| SpringStore.Repositories.SaveBook | server/src/main/java/com/leafstack/library/service/BookService.java:56 | `save` stores the object's snapshot under its id, or under a fresh id it assigns, and changes nothing else |
| SpringStore.Repositories.DeleteBookById | server/src/main/java/com/leafstack/library/service/BookService.java:106 | removes only that book |
| SpringStore.Repositories.FindBorrowById | server/src/main/java/com/leafstack/library/service/BorrowService.java:85 | a borrow is found exactly when its id is stored |
| SpringStore.Repositories.SaveBorrow | server/src/main/java/com/leafstack/library/service/BorrowService.java:80 | `save` of a borrow: snapshot under its id or a fresh one |
| SpringStore.Repositories.SaveUser | server/src/main/java/com/leafstack/library/service/AuthService.java:84 | `save` of a user: snapshot under its id or a fresh one |
| BookService.FromBook | server/src/main/java/com/leafstack/library/dto/BookResponse.java:33-45 | the response carries the id, the isbn and the counters of the book |
| BookService.GetAllBooks | server/src/main/java/com/leafstack/library/service/BookService.java:25-30 | every book exactly once, newest first |
| BookService.GetBookById | server/src/main/java/com/leafstack/library/service/BookService.java:32-39 | the book exactly when it is stored, else "Book not found" |
| BookService.AddBook | server/src/main/java/com/leafstack/library/service/BookService.java:41-58 | an isbn in use is refused and nothing changes; otherwise one new book with `available == copies` under a fresh id; isbns stay unique |
| BookService.AdjustedAvailable | server/src/main/java/com/leafstack/library/service/BookService.java:81-85 | `max(0, available + newCopies - oldCopies)`: never negative; shifted by the change in copies unless that would go below 0 |
| BookService.Revised | server/src/main/java/com/leafstack/library/service/BookService.java:75-87 | the revised book takes the request's copies and isbn, and `available` is the adjusted one |
| BookService.RevisedKeepsBalanceIff | server/src/main/java/com/leafstack/library/service/BookService.java:81-85 | a balanced book stays balanced exactly when the new copies cover the open borrows; below that, `available` is 0 and the book appears to hold more copies than it owns |
| BookService.RestockedTimes | server/src/main/java/com/leafstack/library/service/BorrowService.java:100-105 | after `n` returns of a book that exists, its `available` has grown by `n`, with no cap; nothing else changes |
| BookService.OverReturned | server/src/main/java/com/leafstack/library/service/BookService.java:81-85 | cutting a balanced book's copies below its open borrows, then taking those borrows back, leaves `available > copies` |
| BookService.UpdateBook | server/src/main/java/com/leafstack/library/service/BookService.java:60-91 | an unknown id and a changed isbn held by another book are refused, with no change; a kept isbn is always allowed; otherwise the stored book is the revised one; isbns stay unique and `available >= 0` is kept |
| BookService.DeleteBook | server/src/main/java/com/leafstack/library/service/BookService.java:93-107 | an unknown id or a BORROWED record of the book is refused; otherwise exactly that book is removed |
| BookService.SearchBooksAsWritten | server/src/main/java/com/leafstack/library/service/BookService.java:109-117 | as written: only and every book whose title or author contains the query ignoring case |
| BookService.SearchBooksAsWrittenRepeats | server/src/main/java/com/leafstack/library/service/BookService.java:109-117 | as written: a book matching on title and author is listed twice |
| BookService.SearchKeys | server/src/main/java/com/leafstack/library/service/BookService.java:109-117 | the ids kept: every book matching on title or author, each once, the title matches first, each group oldest first |
| BookService.SearchBooks | server/src/main/java/com/leafstack/library/service/BookService.java:109-117 | corrected: exactly the matching books, each once, in the order of `SearchKeys`, which a working `distinct()` keeps |
| BookService.SearchBooksEmptyQuery | server/src/main/java/com/leafstack/library/service/BookService.java:109-117 | the empty query finds every book |
| BorrowService.BorrowRequest.constructor | server/src/main/java/com/leafstack/library/dto/BorrowRequest.java:18-22 | the request holds the given book id, user id and name |
| BorrowService.ToResponse | server/src/main/java/com/leafstack/library/service/BorrowService.java:112-132 | the record's own fields and its status text; the title and author of its book exactly when the book still exists |
| BorrowService.GetAllBorrows | server/src/main/java/com/leafstack/library/service/BorrowService.java:29-34 | every record exactly once, in insertion order |
| BorrowService.GetUserBorrows | server/src/main/java/com/leafstack/library/service/BorrowService.java:36-41 | exactly that user's records, in insertion order |
| BorrowService.BorrowBook | server/src/main/java/com/leafstack/library/service/BorrowService.java:43-82 | the failure order: "Book not found", "Book is not available", "User not found", "User has already borrowed this book", with no change; on success one copy fewer and one BORROWED record due in 14 days; the invariants and conservation hold |
| BorrowService.ReturnBook | server/src/main/java/com/leafstack/library/service/BorrowService.java:84-110 | an unknown record or a record not BORROWED is refused, with no change; otherwise RETURNED with today's date, one copy back if the book exists, uncapped; the invariants and conservation hold |
| AuthService.FromUser | server/src/main/java/com/leafstack/library/dto/UserResponse.java:20-27 | the response carries the id, name, email and role text |
| AuthService.FindByEmail | server/src/main/java/com/leafstack/library/service/AuthService.java:27 | finds a user with exactly that stored email, or none exactly when there is none |
| AuthService.Login | server/src/main/java/com/leafstack/library/service/AuthService.java:24-45 | succeeds exactly for a stored lower-cased email with a matching password; an unknown email and a wrong password both give "Invalid credentials"; the token is generated from the user's id, email and role |
| AuthService.LoginFinds | server/src/main/java/com/leafstack/library/service/AuthService.java:24-45 | the account stored under an email logs in with a matching password |
| AuthService.LoginIgnoresEmailCase | server/src/main/java/com/leafstack/library/service/AuthService.java:25 | two emails that differ only in case give the same login outcome |
| AuthService.Verify | server/src/main/java/com/leafstack/library/service/AuthService.java:47-63 | an invalid or expired token, a token without a user id, and an unknown user each give their own message; otherwise that user |
| AuthService.Register | server/src/main/java/com/leafstack/library/service/AuthService.java:65-86 | a lower-cased email in use, then a taken username, is refused with no change; otherwise one MEMBER with the lower-cased email and encoded password; uniqueness holds, and the new user can log in |
| LibraryController.GetBooks | server/src/main/java/com/leafstack/library/controller/LibraryController.java:27-31 | 200 with the service's list |
| LibraryController.GetBook | server/src/main/java/com/leafstack/library/controller/LibraryController.java:33-41 | 200 with the book exactly when it exists, else 404 |
| LibraryController.AddBook | server/src/main/java/com/leafstack/library/controller/LibraryController.java:43-52 | an invalid body gives 400; an isbn clash gives 409; otherwise 200 and the new book, which meets the entity's `@Min` constraints; borrows and users are unchanged |
| LibraryController.UpdateBook | server/src/main/java/com/leafstack/library/controller/LibraryController.java:54-63 | an invalid body gives 400; every service failure, the isbn clash included, gives 404; otherwise 200 and the revised book, which meets the `@Min` constraints; borrows and users are unchanged |
| LibraryController.DeleteBook | server/src/main/java/com/leafstack/library/controller/LibraryController.java:65-74 | every service failure gives 404; otherwise 200 "Book deleted successfully" |
| LibraryController.SearchBooks | server/src/main/java/com/leafstack/library/controller/LibraryController.java:76-80 | 200 with the search as written: only and every book matching on title or author |
| LibraryController.CorrectedSearchBooks | server/src/main/java/com/leafstack/library/controller/LibraryController.java:76-80 | corrected: 200 with every match, each listed once |
| LibraryController.GetAllBorrows | server/src/main/java/com/leafstack/library/controller/LibraryController.java:83-88 | 200 with every borrow |
| LibraryController.GetMyBorrows | server/src/main/java/com/leafstack/library/controller/LibraryController.java:90-95 | only and every record of the caller |
| LibraryController.BorrowBook | server/src/main/java/com/leafstack/library/controller/LibraryController.java:97-112 | the borrower is the caller's id and email whatever the body says; every failure gives 400 with no change; on success one BORROWED record and exactly one copy fewer of that book; users are unchanged; conservation holds |
| LibraryController.ReturnBook | server/src/main/java/com/leafstack/library/controller/LibraryController.java:114-122 | every failure gives 404 with no change; on success status "returned" and one copy back, uncapped; users and the id counter are unchanged |
| LibraryContext.AddBookPayload | client/contexts/LibraryContext.tsx:131 | the posted body has `available == copies` |
| LibraryContext.BorrowPayloadFor | client/contexts/LibraryContext.tsx:184-188 | the posted body names the book and the signed-in user |
| LibraryContext.ReplaceWhere | client/contexts/LibraryContext.tsx:147 | `map(x => x.id === id ? nx : x)`, used for books here and for borrows at lines 213-215: same length; exactly the positions with that id are replaced |
| LibraryContext.ShiftAvailable | client/contexts/LibraryContext.tsx:194-198 | same length; exactly the books with that id have `available` shifted |
| LibraryContext.FindBorrow | client/contexts/LibraryContext.tsx:218 | `find` gives the first borrow with that id, or none exactly when none has it |
| LibraryContext.ReplaceBookKeepsIds | client/contexts/LibraryContext.tsx:147 | replacing the books with an id by a book of the same id keeps every position's id |
| LibraryContext.CountWithId | client/contexts/LibraryContext.tsx:194-198 | the number of cached books with an id is at most the cache size |
| LibraryContext.ShiftAvailableTotal | client/contexts/LibraryContext.tsx:194-198 | a shift by delta moves the total availability by delta times the number of books with that id |
| LibraryContext.ShiftAvailableCopies | client/contexts/LibraryContext.tsx:194-198 | a shift leaves the total of copies alone |
| LibraryContext.LibraryState.constructor | client/contexts/LibraryContext.tsx:76-78 | the provider starts with empty arrays |
| LibraryContext.LibraryState.RefreshData | client/contexts/LibraryContext.tsx:101-124 | nothing without a user; an admin loads all loans and the members, a member only their loans; any failed request leaves the cache alone |
| LibraryContext.LibraryState.AddBook | client/contexts/LibraryContext.tsx:127-139 | success appends the server's book; failure changes nothing |
| LibraryContext.LibraryState.UpdateBook | client/contexts/LibraryContext.tsx:141-153 | success replaces the books with that id; failure changes nothing |
| LibraryContext.LibraryState.DeleteBook | client/contexts/LibraryContext.tsx:155-164 | success drops exactly the books with that id, keeping order |
| LibraryContext.LibraryState.DeleteMember | client/contexts/LibraryContext.tsx:166-175 | success drops exactly the members with that id, keeping order |
| LibraryContext.LibraryState.BorrowBook | client/contexts/LibraryContext.tsx:178-205 | without a user: false and nothing changes; success appends the borrow and takes one copy from the books with that id |
| LibraryContext.LibraryState.ReturnBook | client/contexts/LibraryContext.tsx:207-232 | success replaces the borrow and gives back a copy to the book of the borrow cached before the call; an uncached borrow leaves the books alone |
| LibraryContext.LibraryState.UserBorrows | client/contexts/LibraryContext.tsx:235-239 | an admin's own unreturned borrows; a member's unreturned borrows; nothing without a user |
| LibraryPage.PageStats | client/pages/OriginalLibrarySystem.tsx:37-43 | copies and available summed; unreturned, and unreturned and overdue, counted; overdue never exceeds active |
| LibraryPage.StatsAfterAddBook | client/pages/OriginalLibrarySystem.tsx:37-43 | adding a book to the cache adds its copies and available copies to the totals |
| LibraryPage.StatsAfterBorrow | client/pages/OriginalLibrarySystem.tsx:37-43 | after a borrow in the cache the total of copies holds, availability drops by one per book with that id, and the counts grow by the new borrow |
| LibraryPage.FilteredBooks | client/pages/OriginalLibrarySystem.tsx:168-175 | exactly the books whose title, author or category contains the search ignoring case, in order; an empty search keeps all |
| LibraryPage.FilteredMembers | client/pages/OriginalLibrarySystem.tsx:390-396 | the same on name and email |
| LibraryPage.FilteredBorrows | client/pages/OriginalLibrarySystem.tsx:455-461 | the same on book title and user name |
| LibraryPage.BorrowRows | client/pages/OriginalLibrarySystem.tsx:500 | the table shows exactly the matching unreturned borrows, at most the active count |
| LibraryPage.CopiesInput | client/pages/OriginalLibrarySystem.tsx:364 | `parseInt(value) \|\| 1`: never 0; NaN becomes 1; any other non-zero number is kept |
| LibraryPage.CopiesInputCases | client/pages/OriginalLibrarySystem.tsx:364 | a typed positive number is kept; "0" and text without a digit become 1 |
| JsNumber.ParseIntNumeral | client/pages/OriginalLibrarySystem.tsx:364 | `parseInt` reads every decimal numeral back as its number, and a leading minus negates it |
| JsNumber.ParseIntNeedsDigit | client/pages/OriginalLibrarySystem.tsx:364 | text without a decimal digit parses to NaN |
| AdminDashboard.DashboardStats | client/pages/AdminDashboard.tsx:14-19 | copies summed; members counted; unreturned, and unreturned and overdue, counted; overdue never exceeds active |
| AdminDashboard.StatsAfterDeleteMember | client/pages/AdminDashboard.tsx:14-19 | deleting a member from the cache lowers the member count by the members with that id and nothing else |
| UserDashboard.FilteredBooks | client/pages/UserDashboard.tsx:20-27 | the same search as the admin books tab |
| UserDashboard.DashboardStats | client/pages/UserDashboard.tsx:71-75 | loans counted, overdue loans counted and never more than the loans, books read always 0 |
| UserDashboard.MemberStatsMatchPage | client/pages/UserDashboard.tsx:71-75 | for a member, the dashboard's loan and overdue counts are the library page's active and overdue counts |
| UserDashboard.BorrowButtonFor | client/pages/UserDashboard.tsx:219-220 | the button is disabled exactly at `available == 0`, and labelled "Borrow" exactly when `available > 0` |

## Left out

- Case mapping covers the ASCII letters only. The Unicode case rules of JavaScript `toLowerCase` and Java `toLowerCase`/`equalsIgnoreCase` are not modelled.
- The Mongoose `trim` setters are not modelled: text is stored as sent.
- Timestamps (`createdAt`, `updatedAt`) are not modelled. Creation order is id order, and the request clock is one instant.
- ISO date formatting of responses is not modelled. Dates are milliseconds.
- Java `Integer` overflow is not modelled. The counters are unbounded integers: `available - 1` and `available + 1` never wrap.
- Concurrency is not modelled. Every handler runs alone, and the two saves of a borrow or return both happen.
- The partial failure of a second save, and a database error in any route (the remaining 500 answers), are not modelled. ObjectId casting is modelled only as the three `IdArg` cases.
- bcrypt, the `PasswordEncoder`, `jsonwebtoken` and `JwtUtil` are not modelled. They are function parameters with no properties beyond those a lemma states.
- Token expiry is covered only through the `expired` parameter of `AuthService.Verify`.
- `@PreAuthorize`, the Spring security configuration, `JwtAuthenticationFilter` and `UserPrincipal` extraction are not modelled. The controller receives the principal as a value.
- Bean validation of the request bodies is modelled only as the `@NotBlank`/`@Min` checks of `BookRequest` and `BorrowRequest`. `Character.isWhitespace` is modelled on ASCII.
- The client's HTTP requests, `localStorage` and error logging are function parameters or are not modelled. Loading flags, dialogs, toasts and rendering are not modelled.
- The `ValidationError` branch of the Express `borrowBook` catch is not modelled. It cannot occur: the loan copies a title and a name that passed the same validators when their documents were saved.
- `addMemberFromAuth` is not modelled. It only reads a user by id and has no logic of its own.
- `LibraryRoutes.UpdateBook` states conservation only when `available` is not among the fields sent. `$set` writes the counters verbatim, so a patch of `available` changes the ledger by design.
- `LibraryContext.LibraryState.RefreshData` does not model the concurrent `Promise.all`. It models the three requests made in sequence, and any one failure aborts the update.

- JsNumber.ParseInt: returns an exact integer. JavaScript `parseInt` returns a double, which loses digits beyond 2^53 and gives a numeral of 21 or more digits in exponent form; neither is modelled.
- LibraryRoutes.AddBook: a JSON number `copies` is taken as an integer. A fraction such as 2.5, which `parseInt` truncates to 2, is not modelled, and neither are non-text, non-number values such as `true`.

## Findings

| source | as written | input that shows it | evidently intended | confidence | as-written member | corrected member |
|---|---|---|---|---|---|---|
| server/routes/library.ts:177-185 | `addMember` builds `new User({ name, email, password, role, phone })` without a `username`, which the User schema requires, so `save()` always throws and the handler answers 500 | `POST /members` with `{ name: "Ann", email: "ann@x.org" }` on a database without that email: the answer is 500 and no member is stored | a new member is stored and returned with 201; here the lower-cased email serves as the username | not executed | LibraryRoutes.AddMember | LibraryRoutes.CorrectedAddMember |
| server/src/main/java/com/leafstack/library/service/BookService.java:109-117 | `searchBooks` concatenates the title matches and the author matches, then calls `distinct()`. `Book` does not override `equals`, and the two finders return distinct objects, so a book found by both queries is listed twice | a catalog holding one book with title "Java" and author "Java Smith", searched for "java": the list holds that book twice | each matching book listed once, title matches first; the endpoint over it is `LibraryController.CorrectedSearchBooks` | not executed | BookService.SearchBooksAsWrittenRepeats | BookService.SearchBooks |
