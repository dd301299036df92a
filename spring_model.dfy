/** The Spring entities: model/Book.java, model/Borrow.java and
    model/User.java. Each entity is an object whose fields the services change
    through setters (written here as field assignments); the repositories keep
    a value snapshot (`Record()`) of each saved object. */
module SpringModel {
  import opened Common
  import opened Text

  /** `Borrow.Status` */
  datatype Status = BORROWED | RETURNED | OVERDUE {
    /** `getValue()` */
    function Value(): (v: string)
      ensures Lower(v) == v
    {
      match this
      case BORROWED => LowerOfLowercase("borrowed"); "borrowed"
      case RETURNED => LowerOfLowercase("returned"); "returned"
      case OVERDUE => LowerOfLowercase("overdue"); "overdue"
    }
  }

  /** `User.Role` */
  datatype Role = ADMIN | MEMBER {
    function Value(): (v: string)
      ensures Lower(v) == v
    {
      match this
      case ADMIN => LowerOfLowercase("admin"); "admin"
      case MEMBER => LowerOfLowercase("member"); "member"
    }
  }

  lemma LowerOfLowercase(s: string)
    requires forall i :: 0 <= i < |s| ==> !IsUpper(s[i])
    ensures Lower(s) == s
  {
  }

  /** `Status.values()`, in declaration order. */
  const AllStatuses: seq<Status> := [BORROWED, RETURNED, OVERDUE]

  /** `Role.values()` */
  const AllRoles: seq<Role> := [ADMIN, MEMBER]

  /** No two statuses have values that are equal ignoring case. */
  lemma StatusValuesDistinct(s: Status, t: Status)
    ensures EqualsIgnoreCase(s.Value(), t.Value()) ==> s == t
  {
    assert s.Value()[0] != t.Value()[0] || s == t;
  }

  lemma RoleValuesDistinct(s: Role, t: Role)
    ensures EqualsIgnoreCase(s.Value(), t.Value()) ==> s == t
  {
    assert s.Value()[0] != t.Value()[0] || s == t;
  }

  /** `Status.fromString`: the status whose value equals the text ignoring
      case; IllegalArgumentException("Unknown status: " + text) when there is none. */
  method StatusFromString(value: string) returns (r: Result<Status>)
    ensures forall s: Status :: r == Ok(s) <==> EqualsIgnoreCase(s.Value(), value)
    ensures forall s: Status :: value == s.Value() ==> r == Ok(s)
    ensures r.Err? ==> r.message == "Unknown status: " + value
  {
    var i := 0;
    while i < |AllStatuses|
      invariant 0 <= i <= |AllStatuses|
      invariant forall j :: 0 <= j < i ==> !EqualsIgnoreCase(AllStatuses[j].Value(), value)
    {
      var status := AllStatuses[i];
      if EqualsIgnoreCase(status.Value(), value) {
        forall s: Status ensures EqualsIgnoreCase(s.Value(), value) ==> s == status {
          StatusValuesDistinct(s, status);
        }
        return Ok(status);
      }
      i := i + 1;
    }
    forall s: Status ensures !EqualsIgnoreCase(s.Value(), value) {
      assert s == AllStatuses[0] || s == AllStatuses[1] || s == AllStatuses[2];
    }
    r := Err("Unknown status: " + value);
  }

  /** `Role.fromString` */
  method RoleFromString(value: string) returns (r: Result<Role>)
    ensures forall s: Role :: r == Ok(s) <==> EqualsIgnoreCase(s.Value(), value)
    ensures forall s: Role :: value == s.Value() ==> r == Ok(s)
    ensures r.Err? ==> r.message == "Unknown role: " + value
  {
    var i := 0;
    while i < |AllRoles|
      invariant 0 <= i <= |AllRoles|
      invariant forall j :: 0 <= j < i ==> !EqualsIgnoreCase(AllRoles[j].Value(), value)
    {
      var role := AllRoles[i];
      if EqualsIgnoreCase(role.Value(), value) {
        forall s: Role ensures EqualsIgnoreCase(s.Value(), value) ==> s == role {
          RoleValuesDistinct(s, role);
        }
        return Ok(role);
      }
      i := i + 1;
    }
    forall s: Role ensures !EqualsIgnoreCase(s.Value(), value) {
      assert s == AllRoles[0] || s == AllRoles[1];
    }
    r := Err("Unknown role: " + value);
  }

  /** The stored form of a book. */
  datatype BookRecord = BookRecord(title: string, author: string, isbn: string, category: string,
                                   copies: int, available: int, description: Option<string>)

  /** The stored form of a borrow; `dueDate` and `returnDate` may be null. */
  datatype BorrowRecord = BorrowRecord(bookId: Id, userId: Id, userName: string, borrowDate: Option<Millis>,
                                       dueDate: Option<Millis>, returnDate: Option<Millis>, status: Status)

  /** The stored form of a user. */
  datatype UserRecord = UserRecord(username: string, name: string, email: string, password: string,
                                   role: Role, phone: Option<string>)

  /** The bean-validation constraints declared on the Book entity (`@Min(1)`
      on copies, `@Min(0)` on available). Saving through a repository does not
      check them. */
  predicate BookConstraints(b: BookRecord) {
    b.copies >= 1 && b.available >= 0
  }

  class Book {
    var id: Option<Id>
    var title: string
    var author: string
    var isbn: string
    var category: string
    var copies: int
    var available: int
    var description: Option<string>

    /** `new Book(title, author, isbn, category, copies, description)`: all
        copies start available, the id is left for the repository to assign. */
    constructor (title: string, author: string, isbn: string, category: string, copies: int,
                 description: Option<string>)
      ensures id.None?
      ensures Record() == BookRecord(title, author, isbn, category, copies, copies, description)
    {
      this.id := None;
      this.title, this.author, this.isbn, this.category := title, author, isbn, category;
      this.copies, this.available := copies, copies;
      this.description := description;
    }

    /** A book read back from the repository. */
    constructor Load(id: Id, r: BookRecord)
      ensures this.id == Some(id) && Record() == r
    {
      this.id := Some(id);
      title, author, isbn, category := r.title, r.author, r.isbn, r.category;
      copies, available, description := r.copies, r.available, r.description;
    }

    function Record(): (r: BookRecord)
      reads this`title, this`author, this`isbn, this`category, this`copies, this`available, this`description
      ensures r.copies == copies && r.available == available && r.isbn == isbn
    {
      BookRecord(title, author, isbn, category, copies, available, description)
    }
  }

  class Borrow {
    var id: Option<Id>
    var bookId: Id
    var userId: Id
    var userName: string
    var borrowDate: Option<Millis>
    var dueDate: Option<Millis>
    var returnDate: Option<Millis>
    var status: Status

    /** `new Borrow()`: nothing set but the default status BORROWED. */
    constructor Blank()
      ensures id.None? && status == BORROWED
      ensures borrowDate.None? && dueDate.None? && returnDate.None?
    {
      id, bookId, userId, userName := None, 0, 0, "";
      borrowDate, dueDate, returnDate := None, None, None;
      status := BORROWED;
    }

    /** `new Borrow(bookId, userId, userName)`: borrowed now, due in 14 days,
        not returned, status BORROWED. */
    constructor (bookId: Id, userId: Id, userName: string, now: Millis)
      ensures id.None?
      ensures Record() == BorrowRecord(bookId, userId, userName, Some(now), Some(now + LoanPeriodMillis),
                                       None, BORROWED)
    {
      this.id := None;
      this.bookId, this.userId, this.userName := bookId, userId, userName;
      borrowDate := Some(now);
      dueDate := Some(now + LoanPeriodMillis);
      returnDate := None;
      status := BORROWED;
    }

    constructor Load(id: Id, r: BorrowRecord)
      ensures this.id == Some(id) && Record() == r
    {
      this.id := Some(id);
      bookId, userId, userName := r.bookId, r.userId, r.userName;
      borrowDate, dueDate, returnDate, status := r.borrowDate, r.dueDate, r.returnDate, r.status;
    }

    function Record(): (r: BorrowRecord)
      reads this`bookId, this`userId, this`userName, this`borrowDate, this`dueDate, this`returnDate, this`status
      ensures r.bookId == bookId && r.userId == userId && r.status == status && r.returnDate == returnDate
    {
      BorrowRecord(bookId, userId, userName, borrowDate, dueDate, returnDate, status)
    }
  }

  class User {
    var id: Option<Id>
    var username: string
    var name: string
    var email: string
    var password: string
    var role: Role
    var phone: Option<string>

    /** `new User()`: the role defaults to MEMBER. */
    constructor Blank()
      ensures id.None? && role == MEMBER && phone.None?
    {
      id, username, name, email, password := None, "", "", "", "";
      role, phone := MEMBER, None;
    }

    /** `new User(username, name, email, password, role)`: every field as
        given; in particular the email is not lower-cased. */
    constructor (username: string, name: string, email: string, password: string, role: Role)
      ensures id.None?
      ensures Record() == UserRecord(username, name, email, password, role, None)
    {
      id := None;
      this.username, this.name, this.email, this.password, this.role := username, name, email, password, role;
      phone := None;
    }

    constructor Load(id: Id, r: UserRecord)
      ensures this.id == Some(id) && Record() == r
    {
      this.id := Some(id);
      username, name, email, password, role, phone := r.username, r.name, r.email, r.password, r.role, r.phone;
    }

    function Record(): (r: UserRecord)
      reads this`username, this`name, this`email, this`password, this`role, this`phone
      ensures r.email == email && r.username == username && r.role == role
    {
      UserRecord(username, name, email, password, role, phone)
    }
  }
}
