/**
 The four tables the library service uses (users, book copies, borrow requests,
 borrows), plus `books`, which these operations leave alone, as rows, and the
 single-statement SQL queries over them
 (COUNT, SELECT ... LIMIT 1, UPDATE) as functions on sequences of rows.
 Timestamps are integers counting seconds; the caller supplies the current time.
 */
module Tables {

  datatype Option<+T> = None | Some(value: T)

  type UserId = string
  type BookId = int
  type CopyId = int
  type Time = int

  const Hour: int := 3600
  const Day: int := 24 * Hour
  /** How long a prebooked copy is held: `timedelta(hours=1)`. */
  const HoldDuration: int := Hour
  /** How long a loan runs: `timedelta(days=7)`. */
  const LoanDuration: int := 7 * Day

  /** The `status` column of `book_copies`. */
  datatype CopyStatus = Available | Prebooked | Borrowed

  /** The `status` column of `borrow_requests`; the service itself only ever writes
      `Active` (stored as 'prebooked'), the others come from outside it. */
  datatype RequestStatus = Active | Expired | Completed

  datatype Book = Book(id: BookId, title: string, availableStock: int, cover: string)

  /** A row of `users`, password included. */
  datatype UserRow = UserRow(userId: UserId, name: string, password: string, role: string,
                             department: string, year: string)

  /** The `User` object handed to the session: a row without its password. */
  datatype User = User(userId: UserId, name: string, role: string, department: string, year: string)

  datatype Copy = Copy(copyId: CopyId, bookId: BookId, qrCode: string, status: CopyStatus)

  datatype Request = Request(userId: UserId, copyId: CopyId, requestTime: Time, expiresAt: Time,
                             status: RequestStatus)

  datatype Loan = Loan(userId: UserId, copyId: CopyId, borrowedAt: Time, returnBy: Time)

  /** The whole store at one moment. */
  datatype Db = Db(books: seq<Book>, users: seq<UserRow>, copies: seq<Copy>,
                   requests: seq<Request>, loans: seq<Loan>)

  // ---------------------------------------------------------------------------
  // Login

  predicate Credentials(row: UserRow, userId: UserId, password: string, role: string)
  {
    row.userId == userId && row.password == password && row.role == role
  }

  function Public(row: UserRow): User
  {
    User(row.userId, row.name, row.role, row.department, row.year)
  }

  /** `LoginService.authenticate`: the first user row matching id, password and role
      exactly, without its password; `None` when no row matches. */
  function Authenticate(users: seq<UserRow>, userId: UserId, password: string, role: string)
    : (r: Option<User>)
    ensures r.None? <==> forall i :: 0 <= i < |users| ==> !Credentials(users[i], userId, password, role)
    ensures r.Some? ==>
      exists i :: 0 <= i < |users| && Credentials(users[i], userId, password, role) &&
        r.value == Public(users[i]) &&
        forall j :: 0 <= j < i ==> !Credentials(users[j], userId, password, role)
    ensures r.Some? ==> r.value.userId == userId && r.value.role == role
  {
    if users == [] then None
    else if Credentials(users[0], userId, password, role) then Some(Public(users[0]))
    else
      var r := Authenticate(users[1..], userId, password, role);
      assert forall i :: 1 <= i < |users| ==> users[i] == users[1..][i - 1];
      r
  }

  /** `User.to_dict`: the dictionary stored in the session. */
  function ToDict(u: User): (d: map<string, string>)
    ensures d.Keys == {"id", "name", "role", "department", "year"}
  {
    map["id" := u.userId, "name" := u.name, "role" := u.role,
        "department" := u.department, "year" := u.year]
  }

  /** The inverse of `ToDict`, used to state that the dictionary loses nothing. */
  function FromDict(d: map<string, string>): Option<User>
  {
    if "id" in d && "name" in d && "role" in d && "department" in d && "year" in d
    then Some(User(d["id"], d["name"], d["role"], d["department"], d["year"]))
    else None
  }

  lemma SessionRoundTrip(u: User)
    ensures FromDict(ToDict(u)) == Some(u)
    ensures ToDict(u)["id"] == u.userId && ToDict(u)["role"] == u.role
  {
  }

  // ---------------------------------------------------------------------------
  // Prebook limits and counting

  /** `max_prebook`: one active prebook for the role "student", two for any other role. */
  function MaxPrebook(role: string): (n: nat)
    ensures n == 1 <==> role == "student"
    ensures 1 <= n <= 2
  {
    if role == "student" then 1 else 2
  }

  /** The two prebook service classes `PrebookFactory.get_service` chooses between. */
  datatype PrebookService = StudentPrebook | StaffPrebook

  /** `PrebookFactory.get_service`: the student variant for "student", the staff
      variant for anything else; both delegate to the same prebook operation. */
  function GetService(role: string): (s: PrebookService)
    ensures s == StudentPrebook <==> MaxPrebook(role) == 1
  {
    if role == "student" then StudentPrebook else StaffPrebook
  }

  predicate IsActiveFor(r: Request, userId: UserId)
  {
    r.userId == userId && r.status == Active
  }

  /** `SELECT COUNT(*) FROM borrow_requests WHERE user_id=? AND status='prebooked'`. */
  function ActiveCount(requests: seq<Request>, userId: UserId): (n: nat)
    ensures n <= |requests|
    ensures n == 0 <==> forall i :: 0 <= i < |requests| ==> !IsActiveFor(requests[i], userId)
  {
    if requests == [] then 0
    else
      var rest := ActiveCount(requests[1..], userId);
      assert forall i :: 1 <= i < |requests| ==> requests[i] == requests[1..][i - 1];
      (if IsActiveFor(requests[0], userId) then 1 else 0) + rest
  }

  lemma {:induction false} ActiveCountAppend(requests: seq<Request>, r: Request, userId: UserId)
    ensures ActiveCount(requests + [r], userId) ==
            ActiveCount(requests, userId) + (if IsActiveFor(r, userId) then 1 else 0)
  {
    if requests != [] {
      assert (requests + [r])[1..] == requests[1..] + [r];
      ActiveCountAppend(requests[1..], r, userId);
    }
  }

  // ---------------------------------------------------------------------------
  // Copies

  predicate IsAvailableOf(c: Copy, bookId: BookId)
  {
    c.bookId == bookId && c.status == Available
  }

  /** `copy_id` is the primary key of `book_copies`. */
  predicate UniqueCopyIds(copies: seq<Copy>)
  {
    forall i, j :: 0 <= i < j < |copies| ==> copies[i].copyId != copies[j].copyId
  }

  predicate KnownCopy(copies: seq<Copy>, copyId: CopyId)
  {
    exists i :: 0 <= i < |copies| && copies[i].copyId == copyId
  }

  /** `SELECT copy_id FROM book_copies WHERE book_id=? AND status='available' LIMIT 1`.
      The SQL names no order; this model takes the first such row in table order. */
  function FirstAvailable(copies: seq<Copy>, bookId: BookId): (r: Option<CopyId>)
    ensures r.None? <==> forall i :: 0 <= i < |copies| ==> !IsAvailableOf(copies[i], bookId)
    ensures r.Some? ==>
      exists i :: 0 <= i < |copies| && IsAvailableOf(copies[i], bookId) && copies[i].copyId == r.value
  {
    if copies == [] then None
    else if IsAvailableOf(copies[0], bookId) then Some(copies[0].copyId)
    else
      var r := FirstAvailable(copies[1..], bookId);
      assert forall i :: 1 <= i < |copies| ==> copies[i] == copies[1..][i - 1];
      r
  }

  /** `UPDATE book_copies SET status=? WHERE copy_id=?`. */
  function WithStatus(copies: seq<Copy>, copyId: CopyId, s: CopyStatus): (r: seq<Copy>)
    ensures |r| == |copies|
    ensures forall i :: 0 <= i < |r| ==>
      r[i] == if copies[i].copyId == copyId then copies[i].(status := s) else copies[i]
  {
    seq(|copies|, i requires 0 <= i < |copies| =>
      if copies[i].copyId == copyId then copies[i].(status := s) else copies[i])
  }

  /** `BookCopyService.get_by_qr`: the first copy whose QR code matches, `None` if none does. */
  function GetByQr(copies: seq<Copy>, qr: string): (r: Option<Copy>)
    ensures r.None? <==> forall i :: 0 <= i < |copies| ==> copies[i].qrCode != qr
    ensures r.Some? ==>
      exists i :: 0 <= i < |copies| && copies[i] == r.value && r.value.qrCode == qr &&
        forall j :: 0 <= j < i ==> copies[j].qrCode != qr
  {
    if copies == [] then None
    else if copies[0].qrCode == qr then Some(copies[0])
    else
      var r := GetByQr(copies[1..], qr);
      assert forall i :: 1 <= i < |copies| ==> copies[i] == copies[1..][i - 1];
      r
  }

  /** The number of available copies of a book: what `available_stock` is meant to track. */
  function AvailableCount(copies: seq<Copy>, bookId: BookId): nat
  {
    if copies == [] then 0
    else (if IsAvailableOf(copies[0], bookId) then 1 else 0) + AvailableCount(copies[1..], bookId)
  }

  /** Taking the one row with a given id out of `available` for a book lowers that
      book's count of available copies by exactly one. */
  lemma {:induction false} WithStatusTakesOne(copies: seq<Copy>, k: nat, bookId: BookId, s: CopyStatus)
    requires UniqueCopyIds(copies)
    requires k < |copies| && IsAvailableOf(copies[k], bookId)
    requires s != Available
    ensures AvailableCount(WithStatus(copies, copies[k].copyId, s), bookId) == AvailableCount(copies, bookId) - 1
  {
    var c := copies[k].copyId;
    var w := WithStatus(copies, c, s);
    assert w[1..] == WithStatus(copies[1..], c, s);
    if k == 0 {
      WithStatusMissesNone(copies[1..], c, s, bookId);
    } else {
      WithStatusTakesOne(copies[1..], k - 1, bookId, s);
      assert copies[0].copyId != c;
    }
  }

  lemma {:induction false} WithStatusMissesNone(copies: seq<Copy>, c: CopyId, s: CopyStatus, bookId: BookId)
    requires forall i :: 0 <= i < |copies| ==> copies[i].copyId != c
    ensures AvailableCount(WithStatus(copies, c, s), bookId) == AvailableCount(copies, bookId)
  {
    var w := WithStatus(copies, c, s);
    if copies != [] {
      assert w[1..] == WithStatus(copies[1..], c, s);
      WithStatusMissesNone(copies[1..], c, s, bookId);
    }
  }
}
