/**
 The library service over its in-memory store: one object whose fields are the
 tables, and the operations that update them in place. Prebook and borrow are proved
 to leave the tables, and to answer, as the matching step of module Lifecycle says.
 */
module Library {
  import opened Tables
  import opened Lifecycle

  class Store {
    var books: seq<Book>
    var users: seq<UserRow>
    var copies: seq<Copy>
    var requests: seq<Request>
    var loans: seq<Loan>

    /** The tables as one value. */
    function State(): Db
      reads this
    {
      Db(books, users, copies, requests, loans)
    }

    constructor (db: Db)
      ensures State() == db
    {
      books, users, copies, requests, loans := db.books, db.users, db.copies, db.requests, db.loans;
    }

    /** `BookCopyService.mark_borrowed`: every row with this copy id gets status
        `borrowed`, whatever its status was. */
    method MarkBorrowed(copyId: CopyId)
      modifies this`copies
      ensures |copies| == |old(copies)|
      ensures forall i :: 0 <= i < |copies| ==>
                copies[i] == if old(copies)[i].copyId == copyId then old(copies)[i].(status := Borrowed)
                             else old(copies)[i]
    {
      copies := WithStatus(copies, copyId, Borrowed);
    }

    /** `NormalBorrow.create_borrow`: inserts one loan starting now and due seven days
        later. The book id is accepted and ignored, as in the service. */
    method CreateBorrow(userId: UserId, copyId: CopyId, bookId: BookId, now: Time)
      modifies this`loans
      ensures loans == old(loans) + [NewLoan(userId, copyId, now)]
    {
      var returnBy := now + LoanDuration;
      loans := loans + [Loan(userId, copyId, now, returnBy)];
    }

    /** `PrebookService.prebook`, reached through either class `PrebookFactory`
        hands out: the role alone sets the limit. */
    method Prebook(userId: UserId, role: string, bookId: BookId, now: Time) returns (r: PrebookResult)
      modifies this
      ensures Step(State(), r) == PrebookStep(old(State()), userId, role, bookId, now)
      ensures old(Valid(State())) ==> Valid(State())
    {
      ghost var before := State();
      var maxPrebook := MaxPrebook(role);
      if ActiveCount(requests, userId) >= maxPrebook {
        return PrebookFailed(LimitReached);
      }
      var row := FirstAvailable(copies, bookId);
      if row.None? {
        return PrebookFailed(NoCopyAvailable);
      }
      var copyId := row.value;
      var expiresAt := now + HoldDuration;
      copies := WithStatus(copies, copyId, Prebooked);
      requests := requests + [Request(userId, copyId, now, expiresAt, Active)];
      r := Reserved(copyId, expiresAt);
      if Valid(before) { PrebookPreservesValid(before, userId, role, bookId, now); }
    }

    /** The `/api/prebook/<book_id>` call for a logged-in user: pick the service for
        the session's role, then prebook through it. */
    method ApiPrebook(userId: UserId, role: string, bookId: BookId, now: Time) returns (r: PrebookResult)
      modifies this
      ensures Step(State(), r) == PrebookStep(old(State()), userId, role, bookId, now)
      ensures old(Valid(State())) ==> Valid(State())
    {
      var service := GetService(role);
      match service
      case StudentPrebook => r := Prebook(userId, role, bookId, now);
      case StaffPrebook => r := Prebook(userId, role, bookId, now);
    }

    /** The `/api/borrow` sequence for a logged-in user: look the QR code up, stop with
        "Invalid QR" when no copy has it, otherwise record the loan and mark the copy
        borrowed. */
    method Borrow(userId: UserId, qr: Option<string>, now: Time) returns (r: BorrowResult)
      modifies this
      ensures Step(State(), r) == BorrowStep(old(State()), userId, qr, now)
      ensures old(Valid(State())) ==> Valid(State())
    {
      ghost var before := State();
      var copy := if qr.Some? then GetByQr(copies, qr.value) else None;
      if copy.None? {
        return InvalidQr;
      }
      var copyId, bookId := copy.value.copyId, copy.value.bookId;
      CreateBorrow(userId, copyId, bookId, now);
      MarkBorrowed(copyId);
      r := BorrowedOk;
      if Valid(before) { BorrowPreservesValid(before, userId, qr, now); }
    }
  }
}
