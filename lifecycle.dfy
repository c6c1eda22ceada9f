/**
 What one prebook call and one borrow call do to the store, as pure functions from
 the store before to the store after plus the caller's answer, and the properties
 of those steps.
 */
module Lifecycle {
  import opened Tables

  /** The two error exits of a prebook: the texts "Prebook limit reached" and
      "No copy available". */
  datatype PrebookError = LimitReached | NoCopyAvailable

  datatype PrebookResult = Reserved(copyId: CopyId, expiresAt: Time) | PrebookFailed(error: PrebookError)

  /** The borrow endpoint's two answers: `{"status": "borrowed"}` and `{"error": "Invalid QR"}`. */
  datatype BorrowResult = BorrowedOk | InvalidQr

  datatype Step<R> = Step(db: Db, result: R)

  /** The row that `PrebookService.prebook` inserts into `borrow_requests`. */
  function HoldRequest(userId: UserId, copyId: CopyId, now: Time): Request
  {
    Request(userId, copyId, now, now + HoldDuration, Active)
  }

  /** The row that `NormalBorrow.create_borrow` inserts into `borrows`. */
  function NewLoan(userId: UserId, copyId: CopyId, now: Time): Loan
  {
    Loan(userId, copyId, now, now + LoanDuration)
  }

  predicate HasAvailable(copies: seq<Copy>, bookId: BookId)
  {
    exists i :: 0 <= i < |copies| && IsAvailableOf(copies[i], bookId)
  }

  /** `PrebookService.prebook(user_id, role, book_id)` at time `now`. */
  function PrebookStep(db: Db, userId: UserId, role: string, bookId: BookId, now: Time)
    : (s: Step<PrebookResult>)
    ensures s.result == PrebookFailed(LimitReached) <==> ActiveCount(db.requests, userId) >= MaxPrebook(role)
    ensures s.result == PrebookFailed(NoCopyAvailable) <==>
              ActiveCount(db.requests, userId) < MaxPrebook(role) && !HasAvailable(db.copies, bookId)
    ensures s.result.PrebookFailed? ==> s.db == db
    ensures s.result.Reserved? ==>
              && (exists i :: 0 <= i < |db.copies| && IsAvailableOf(db.copies[i], bookId) &&
                               db.copies[i].copyId == s.result.copyId)
              && s.result.expiresAt == now + HoldDuration
              && s.db == db.(copies := WithStatus(db.copies, s.result.copyId, Prebooked),
                             requests := db.requests + [HoldRequest(userId, s.result.copyId, now)])
  {
    if ActiveCount(db.requests, userId) >= MaxPrebook(role) then
      Step(db, PrebookFailed(LimitReached))
    else
      match FirstAvailable(db.copies, bookId)
      case None => Step(db, PrebookFailed(NoCopyAvailable))
      case Some(copyId) =>
        var request := HoldRequest(userId, copyId, now);
        Step(db.(copies := WithStatus(db.copies, copyId, Prebooked), requests := db.requests + [request]),
             Reserved(copyId, request.expiresAt))
  }

  /** The borrow sequence of the `/api/borrow` endpoint once the session check has
      passed: look the QR code up (`request.json.get` yields `None` when it is absent,
      and `qr_code = NULL` matches no row), insert the loan, mark the copy borrowed. */
  function BorrowStep(db: Db, userId: UserId, qr: Option<string>, now: Time): (s: Step<BorrowResult>)
    ensures s.result == InvalidQr <==> qr.None? || forall i :: 0 <= i < |db.copies| ==> db.copies[i].qrCode != qr.value
    ensures s.result == InvalidQr ==> s.db == db
    ensures s.result == BorrowedOk ==>
              var copy := GetByQr(db.copies, qr.value).value;
              s.db == db.(copies := WithStatus(db.copies, copy.copyId, Borrowed),
                          loans := db.loans + [NewLoan(userId, copy.copyId, now)])
  {
    var found := if qr.Some? then GetByQr(db.copies, qr.value) else None;
    match found
    case None => Step(db, InvalidQr)
    case Some(copy) =>
      Step(db.(loans := db.loans + [NewLoan(userId, copy.copyId, now)],
               copies := WithStatus(db.copies, copy.copyId, Borrowed)),
           BorrowedOk)
  }

  // ---------------------------------------------------------------------------
  // Store invariant: the primary key, the references held by requests and loans,
  // the agreement between a copy's status and the holds on it, and a loan behind
  // every borrowed copy

  /** The number of active (status 'prebooked') requests on a copy. */
  function HoldsOn(requests: seq<Request>, copyId: CopyId): nat
  {
    if requests == [] then 0
    else (if requests[0].copyId == copyId && requests[0].status == Active then 1 else 0) +
         HoldsOn(requests[1..], copyId)
  }

  lemma {:induction false} HoldsOnAppend(requests: seq<Request>, r: Request, copyId: CopyId)
    ensures HoldsOn(requests + [r], copyId) ==
            HoldsOn(requests, copyId) + (if r.copyId == copyId && r.status == Active then 1 else 0)
  {
    if requests != [] {
      assert (requests + [r])[1..] == requests[1..] + [r];
      HoldsOnAppend(requests[1..], r, copyId);
    }
  }

  /** An available copy has no active request on it and a prebooked copy exactly one. */
  predicate HoldsMatchStatus(db: Db)
  {
    forall i :: 0 <= i < |db.copies| ==>
      && (db.copies[i].status == Available ==> HoldsOn(db.requests, db.copies[i].copyId) == 0)
      && (db.copies[i].status == Prebooked ==> HoldsOn(db.requests, db.copies[i].copyId) == 1)
  }

  /** Every borrowed copy has at least one loan on record. (Not exactly one: a copy
      can be borrowed again while out, see BorrowTwiceLoansTwice.) */
  predicate LoansCoverBorrowed(db: Db)
  {
    forall i :: 0 <= i < |db.copies| && db.copies[i].status == Borrowed ==>
      LoansOf(db.loans, db.copies[i].copyId) >= 1
  }

  predicate Valid(db: Db)
  {
    && UniqueCopyIds(db.copies)
    && (forall i :: 0 <= i < |db.requests| ==> KnownCopy(db.copies, db.requests[i].copyId))
    && (forall i :: 0 <= i < |db.loans| ==> KnownCopy(db.copies, db.loans[i].copyId))
    && HoldsMatchStatus(db)
    && LoansCoverBorrowed(db)
  }

  /** Prebooking only ever holds a copy that was available and had no active request,
      and adds exactly one active request for it, so the invariant survives. */
  lemma PrebookPreservesValid(db: Db, userId: UserId, role: string, bookId: BookId, now: Time)
    requires Valid(db)
    ensures Valid(PrebookStep(db, userId, role, bookId, now).db)
  {
    var s := PrebookStep(db, userId, role, bookId, now);
    if s.result.Reserved? {
      var c := s.result.copyId;
      var r := HoldRequest(userId, c, now);
      forall i | 0 <= i < |s.db.copies|
        ensures HoldsOn(s.db.requests, s.db.copies[i].copyId) ==
                HoldsOn(db.requests, db.copies[i].copyId) + (if db.copies[i].copyId == c then 1 else 0)
      {
        HoldsOnAppend(db.requests, r, db.copies[i].copyId);
      }
    }
  }

  lemma BorrowPreservesValid(db: Db, userId: UserId, qr: Option<string>, now: Time)
    requires Valid(db)
    ensures Valid(BorrowStep(db, userId, qr, now).db)
  {
    var s := BorrowStep(db, userId, qr, now);
    if s.result == BorrowedOk {
      var l := NewLoan(userId, GetByQr(db.copies, qr.value).value.copyId, now);
      forall i | 0 <= i < |s.db.copies|
        ensures LoansOf(s.db.loans, s.db.copies[i].copyId) ==
                LoansOf(db.loans, db.copies[i].copyId) + (if l.copyId == db.copies[i].copyId then 1 else 0)
      {
        LoansOfAppend(db.loans, l, db.copies[i].copyId);
      }
    }
  }

  // ---------------------------------------------------------------------------
  // Prebook

  /** A successful prebook changes exactly one copy row: an available copy of the
      requested book, which becomes prebooked; every other row keeps its status. */
  lemma PrebookChangesOneCopy(db: Db, userId: UserId, role: string, bookId: BookId, now: Time)
    requires UniqueCopyIds(db.copies)
    requires PrebookStep(db, userId, role, bookId, now).result.Reserved?
    ensures var s := PrebookStep(db, userId, role, bookId, now);
      exists k :: 0 <= k < |db.copies| && db.copies[k].copyId == s.result.copyId &&
        IsAvailableOf(db.copies[k], bookId) &&
        s.db.copies == db.copies[k := db.copies[k].(status := Prebooked)]
  {
  }

  /** A successful prebook raises the caller's count of active prebooks by exactly
      one and leaves every other user's count alone. */
  lemma PrebookCountsOne(db: Db, userId: UserId, role: string, bookId: BookId, now: Time, other: UserId)
    requires PrebookStep(db, userId, role, bookId, now).result.Reserved?
    ensures ActiveCount(PrebookStep(db, userId, role, bookId, now).db.requests, userId) ==
            ActiveCount(db.requests, userId) + 1
    ensures other != userId ==>
            ActiveCount(PrebookStep(db, userId, role, bookId, now).db.requests, other) ==
            ActiveCount(db.requests, other)
  {
    var s := PrebookStep(db, userId, role, bookId, now);
    ActiveCountAppend(db.requests, HoldRequest(userId, s.result.copyId, now), userId);
    ActiveCountAppend(db.requests, HoldRequest(userId, s.result.copyId, now), other);
  }

  /** A user whose active prebooks are within the role's limit stays within it. */
  lemma PrebookStaysWithinLimit(db: Db, userId: UserId, role: string, bookId: BookId, now: Time)
    requires ActiveCount(db.requests, userId) <= MaxPrebook(role)
    ensures ActiveCount(PrebookStep(db, userId, role, bookId, now).db.requests, userId) <= MaxPrebook(role)
  {
    if PrebookStep(db, userId, role, bookId, now).result.Reserved? {
      PrebookCountsOne(db, userId, role, bookId, now, userId);
    }
  }

  /** The stock counter is consistent for a book when every row of that book in
      `books` shows the number of its available copies. */
  predicate StockMatches(db: Db, bookId: BookId)
  {
    forall i :: 0 <= i < |db.books| && db.books[i].id == bookId ==>
      db.books[i].availableStock == AvailableCount(db.copies, bookId)
  }

  predicate BookListed(db: Db, bookId: BookId)
  {
    exists i :: 0 <= i < |db.books| && db.books[i].id == bookId
  }

  /** A successful prebook takes one copy of the book out of `available` but leaves
      `available_stock` as it was, so a counter that matched the copies before no
      longer does afterwards. */
  lemma PrebookDesyncsStock(db: Db, userId: UserId, role: string, bookId: BookId, now: Time)
    requires UniqueCopyIds(db.copies) && BookListed(db, bookId) && StockMatches(db, bookId)
    requires PrebookStep(db, userId, role, bookId, now).result.Reserved?
    ensures var s := PrebookStep(db, userId, role, bookId, now);
      s.db.books == db.books &&
      AvailableCount(s.db.copies, bookId) == AvailableCount(db.copies, bookId) - 1 &&
      !StockMatches(s.db, bookId)
  {
    var s := PrebookStep(db, userId, role, bookId, now);
    var k :| 0 <= k < |db.copies| && IsAvailableOf(db.copies[k], bookId) &&
             db.copies[k].copyId == s.result.copyId;
    WithStatusTakesOne(db.copies, k, bookId, Prebooked);
    var b :| 0 <= b < |db.books| && db.books[b].id == bookId;
    assert s.db.books[b].availableStock != AvailableCount(s.db.copies, bookId);
  }

  // ---------------------------------------------------------------------------
  // Borrow

  /** Borrowing by a known QR code appends exactly one loan, for the scanned copy and
      the caller, due seven days after it starts; the scanned copy becomes borrowed
      whatever it was before (an already borrowed copy included), every other copy row
      is unchanged, and so are the requests, books and users. */
  lemma BorrowChangesOneCopy(db: Db, userId: UserId, qr: string, now: Time)
    requires UniqueCopyIds(db.copies)
    requires BorrowStep(db, userId, Some(qr), now).result == BorrowedOk
    ensures var s := BorrowStep(db, userId, Some(qr), now);
      exists k :: 0 <= k < |db.copies| && db.copies[k].qrCode == qr &&
        s.db.copies == db.copies[k := db.copies[k].(status := Borrowed)] &&
        s.db.loans == db.loans + [Loan(userId, db.copies[k].copyId, now, now + LoanDuration)] &&
        s.db.requests == db.requests && s.db.books == db.books && s.db.users == db.users
  {
  }

  /** Borrowing leaves every user's count of active prebooks as it was: a prebook of
      the borrowed copy is not marked completed and keeps counting against its owner. */
  lemma BorrowKeepsHolds(db: Db, userId: UserId, qr: Option<string>, now: Time, anyone: UserId)
    ensures ActiveCount(BorrowStep(db, userId, qr, now).db.requests, anyone) == ActiveCount(db.requests, anyone)
  {
  }

  function LoansOf(loans: seq<Loan>, copyId: CopyId): nat
  {
    if loans == [] then 0
    else (if loans[0].copyId == copyId then 1 else 0) + LoansOf(loans[1..], copyId)
  }

  lemma {:induction false} LoansOfAppend(loans: seq<Loan>, l: Loan, copyId: CopyId)
    ensures LoansOf(loans + [l], copyId) == LoansOf(loans, copyId) + (if l.copyId == copyId then 1 else 0)
  {
    if loans != [] {
      assert (loans + [l])[1..] == loans[1..] + [l];
      LoansOfAppend(loans[1..], l, copyId);
    }
  }

  /** Marking a copy's status keeps every QR code where it was, so a QR code finds the
      same copy before and after. */
  lemma {:induction false} GetByQrIgnoresStatus(copies: seq<Copy>, copyId: CopyId, st: CopyStatus, qr: string)
    requires GetByQr(copies, qr).Some?
    ensures GetByQr(WithStatus(copies, copyId, st), qr).Some?
    ensures GetByQr(WithStatus(copies, copyId, st), qr).value.copyId == GetByQr(copies, qr).value.copyId
  {
    var w := WithStatus(copies, copyId, st);
    if copies[0].qrCode != qr {
      assert w[1..] == WithStatus(copies[1..], copyId, st);
      GetByQrIgnoresStatus(copies[1..], copyId, st, qr);
    }
  }

  /** Nothing stops a second borrow of a copy that is already out: scanning the same
      QR code twice records two new loans for the same copy, which stays borrowed. */
  lemma BorrowTwiceLoansTwice(db: Db, u1: UserId, u2: UserId, qr: string, t1: Time, t2: Time)
    requires BorrowStep(db, u1, Some(qr), t1).result == BorrowedOk
    ensures var s1 := BorrowStep(db, u1, Some(qr), t1);
      var s2 := BorrowStep(s1.db, u2, Some(qr), t2);
      var c := GetByQr(db.copies, qr).value.copyId;
      s2.result == BorrowedOk &&
      LoansOf(s2.db.loans, c) == LoansOf(db.loans, c) + 2
  {
    var s1 := BorrowStep(db, u1, Some(qr), t1);
    var c := GetByQr(db.copies, qr).value.copyId;
    GetByQrIgnoresStatus(db.copies, c, Borrowed, qr);
    LoansOfAppend(db.loans, NewLoan(u1, c, t1), c);
    LoansOfAppend(s1.db.loans, NewLoan(u2, c, t2), c);
  }
}
