# Library prebook and borrow service, modelled in Dafny

A small library web service lets a logged-in user prebook a copy of a book
(hold it for one hour) or borrow a physical copy by scanning its QR code. The
service keeps its state in four tables: `book_copies` (copy id, book id, QR code,
status `available` / `prebooked` / `borrowed`), `borrow_requests` (the prebook
holds), `borrows` (the loans) and `users`; a `books` table carries an
`available_stock` counter that these operations never touch.

This project models that core:

- `tables.dfy`, module `Tables`: the rows, and the single SQL statements the
  service runs (the login lookup, the count of a user's active prebooks, the
  pick of an available copy, the status update, the lookup by QR code) as
  functions on sequences of rows. `User.to_dict` is here too, with its
  inverse `FromDict`, which serves only to state that the dictionary loses
  nothing.
- `lifecycle.dfy`, module `Lifecycle`: what one prebook and one borrow do to the
  whole store, as pure functions `PrebookStep` and `BorrowStep` from the store
  before to the store after plus the answer, and the lemmas about them.
- `store.dfy`, module `Library`: class `Store`, whose fields are the tables and
  whose methods update them in place, step by step as the service does.
  `Prebook`, `ApiPrebook` and `Borrow` are proved to leave the tables and
  answer exactly as `PrebookStep` and `BorrowStep` say; `CreateBorrow` and
  `MarkBorrowed` state their own effect on the one table they change.
  `LoginService.authenticate` changes nothing and is modelled by the function
  `Authenticate` alone.

Time is an integer number of seconds passed in as `now`; one hour is 3600,
one day 86400. The hold lasts one hour and a loan seven days.

The copy picked by `SELECT ... LIMIT 1` has no defined order in the service;
the model takes the first matching row in table order, and every property
about prebooking is stated only as "some available copy of the book". The
same first-row rule stands in for `fetchone()` in the QR lookup and in the
login lookup.

The store invariant `Valid` says that copy ids are unique, that every request
and loan names an existing copy, and that an available copy has no active
request on it while a prebooked copy has exactly one, and that every borrowed
copy has at least one loan on record. Prebook and borrow both keep it. The
stronger "exactly one loan per borrowed copy" does not hold: a copy that is
already out can be borrowed again (`BorrowTwiceLoansTwice`).

Behaviours one might expect of a library system that this code does not have,
and that the model therefore does not have either:

- No expiry sweep runs anywhere: a prebook past its `expires_at` keeps status
  `prebooked`, keeps its copy `prebooked` and keeps counting towards the
  user's limit.
- `available_stock` is never decremented or incremented; `PrebookDesyncsStock`
  proves that a successful prebook breaks a counter that matched the copies.
- Borrowing does not mark the user's prebook `completed` (`BorrowKeepsHolds`)
  and does not reject a copy that is already borrowed
  (`BorrowTwiceLoansTwice`: two scans make two loans).
- Borrowing does not check `borrow_requests` at all: a copy that another user
  holds with a prebook is lent to whoever scans it (`BorrowChangesOneCopy`:
  the copy becomes borrowed whatever its prior status).
- The prebook errors come back as a JSON body with HTTP status 200, not 400
  (`jsonify` is called without a status at app.py:276).

## Model

| member | source | states |
|---|---|---|
| Tables.Authenticate | app.py:58-70 | none exactly when no user row matches id, password and role; otherwise the first matching row, without its password, carrying the requested id and role |
| Tables.ToDict | app.py:37-44 | the session dictionary has exactly the keys id, name, role, department, year |
| Tables.SessionRoundTrip | app.py:37-44 | reading a user back from its dictionary gives the same user; the id and role the prebook endpoint reads are the user's |
| Tables.MaxPrebook | app.py:139 | the prebook limit is 1 exactly when the role is "student", and otherwise 2 |
| Tables.GetService | app.py:177-180 | the student service is chosen exactly when the limit is 1, i.e. for role "student" |
| Tables.ActiveCount | app.py:140 | a user's count of requests with status prebooked is at most the table size and is zero exactly when no such request exists |
| Tables.FirstAvailable | app.py:145-149 | none exactly when no copy of the book is available; otherwise the id of some available copy of that book |
| Tables.GetByQr | app.py:81-87 | none exactly when no copy has the QR code; otherwise the first copy that has it |
| Tables.WithStatus | app.py:89-94 | the status update `SET status=? WHERE copy_id=?`: the table keeps its length and its order, every row with the copy id gets the new status with its other columns unchanged, every other row is unchanged |
| Tables.WithStatusTakesOne | app.py:155 | with unique copy ids, moving one available copy of a book out of available lowers that book's count of available copies by exactly one |
| Lifecycle.PrebookStep | app.py:135-163 | "Prebook limit reached" exactly when the active count is at or over the role's limit; "No copy available" exactly when under the limit and no copy of the book is available; either error leaves every table as it was; on success the copy was an available copy of the book, it becomes prebooked, one request (caller, copy, now, now + 1 hour, prebooked) is appended, the answer's expiry is now + 1 hour, and books, users and loans are unchanged |
| Lifecycle.BorrowStep | app.py:278-294 | "Invalid QR" exactly when the QR code is absent or matches no copy, and then nothing changes; otherwise the first copy with that QR code is marked borrowed, one loan for it (caller, now, now + 7 days) is appended, and books, users and requests are unchanged |
| Lifecycle.PrebookPreservesValid | app.py:145-159 | prebooking keeps copy ids unique, every request and loan pointing at an existing copy, every available copy without an active request, every prebooked copy with exactly one, and every borrowed copy with at least one loan |
| Lifecycle.BorrowPreservesValid | app.py:290-292 | borrowing keeps copy ids unique, every request and loan pointing at an existing copy, every available copy without an active request, every prebooked copy with exactly one, and every borrowed copy with at least one loan (the loan is inserted for the copy that is marked) |
| Lifecycle.PrebookChangesOneCopy | app.py:145-155 | with unique copy ids a successful prebook changes exactly one copy row, an available copy of the requested book, to prebooked, and no other row |
| Lifecycle.PrebookCountsOne | app.py:156-159 | a successful prebook raises the caller's active-prebook count by exactly one and leaves every other user's count unchanged |
| Lifecycle.PrebookStaysWithinLimit | app.py:139-143 | a user whose active-prebook count is within the role's limit is still within it after a prebook |
| Lifecycle.PrebookDesyncsStock | app.py:155-161 | a successful prebook lowers the book's available-copy count by one but leaves the books table unchanged, so a stock counter that matched no longer does |
| Lifecycle.BorrowChangesOneCopy | app.py:286-292 | with unique copy ids a borrow by a known QR code sets exactly the scanned copy's row to borrowed whatever its prior status, appends exactly the loan (caller, copy, now, now + 7 days), and leaves requests, books and users unchanged |
| Lifecycle.BorrowKeepsHolds | app.py:290-292 | a borrow leaves every user's active-prebook count unchanged |
| Lifecycle.BorrowTwiceLoansTwice | app.py:286-294 | scanning the same known QR code twice succeeds both times and records two new loans for the same copy |
| Library.Store.MarkBorrowed | app.py:89-94 | every row with the copy id becomes borrowed whatever its status; every other row is unchanged |
| Library.Store.CreateBorrow | app.py:109-119 | exactly one loan is appended, for the user and copy, borrowed now and due now + 7 days |
| Library.Store.Prebook | app.py:135-163 | the tables afterwards and the answer are those of PrebookStep on the tables before; the store invariant is kept |
| Library.Store.ApiPrebook | app.py:269-276 | prebooking through the service the factory picks for the role behaves as PrebookStep, whichever service it is, and the store invariant is kept |
| Library.Store.Borrow | app.py:278-294 | the tables afterwards and the answer are those of BorrowStep on the tables before; the store invariant is kept |

## Left out

- Flask routing, the session check that answers "Not logged in", page templates, JSON shaping and the catalog endpoints `get_books`, `get_book` and `book_by_qr`: request and response glue and read-only projections.
- The SQLite connection, the `Database` and `LoginService` singletons and transactions: the store is one in-memory object and each call runs to completion on its own.
- `datetime.now()`: the current time is a parameter; the ISO 8601 rendering of `expires_at` is not modelled (the answer carries the integer time).
- Concurrency between requests: every call is one sequential step.
- Which available copy `LIMIT 1` returns: the model fixes the first in table order, and the stated properties hold for any choice.
- Which row `fetchone()` returns in `get_by_qr` and `authenticate` when several rows match: neither `qr_code` nor `user_id` is declared unique, and the queries name no order; `GetByQr` and `Authenticate` take the first matching row in table order.
- The auto-increment `id` of `borrow_requests` and the `returned_at` column of loans: the core never reads or writes them.
