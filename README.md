# Library circulation ledger, in Dafny

A model of the `Library` class of `src/library.js`: an in-memory circulation
ledger with two keyed tables, books by ISBN and users by id, and four
operations on them.

- `addNewBook` merges the new copies into an existing entry with the same ISBN
  (keeping the stored title and author), or inserts the book.
- `registerUser` inserts a user and refuses an id already registered.
- `borrowBooks` checks, in this order, that the user exists, that the book
  exists and that it is in stock. It then takes one copy off the shelf and
  appends a borrow record due 14 days later to the user's list.
- `returnBooks` checks, in this order, that the user exists, that the book
  exists and that the user holds a record for it. It then puts one copy back,
  drops every record for that ISBN from the user's list, and reports a late
  fee of 50 cents per whole day past the due date of the first such record.

Every operation validates before it changes anything, so, for inputs of the
modelled types, a failing call leaves both tables as they were.

Layout:

- `records.dfy` (module `Records`): the `Book`, `User` and `BorrowRecord`
  records, and the two list operations the return path uses: `find` becomes
  `FindByIsbn` and `filter` becomes `WithoutIsbn`.
- `fees.dfy` (module `Fees`): the loan period, the late fee in integer cents and
  the return notice.
- `ledger.dfy` (module `Ledger`): each operation as a transition on the value
  `Tables(books, users)`, returning the new tables together with the result
  or the error. The contracts of these functions state the properties.
- `ledger_props.dfy` (module `LedgerProps`): properties over sequences of
  operations, the borrow/return round trip, the duplicate-borrow behaviour and
  concrete scenarios with the repository's demo data.
- `library.dfy` (module `Circulation`): the `Library` class. Its `books` and
  `users` map fields are updated in place by four methods. Each method is
  proved to produce exactly the tables and result of the matching transition
  function, and to keep the `Valid()` invariant (`AddNewBook` keeps it when
  the added stock is non-negative).

Modelling choices:

- Time is an integer millisecond timestamp passed to `BorrowBooks` (`now`) and
  `ReturnBooks` (`today`). "14 days" is `14 * MsPerDay`.
- The late fee is integer cents, `daysLate * 50`, in place of `daysLate * 0.50`
  dollars.
- Messages are modelled by the information they carry. `AddNotice` says
  whether stock was merged or a book was added, with the title. Registration
  returns the user's name. A borrow returns the due date. A return yields
  `OnTime` or `Late(feeCents)`.
- Errors are the `LedgerError` values `DuplicateUser`, `UserNotFound`,
  `BookNotFound`, `BookUnavailable` and `NotBorrowed`.
- User ids are `NumId(n)` or `TextId(s)`, because JavaScript Map keys keep
  the number 202 distinct from the string "202". ISBNs are strings throughout.
- The code accepts a book with any integer stock, negative included, and a
  user with a non-empty list of records, and the model does the same. The
  stock invariant is therefore proved under the hypothesis that every added
  book brings a non-negative stock.
- The records of `src/library.js:3-18` are the datatypes `Book` and `User` of
  `records.dfy`; a user id is a `UserId` (see above), and `User` keeps
  whatever list of records it is registered with. The borrow record built at
  `src/library.js:78-82` is the datatype `BorrowRecord`.
- A return strictly after the due date but less than one day late owes 0
  cents, yet the code still reports it as a late return ("Late fee: $0.00").
  The model keeps that distinction: `Late(0)` is not `OnTime`.

## Model

| member | source | states |
|---|---|---|
| Records.FindByIsbn | src/library.js:103 | `find` yields nothing exactly when no record has the ISBN; otherwise it yields a record with that ISBN that no earlier record has |
| Records.FindByIsbnIsFirst | src/library.js:103 | the record `find` yields is the one at the first index holding the ISBN |
| Records.WithoutIsbn | src/library.js:114 | `filter` leaves no record for the ISBN, keeps exactly the records for other ISBNs, and shrinks the list by the number of records removed |
| Records.WithoutIsbnAppend | src/library.js:114 | the filter distributes over concatenation, so the kept records stay in their original relative order |
| Records.WithoutIsbnIdentity | src/library.js:114 | a list with no record for the ISBN is left unchanged |
| Records.WithoutIsbnKeepsOthers | src/library.js:114 | every record for another ISBN is kept as many times as it occurred |
| Fees.LateFeeCents | src/library.js:120-123 | the fee is zero up to and including the due date, a multiple of 50 cents, zero exactly when less than one whole day late, and at most 50 cents per elapsed day |
| Fees.NoticeFor | src/library.js:117-128 | a return is on time exactly when `today <= dueDate` (strict comparison for lateness); otherwise it carries the late fee |
| Fees.LateFeeForWholeDays | src/library.js:121-123 | returning N whole days (plus less than a day) late owes N times 50 cents |
| Fees.LateFeeMonotonic | src/library.js:120-123 | the fee never decreases as the return date moves later |
| Ledger.AddBookStep | src/library.js:29-36 | a known ISBN gets its stock raised by exactly the new stock, keeps its title, author and ISBN, and adds no entry; a new ISBN is inserted as given; no other book and no user changes |
| Ledger.RegisterStep | src/library.js:42-47 | a known id fails with DuplicateUser and changes nothing; otherwise exactly one entry keyed by `user.id` is added and every other entry is kept |
| Ledger.BorrowStep | src/library.js:54-85 | unknown user, unknown book and `stock <= 0` fail in that order and change nothing; success holds exactly when all checks pass, takes one copy off (stock stays non-negative), appends one record `{isbn, title, now + 14 days}` and changes no other entry |
| Ledger.ReturnStep | src/library.js:92-128 | unknown user, unknown book and no record for the ISBN fail in that order and change nothing; success puts one copy back, drops every record for the ISBN, changes no other entry, and judges lateness against the first matching record's due date |
| LedgerProps.AddPreserves | src/library.js:29-36 | adding a book with non-negative stock keeps every stock non-negative and every entry under its own key |
| LedgerProps.RegisterPreserves | src/library.js:42-47 | registering keeps every user stored under its own id |
| LedgerProps.BorrowPreserves | src/library.js:64-84 | a borrow keeps stock non-negative, because it decrements only behind the `stock <= 0` guard, and removes no entry |
| LedgerProps.ReturnPreserves | src/library.js:110-114 | a return keeps the tables consistent and removes no entry |
| LedgerProps.ApplyPreserves | src/library.js:26-129 | any single operation keeps the tables consistent and removes no entry |
| LedgerProps.RunPreserves | src/library.js:20-130 | over any sequence of operations whose added books have non-negative stock, every stock stays non-negative, every entry stays keyed by its own ISBN or id, and no entry disappears |
| LedgerProps.FromEmpty | src/library.js:21-24 | from a fresh library, every reachable state has non-negative stock and every entry filed under its own ISBN or id |
| LedgerProps.BorrowThenReturn | src/library.js:50-128 | borrowing a book the user does not hold and then returning it restores both tables exactly, and the return is judged against `now + 14 days` |
| LedgerProps.DoubleBorrowSingleReturn | src/library.js:50-114 | two borrows of one ISBN then one return: both records are gone, only one copy is back on the shelf, the fee uses the earlier loan, and a second return fails with NotBorrowed |
| LedgerProps.MergeAndDuplicateScenario | src/library.js:29-47 | stocks 10 and 5 under ISBN "1" merge into 15 with the first title; registering id 202 twice fails with DuplicateUser |
| LedgerProps.BorrowReturnScenario | src/library.js:64-128 | borrowing from 15 leaves 14; a return on the due date is on time; a return 3 days late owes 150 cents |
| Circulation.Library.constructor | src/library.js:21-24 | a new library has empty tables and is valid |
| Circulation.Library.AddNewBook | src/library.js:26-37 | updates the tables exactly as `AddBookStep` does and keeps `Valid()` when the added stock is non-negative |
| Circulation.Library.RegisterUser | src/library.js:39-48 | updates the tables and reports exactly as `RegisterStep` does, and keeps `Valid()` |
| Circulation.Library.BorrowBooks | src/library.js:50-86 | updates the tables and reports exactly as `BorrowStep` does, and keeps `Valid()` |
| Circulation.Library.ReturnBooks | src/library.js:88-129 | updates the tables and reports exactly as `ReturnStep` does, and keeps `Valid()` |

## Left out

- The `wait` helper and every `await wait(1000)`: they only simulate latency, so the operations are synchronous methods.
- The demo driver `initSystem` and its console output. Its data appears only in the scenario lemmas.
- The real clock: `new Date()` becomes the `now`/`today` parameters.
- Calendar arithmetic: `setDate(getDate() + 14)` is modelled as adding `14 * MsPerDay`, so daylight-saving shifts and the local-time rendering by `toDateString()` are not captured.
- Floating-point fee arithmetic and `toFixed(2)`: the fee is integer cents.
- The exact wording of the returned and thrown message strings. Only the kind of outcome and the values it carries are modelled.
- Object aliasing. The source stores the caller's `Book` and `User` objects in its Maps, so a caller who still holds them sees (and can make) later changes. The model stores value records.
- `String(isbn)` coercion in the `Book` constructor, and non-string ISBN arguments to borrow and return: ISBNs are strings throughout.
- User ids other than integers and strings, such as fractional numbers or objects used as Map keys.
- Non-numeric `stock` values, which the untyped source would accept.
- Non-array `borrowedBooks`: the field is modelled as a list of records, but the source accepts any value (the `[]` default applies only when the argument is missing or `undefined`, and `registerUser` does not check the field). For a user registered with `null` or without the field, `borrowBooks` passes its three checks, takes one copy off the shelf and then throws at the `push`, so that failing call does change the book table; the model cannot express this path.
- Fractional stock: `stock` is modelled as an integer. The source accepts any number, so a book added with stock 0.5 passes the `stock <= 0` guard and a borrow leaves it at -0.5; the non-negativity invariant of `RunPreserves` and `FromEmpty` holds for the source only when every stock is a whole number.
- Floating-point stock arithmetic: `stock` is modelled as an unbounded integer, while JavaScript adds and subtracts it in IEEE doubles (`+=`/`-=` at `src/library.js:31`, `:69`, `:111`), which are exact only up to 2^53. For a stock of 2^53 + 2, a borrow gives 2^53 + 1, which rounds to 2^53, and the return rounds to 2^53 again. The exact-arithmetic contracts of `AddBookStep`, `BorrowStep`, `ReturnStep` and `BorrowThenReturn` ("raised by exactly", "restores both tables exactly") therefore describe `src/library.js` only while every stock and every sum stays below 2^53. Rounding never takes a non-negative value below zero, so `RunPreserves` and `FromEmpty` are unaffected.
