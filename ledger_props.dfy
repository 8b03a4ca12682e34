/**
 * Properties of the ledger over sequences of operations: the tables stay
 * keyed by their records' own ISBN and id, no entry is ever removed, and,
 * as long as every added book brings a non-negative stock, no stock goes
 * negative. Also the borrow/return round trip and the consequences of the
 * permissive duplicate borrow.
 */
module LedgerProps {
  import opened Records
  import opened Fees
  import opened Ledger

  /** One call on the ledger, with the clock reading the call would take. */
  datatype Op =
    | AddNewBook(book: Book)
    | RegisterUser(user: User)
    | BorrowBooks(userId: UserId, isbn: string, now: int)
    | ReturnBooks(userId: UserId, isbn: string, today: int)

  function Apply(t: Tables, op: Op): (t': Tables)
  {
    match op
    case AddNewBook(book) => AddBookStep(t, book).after
    case RegisterUser(user) => RegisterStep(t, user).after
    case BorrowBooks(userId, isbn, now) => BorrowStep(t, userId, isbn, now).after
    case ReturnBooks(userId, isbn, today) => ReturnStep(t, userId, isbn, today).after
  }

  /** The tables after running `ops` in order, a failing call leaving them as they were. */
  function Run(t: Tables, ops: seq<Op>): (t': Tables)
    decreases |ops|
  {
    if ops == [] then t else Run(Apply(t, ops[0]), ops[1..])
  }

  predicate KeyedByIsbn(t: Tables)
  {
    forall k | k in t.books :: t.books[k].isbn == k
  }

  predicate KeyedById(t: Tables)
  {
    forall id | id in t.users :: t.users[id].id == id
  }

  predicate StocksNonNegative(t: Tables)
  {
    forall k | k in t.books :: t.books[k].stock >= 0
  }

  predicate Consistent(t: Tables)
  {
    KeyedByIsbn(t) && KeyedById(t) && StocksNonNegative(t)
  }

  /** Every book the operations add arrives with a non-negative stock. */
  predicate AddsNonNegative(ops: seq<Op>)
  {
    forall i | 0 <= i < |ops| :: ops[i].AddNewBook? ==> ops[i].book.stock >= 0
  }

  /** Adding a book keeps the tables consistent when its stock is non-negative, and removes no entry. */
  lemma AddPreserves(t: Tables, book: Book)
    requires Consistent(t) && book.stock >= 0
    ensures Consistent(AddBookStep(t, book).after)
    ensures t.books.Keys <= AddBookStep(t, book).after.books.Keys
  {
  }

  /** Registering keeps every user under its own id and removes no entry. */
  lemma RegisterPreserves(t: Tables, user: User)
    requires Consistent(t)
    ensures Consistent(RegisterStep(t, user).after)
    ensures t.users.Keys <= RegisterStep(t, user).after.users.Keys
  {
  }

  /** A borrow decrements only a positive stock, so consistency is kept; no entry is added or removed. */
  lemma BorrowPreserves(t: Tables, userId: UserId, isbn: string, now: int)
    requires Consistent(t)
    ensures Consistent(BorrowStep(t, userId, isbn, now).after)
    ensures BorrowStep(t, userId, isbn, now).after.books.Keys == t.books.Keys
    ensures BorrowStep(t, userId, isbn, now).after.users.Keys == t.users.Keys
  {
  }

  /** A return only raises a stock and rewrites one user's records; no entry is added or removed. */
  lemma ReturnPreserves(t: Tables, userId: UserId, isbn: string, today: int)
    requires Consistent(t)
    ensures Consistent(ReturnStep(t, userId, isbn, today).after)
    ensures ReturnStep(t, userId, isbn, today).after.books.Keys == t.books.Keys
    ensures ReturnStep(t, userId, isbn, today).after.users.Keys == t.users.Keys
  {
  }

  /** One operation keeps the tables consistent and removes no entry. */
  lemma ApplyPreserves(t: Tables, op: Op)
    requires Consistent(t)
    requires op.AddNewBook? ==> op.book.stock >= 0
    ensures Consistent(Apply(t, op))
    ensures t.books.Keys <= Apply(t, op).books.Keys && t.users.Keys <= Apply(t, op).users.Keys
  {
    match op
    case AddNewBook(book) => AddPreserves(t, book);
    case RegisterUser(user) => RegisterPreserves(t, user);
    case BorrowBooks(userId, isbn, now) => BorrowPreserves(t, userId, isbn, now);
    case ReturnBooks(userId, isbn, today) => ReturnPreserves(t, userId, isbn, today);
  }

  /** Over any sequence of calls, stock never goes negative and no entry disappears. */
  lemma {:induction false} RunPreserves(t: Tables, ops: seq<Op>)
    requires Consistent(t)
    requires AddsNonNegative(ops)
    ensures Consistent(Run(t, ops))
    ensures t.books.Keys <= Run(t, ops).books.Keys && t.users.Keys <= Run(t, ops).users.Keys
    decreases |ops|
  {
    if ops != [] {
      ApplyPreserves(t, ops[0]);
      assert AddsNonNegative(ops[1..]) by {
        forall i | 0 <= i < |ops[1..]| ensures ops[1..][i].AddNewBook? ==> ops[1..][i].book.stock >= 0 {
          assert ops[1..][i] == ops[i + 1];
        }
      }
      RunPreserves(Apply(t, ops[0]), ops[1..]);
    }
  }

  /** Starting from an empty ledger, every reachable state is consistent. */
  lemma FromEmpty(ops: seq<Op>)
    requires AddsNonNegative(ops)
    ensures Consistent(Run(Empty, ops))
  {
    RunPreserves(Empty, ops);
  }

  /** Borrowing a book the user does not hold and returning it restores both
      tables exactly, and the return is judged against the loan's due date. */
  lemma BorrowThenReturn(t: Tables, userId: UserId, isbn: string, now: int, today: int)
    requires userId in t.users && isbn in t.books && t.books[isbn].stock > 0
    requires HoldsNone(t.users[userId].borrowedBooks, isbn)
    ensures var b := BorrowStep(t, userId, isbn, now);
            var r := ReturnStep(b.after, userId, isbn, today);
            && b.result == Ok(now + LoanPeriodMs)
            && r.result == Ok(NoticeFor(today, now + LoanPeriodMs))
            && r.after == t
  {
    var records := t.users[userId].borrowedBooks;
    var record := BorrowRecord(isbn, t.books[isbn].title, now + LoanPeriodMs);
    var b := BorrowStep(t, userId, isbn, now);
    var held := b.after.users[userId].borrowedBooks;
    assert b.result.Ok?;
    assert held == records + [record];
    assert held[|records|] == record && held[..|records|] == records;
    FindByIsbnIsFirst(held, isbn, |records|);
    WithoutIsbnAppend(records, [record], isbn);
    WithoutIsbnIdentity(records, isbn);
    assert WithoutIsbn(held, isbn) == records;
    var r := ReturnStep(b.after, userId, isbn, today);
    assert r.result.Ok?;
    forall k | k in t.books ensures k in r.after.books && r.after.books[k] == t.books[k] {
      if k != isbn { assert b.after.books[k] == t.books[k]; }
    }
    forall id | id in t.users ensures id in r.after.users && r.after.users[id] == t.users[id] {
      if id != userId { assert b.after.users[id] == t.users[id]; }
    }
    assert r.after.books == t.books;
    assert r.after.users == t.users;
  }

  /** The JavaScript `Library` class (`src/library.js`) lets a user borrow the same ISBN twice; one return then clears
      both records while putting back a single copy, and the fee is judged
      against the earlier loan only. */
  lemma DoubleBorrowSingleReturn(t: Tables, userId: UserId, isbn: string, now1: int, now2: int, today: int)
    requires userId in t.users && isbn in t.books && t.books[isbn].stock >= 2
    requires HoldsNone(t.users[userId].borrowedBooks, isbn)
    ensures var b1 := BorrowStep(t, userId, isbn, now1);
            var b2 := BorrowStep(b1.after, userId, isbn, now2);
            var r := ReturnStep(b2.after, userId, isbn, today);
            && b1.result.Ok? && b2.result.Ok?
            && r.result == Ok(NoticeFor(today, now1 + LoanPeriodMs))
            && r.after.books[isbn].stock == t.books[isbn].stock - 1
            && r.after.users[userId] == t.users[userId]
            && ReturnStep(r.after, userId, isbn, today).result == Err(NotBorrowed(userId))
  {
    var records := t.users[userId].borrowedBooks;
    var title := t.books[isbn].title;
    var first := BorrowRecord(isbn, title, now1 + LoanPeriodMs);
    var second := BorrowRecord(isbn, title, now2 + LoanPeriodMs);
    var b1 := BorrowStep(t, userId, isbn, now1);
    var b2 := BorrowStep(b1.after, userId, isbn, now2);
    var held := b2.after.users[userId].borrowedBooks;
    assert held == records + [first, second];
    assert held[|records|] == first && held[..|records|] == records;
    FindByIsbnIsFirst(held, isbn, |records|);
    WithoutIsbnAppend(records, [first, second], isbn);
    WithoutIsbnIdentity(records, isbn);
    assert WithoutIsbn([first, second], isbn) == [];
    assert WithoutIsbn(held, isbn) == records;
    var r := ReturnStep(b2.after, userId, isbn, today);
    assert r.after.users[userId] == t.users[userId];
  }

  /** Two books with ISBN "1" merge into one entry that keeps the first title
      and the summed stock; a second registration of id 202 is refused. */
  lemma MergeAndDuplicateScenario()
    ensures var first := Book("Harry Potter", "Harry", "1", 10);
            var second := Book("Harry Potter Vol 2", "Harry", "1", 5);
            var t := AddBookStep(AddBookStep(Empty, first).after, second).after;
            && t.books.Keys == {"1"}
            && t.books["1"] == Book("Harry Potter", "Harry", "1", 15)
    ensures var daniel := User("Daniel", NumId(202), []);
            var t := RegisterStep(Empty, daniel).after;
            RegisterStep(t, daniel).result == Err(DuplicateUser(NumId(202)))
  {
  }

  /** Borrowing from a stock of 15 leaves 14; returning exactly on the due date
      owes nothing, and returning three days late owes 150 cents. */
  lemma BorrowReturnScenario(now: int)
    ensures var t := Tables(map["1" := Book("Harry Potter", "Harry", "1", 15)],
                            map[NumId(202) := User("Daniel", NumId(202), [])]);
            var b := BorrowStep(t, NumId(202), "1", now);
            && b.result == Ok(now + LoanPeriodMs)
            && b.after.books["1"].stock == 14
            && ReturnStep(b.after, NumId(202), "1", now + LoanPeriodMs).result == Ok(OnTime)
            && ReturnStep(b.after, NumId(202), "1", now + LoanPeriodMs + 3 * MsPerDay).result == Ok(Late(150))
  {
    var t := Tables(map["1" := Book("Harry Potter", "Harry", "1", 15)],
                    map[NumId(202) := User("Daniel", NumId(202), [])]);
    BorrowThenReturn(t, NumId(202), "1", now, now + LoanPeriodMs);
    BorrowThenReturn(t, NumId(202), "1", now, now + LoanPeriodMs + 3 * MsPerDay);
    LateFeeForWholeDays(now + LoanPeriodMs, 3, 0);
  }
}
