/**
 * The `Library` object: two mutable tables that the four operations update
 * in place. Each method validates in the order of the JavaScript `Library`
 * class (`src/library.js`), returns an error
 * without touching either table when a check fails, and otherwise updates
 * exactly the entries the transition functions in `Ledger` describe.
 */
module Circulation {
  import opened Records
  import opened Fees
  import opened Ledger
  import LedgerProps

  class Library {
    var books: map<string, Book>
    var users: map<UserId, User>

    /** The two tables as one value. */
    function State(): Tables
      reads this
    {
      Tables(books, users)
    }

    /** Stock never negative, and every entry stored under its own key. */
    ghost predicate Valid()
      reads this
    {
      LedgerProps.Consistent(State())
    }

    constructor ()
      ensures books == map[] && users == map[]
      ensures Valid()
    {
      books := map[];
      users := map[];
    }

    method AddNewBook(book: Book) returns (notice: AddNotice)
      modifies this
      ensures Outcome(State(), Ok(notice)) == AddBookStep(old(State()), book)
      ensures old(Valid()) && book.stock >= 0 ==> Valid()
    {
      if book.isbn in books {
        var existing := books[book.isbn];
        books := books[book.isbn := existing.(stock := existing.stock + book.stock)];
        notice := StockUpdated(existing.title);
      } else {
        books := books[book.isbn := book];
        notice := BookAdded(book.title);
      }
      if old(Valid()) && book.stock >= 0 {
        LedgerProps.AddPreserves(old(State()), book);
      }
    }

    method RegisterUser(user: User) returns (result: Result<string>)
      modifies this
      ensures Outcome(State(), result) == RegisterStep(old(State()), user)
      ensures old(Valid()) ==> Valid()
    {
      if user.id in users {
        return Err(DuplicateUser(user.id));
      }
      users := users[user.id := user];
      result := Ok(user.name);
    }

    /** On success the result is the due date, `now` plus the 14-day loan period. */
    method BorrowBooks(userId: UserId, isbn: string, now: int) returns (result: Result<int>)
      modifies this
      ensures Outcome(State(), result) == BorrowStep(old(State()), userId, isbn, now)
      ensures old(Valid()) ==> Valid()
    {
      if userId !in users {
        return Err(UserNotFound(userId));
      }
      if isbn !in books {
        return Err(BookNotFound(isbn));
      }
      var book := books[isbn];
      if book.stock <= 0 {
        return Err(BookUnavailable);
      }
      books := books[isbn := book.(stock := book.stock - 1)];
      var due := now + LoanPeriodMs;
      var record := BorrowRecord(isbn, book.title, due);
      var user := users[userId];
      users := users[userId := user.(borrowedBooks := user.borrowedBooks + [record])];
      result := Ok(due);
      if old(Valid()) {
        LedgerProps.BorrowPreserves(old(State()), userId, isbn, now);
      }
    }

    /** On success the result says whether the return was on time or what late fee is owed. */
    method ReturnBooks(userId: UserId, isbn: string, today: int) returns (result: Result<ReturnNotice>)
      modifies this
      ensures Outcome(State(), result) == ReturnStep(old(State()), userId, isbn, today)
      ensures old(Valid()) ==> Valid()
    {
      if userId !in users {
        return Err(UserNotFound(userId));
      }
      if isbn !in books {
        return Err(BookNotFound(isbn));
      }
      var user := users[userId];
      var borrowed := FindByIsbn(user.borrowedBooks, isbn);
      if borrowed.None? {
        return Err(NotBorrowed(userId));
      }
      var book := books[isbn];
      books := books[isbn := book.(stock := book.stock + 1)];
      users := users[userId := user.(borrowedBooks := WithoutIsbn(user.borrowedBooks, isbn))];
      result := Ok(NoticeFor(today, borrowed.value.dueDate));
      if old(Valid()) {
        LedgerProps.ReturnPreserves(old(State()), userId, isbn, today);
      }
    }
  }
}
