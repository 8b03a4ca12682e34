/**
 * The ledger's four operations as transitions on its two tables. Each one
 * validates everything first and changes nothing when a check fails, so an
 * `Outcome` whose result is an error always carries the tables unchanged.
 */
module Ledger {
  import opened Records
  import opened Fees

  /** The ledger's state: books keyed by ISBN, users keyed by id. */
  datatype Tables = Tables(books: map<string, Book>, users: map<UserId, User>)

  datatype LedgerError =
    | DuplicateUser(id: UserId)
    | UserNotFound(id: UserId)
    | BookNotFound(isbn: string)
    | BookUnavailable
    | NotBorrowed(id: UserId)

  datatype Result<+T> = Ok(value: T) | Err(error: LedgerError)

  /** The tables after an operation, and what the operation reported. */
  datatype Outcome<+T> = Outcome(after: Tables, result: Result<T>)

  /** What adding a book reports: stock merged into an existing title, or a new entry. */
  datatype AddNotice = StockUpdated(title: string) | BookAdded(title: string)

  const Empty: Tables := Tables(map[], map[])

  /** addNewBook: merge stock into the entry for a known ISBN, insert the book otherwise. */
  function AddBookStep(t: Tables, book: Book): (r: Outcome<AddNotice>)
    ensures r.result.Ok? && r.after.users == t.users
    ensures book.isbn in r.after.books
    ensures forall k | k in t.books && k != book.isbn :: k in r.after.books && r.after.books[k] == t.books[k]
    ensures book.isbn in t.books ==>
      var old_ := t.books[book.isbn];
      var new_ := r.after.books[book.isbn];
      && r.after.books.Keys == t.books.Keys
      && new_.stock == old_.stock + book.stock
      && new_.title == old_.title && new_.author == old_.author && new_.isbn == old_.isbn
      && r.result.value == StockUpdated(old_.title)
    ensures book.isbn !in t.books ==>
      && r.after.books.Keys == t.books.Keys + {book.isbn}
      && r.after.books[book.isbn] == book
      && r.result.value == BookAdded(book.title)
  {
    if book.isbn in t.books then
      var existing := t.books[book.isbn];
      Outcome(t.(books := t.books[book.isbn := existing.(stock := existing.stock + book.stock)]),
              Ok(StockUpdated(existing.title)))
    else
      Outcome(t.(books := t.books[book.isbn := book]), Ok(BookAdded(book.title)))
  }

  /** registerUser: reject a known id, insert the user otherwise. */
  function RegisterStep(t: Tables, user: User): (r: Outcome<string>)
    ensures r.after.books == t.books
    ensures r.result.Err? <==> user.id in t.users
    ensures r.result.Err? ==> r.result.error == DuplicateUser(user.id) && r.after == t
    ensures r.result.Ok? ==>
      && r.result.value == user.name
      && r.after.users.Keys == t.users.Keys + {user.id}
      && |r.after.users| == |t.users| + 1
      && r.after.users[user.id] == user
      && forall id | id in t.users :: r.after.users[id] == t.users[id]
  {
    if user.id in t.users then Outcome(t, Err(DuplicateUser(user.id)))
    else Outcome(t.(users := t.users[user.id := user]), Ok(user.name))
  }

  /** borrowBooks at time `now`: on success the result is the due date. */
  function BorrowStep(t: Tables, userId: UserId, isbn: string, now: int): (r: Outcome<int>)
    ensures r.result.Err? ==> r.after == t
    ensures userId !in t.users ==> r.result == Err(UserNotFound(userId))
    ensures userId in t.users && isbn !in t.books ==> r.result == Err(BookNotFound(isbn))
    ensures userId in t.users && isbn in t.books && t.books[isbn].stock <= 0 ==>
      r.result == Err(BookUnavailable)
    ensures r.result.Ok? <==> userId in t.users && isbn in t.books && t.books[isbn].stock > 0
    ensures r.result.Ok? ==>
      var book := t.books[isbn];
      var user := t.users[userId];
      && r.result.value == now + LoanPeriodMs
      && r.after.books.Keys == t.books.Keys && r.after.users.Keys == t.users.Keys
      && r.after.books[isbn] == book.(stock := book.stock - 1)
      && r.after.books[isbn].stock >= 0
      && r.after.users[userId] ==
         user.(borrowedBooks := user.borrowedBooks + [BorrowRecord(isbn, book.title, now + LoanPeriodMs)])
      && (forall k | k in t.books && k != isbn :: r.after.books[k] == t.books[k])
      && (forall id | id in t.users && id != userId :: r.after.users[id] == t.users[id])
  {
    if userId !in t.users then Outcome(t, Err(UserNotFound(userId)))
    else if isbn !in t.books then Outcome(t, Err(BookNotFound(isbn)))
    else
      var book := t.books[isbn];
      if book.stock <= 0 then Outcome(t, Err(BookUnavailable))
      else
        var due := now + LoanPeriodMs;
        var user := t.users[userId];
        var record := BorrowRecord(isbn, book.title, due);
        Outcome(Tables(t.books[isbn := book.(stock := book.stock - 1)],
                       t.users[userId := user.(borrowedBooks := user.borrowedBooks + [record])]),
                Ok(due))
  }

  /** returnBooks at time `today`: on success the result says whether a late fee is owed. */
  function ReturnStep(t: Tables, userId: UserId, isbn: string, today: int): (r: Outcome<ReturnNotice>)
    ensures r.result.Err? ==> r.after == t
    ensures userId !in t.users ==> r.result == Err(UserNotFound(userId))
    ensures userId in t.users && isbn !in t.books ==> r.result == Err(BookNotFound(isbn))
    ensures userId in t.users && isbn in t.books && HoldsNone(t.users[userId].borrowedBooks, isbn) ==>
      r.result == Err(NotBorrowed(userId))
    ensures r.result.Ok? <==>
      userId in t.users && isbn in t.books && !HoldsNone(t.users[userId].borrowedBooks, isbn)
    ensures r.result.Ok? ==>
      var book := t.books[isbn];
      var user := t.users[userId];
      var records := user.borrowedBooks;
      && r.after.books.Keys == t.books.Keys && r.after.users.Keys == t.users.Keys
      && r.after.books[isbn] == book.(stock := book.stock + 1)
      && r.after.users[userId] == user.(borrowedBooks := WithoutIsbn(records, isbn))
      && (forall k | k in t.books && k != isbn :: r.after.books[k] == t.books[k])
      && (forall id | id in t.users && id != userId :: r.after.users[id] == t.users[id])
      && (forall i | 0 <= i < |records| && records[i].isbn == isbn && HoldsNone(records[..i], isbn) ::
            r.result.value == NoticeFor(today, records[i].dueDate))
  {
    if userId !in t.users then Outcome(t, Err(UserNotFound(userId)))
    else if isbn !in t.books then Outcome(t, Err(BookNotFound(isbn)))
    else
      var user := t.users[userId];
      match FindByIsbn(user.borrowedBooks, isbn)
      case None => Outcome(t, Err(NotBorrowed(userId)))
      case Some(found) =>
        assert forall i | 0 <= i < |user.borrowedBooks| && user.borrowedBooks[i].isbn == isbn
                          && HoldsNone(user.borrowedBooks[..i], isbn) :: found == user.borrowedBooks[i] by {
          forall i | 0 <= i < |user.borrowedBooks| && user.borrowedBooks[i].isbn == isbn
                     && HoldsNone(user.borrowedBooks[..i], isbn)
            ensures found == user.borrowedBooks[i]
          {
            FindByIsbnIsFirst(user.borrowedBooks, isbn, i);
          }
        }
        var book := t.books[isbn];
        Outcome(Tables(t.books[isbn := book.(stock := book.stock + 1)],
                       t.users[userId := user.(borrowedBooks := WithoutIsbn(user.borrowedBooks, isbn))]),
                Ok(NoticeFor(today, found.dueDate)))
  }
}
