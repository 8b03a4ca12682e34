/**
 * The records the circulation ledger stores: books keyed by ISBN, users keyed
 * by id, and the borrow records a user accumulates. Also the two list
 * operations the return path performs on a user's borrow records: finding the
 * first record for an ISBN and dropping every record for it.
 */
module Records {

  datatype Option<+T> = None | Some(value: T)

  /** A catalogue entry; `stock` is the number of copies on the shelf. */
  datatype Book = Book(title: string, author: string, isbn: string, stock: int)

  /** User ids are JavaScript Map keys: a number and a string never collide. */
  datatype UserId = NumId(n: int) | TextId(s: string)

  /** One outstanding loan; `dueDate` is a timestamp in milliseconds. */
  datatype BorrowRecord = BorrowRecord(isbn: string, title: string, dueDate: int)

  datatype User = User(name: string, id: UserId, borrowedBooks: seq<BorrowRecord>)

  /** True when no record in `records` is for `isbn`. */
  predicate HoldsNone(records: seq<BorrowRecord>, isbn: string)
  {
    forall i | 0 <= i < |records| :: records[i].isbn != isbn
  }

  /** Number of records for `isbn`. */
  function CountIsbn(records: seq<BorrowRecord>, isbn: string): (n: nat)
  {
    if records == [] then 0
    else (if records[0].isbn == isbn then 1 else 0) + CountIsbn(records[1..], isbn)
  }

  /** The first record for `isbn`, in list order, if there is one. */
  function FindByIsbn(records: seq<BorrowRecord>, isbn: string): (r: Option<BorrowRecord>)
    ensures r.None? <==> HoldsNone(records, isbn)
    ensures r.Some? ==> r.value.isbn == isbn
    ensures r.Some? ==>
      exists i | 0 <= i < |records| ::
        records[i] == r.value && forall j | 0 <= j < i :: records[j].isbn != isbn
  {
    if records == [] then None
    else if records[0].isbn == isbn then Some(records[0])
    else FindByIsbn(records[1..], isbn)
  }

  /** The record `find` returns is the one at the first index holding `isbn`. */
  lemma FindByIsbnIsFirst(records: seq<BorrowRecord>, isbn: string, i: int)
    requires 0 <= i < |records| && records[i].isbn == isbn && HoldsNone(records[..i], isbn)
    ensures FindByIsbn(records, isbn) == Some(records[i])
  {
  }

  /** The records that are not for `isbn`, in their original order. */
  function WithoutIsbn(records: seq<BorrowRecord>, isbn: string): (r: seq<BorrowRecord>)
    ensures HoldsNone(r, isbn)
    ensures |r| == |records| - CountIsbn(records, isbn)
    ensures forall x :: x in r <==> x in records && x.isbn != isbn
  {
    if records == [] then []
    else if records[0].isbn == isbn then WithoutIsbn(records[1..], isbn)
    else [records[0]] + WithoutIsbn(records[1..], isbn)
  }

  /** Dropping the records for `isbn` distributes over concatenation, so the
      kept records stay in their original relative order. */
  lemma {:induction false} WithoutIsbnAppend(a: seq<BorrowRecord>, b: seq<BorrowRecord>, isbn: string)
    ensures WithoutIsbn(a + b, isbn) == WithoutIsbn(a, isbn) + WithoutIsbn(b, isbn)
  {
    if a == [] {
      assert a + b == b;
    } else {
      assert (a + b)[1..] == a[1..] + b;
      WithoutIsbnAppend(a[1..], b, isbn);
    }
  }

  /** A list holding nothing for `isbn` is left exactly as it was. */
  lemma {:induction false} WithoutIsbnIdentity(records: seq<BorrowRecord>, isbn: string)
    requires HoldsNone(records, isbn)
    ensures WithoutIsbn(records, isbn) == records
  {
    if records != [] {
      assert records[0].isbn != isbn;
      WithoutIsbnIdentity(records[1..], isbn);
      assert [records[0]] + records[1..] == records;
    }
  }

  /** Every record not for `isbn` is kept as often as it occurred. */
  lemma {:induction false} WithoutIsbnKeepsOthers(records: seq<BorrowRecord>, isbn: string, x: BorrowRecord)
    requires x.isbn != isbn
    ensures multiset(WithoutIsbn(records, isbn))[x] == multiset(records)[x]
  {
    if records != [] {
      WithoutIsbnKeepsOthers(records[1..], isbn, x);
      assert records == [records[0]] + records[1..];
    }
  }
}
