/** The lending state machine of the view-model: borrowing, returning,
    renewing, reserving, cancelling a reservation, and the overdue sweep.
    Each operation works on the catalog and touches only the lending fields
    of the first record with the given id. */
module Lending {
  import opened Optional
  import opened DataModels
  import opened Catalog

  /** Borrowing, from any status: checked out, due one loan period from now,
      and placed in the reader's library. */
  function Borrow(books: seq<Book>, book: Book, now: int): (r: seq<Book>)
    ensures !HasId(books, book.id) ==> r == books
    ensures forall i | IsFirst(books, book.id, i) ::
              && OnlyAt(books, r, i)
              && r[i].status == CheckedOut
              && r[i].dueDate == Some(now + LoanPeriod)
              && r[i].isInLibrary
              && r[i].(status := books[i].status, dueDate := books[i].dueDate,
                       isInLibrary := books[i].isInLibrary) == books[i]
  {
    match FindFirst(books, book.id)
    case None => books
    case Some(i) =>
      books[i := books[i].(status := CheckedOut, dueDate := Some(now + LoanPeriod), isInLibrary := true)]
  }

  /** Returning, from any status: available again, with no due date. */
  function Return(books: seq<Book>, book: Book): (r: seq<Book>)
    ensures !HasId(books, book.id) ==> r == books
    ensures forall i | IsFirst(books, book.id, i) ::
              && OnlyAt(books, r, i)
              && r[i].status == Available
              && r[i].dueDate == None
              && r[i].(status := books[i].status, dueDate := books[i].dueDate) == books[i]
  {
    match FindFirst(books, book.id)
    case None => books
    case Some(i) => books[i := books[i].(status := Available, dueDate := None)]
  }

  /** Renewing moves the due date to one loan period from now. The guard
      looks at the status of the snapshot `book` the caller passes in, not at
      the stored record; the status itself never changes. */
  function Renew(books: seq<Book>, book: Book, now: int): (r: seq<Book>)
    ensures !HasId(books, book.id) || book.status != CheckedOut ==> r == books
    ensures book.status == CheckedOut ==>
              forall i | IsFirst(books, book.id, i) ::
                && OnlyAt(books, r, i)
                && r[i].dueDate == Some(now + LoanPeriod)
                && r[i].(dueDate := books[i].dueDate) == books[i]
  {
    match FindFirst(books, book.id)
    case None => books
    case Some(i) =>
      if book.status == CheckedOut then books[i := books[i].(dueDate := Some(now + LoanPeriod))]
      else books
  }

  /** Reserving, from any status; the due date is left as it was. */
  function Reserve(books: seq<Book>, book: Book): (r: seq<Book>)
    ensures !HasId(books, book.id) ==> r == books
    ensures forall i | IsFirst(books, book.id, i) ::
              && OnlyAt(books, r, i)
              && r[i].status == Reserved
              && r[i].(status := books[i].status) == books[i]
  {
    match FindFirst(books, book.id)
    case None => books
    case Some(i) => books[i := books[i].(status := Reserved)]
  }

  /** Cancelling a reservation: a stored reserved record becomes available;
      any other stored status is left alone. */
  function CancelReservation(books: seq<Book>, book: Book): (r: seq<Book>)
    ensures !HasId(books, book.id) ==> r == books
    ensures forall i | IsFirst(books, book.id, i) ::
              && OnlyAt(books, r, i)
              && r[i].status == (if books[i].status == Reserved then Available else books[i].status)
              && r[i].(status := books[i].status) == books[i]
  {
    match FindFirst(books, book.id)
    case None => books
    case Some(i) =>
      if books[i].status == Reserved then books[i := books[i].(status := Available)] else books
  }

  /* --------------------------------------------------------- overdue sweep */

  /** A checked-out record whose due date lies before `now`. */
  predicate PastDue(b: Book, now: int)
  {
    b.dueDate.Some? && b.dueDate.value < now && b.status == CheckedOut
  }

  function MarkIfPastDue(b: Book, now: int): Book
  {
    if PastDue(b, now) then b.(status := Overdue) else b
  }

  /** The overdue sweep: exactly the past-due checked-out records become
      overdue, and nothing else changes. */
  function UpdateOverdueStatuses(books: seq<Book>, now: int): (r: seq<Book>)
    ensures |r| == |books|
    ensures forall i :: 0 <= i < |books| ==>
              (r[i].status != books[i].status <==> PastDue(books[i], now))
    ensures forall i :: 0 <= i < |books| && PastDue(books[i], now) ==> r[i].status == Overdue
    ensures forall i :: 0 <= i < |books| ==> r[i].(status := books[i].status) == books[i]
  {
    seq(|books|, i requires 0 <= i < |books| => MarkIfPastDue(books[i], now))
  }

  /** The sweep as the source writes it: one pass over the indices,
      updating in place. It computes the same catalog as the function. */
  method SweepOverdue(books: seq<Book>, now: int) returns (r: seq<Book>)
    ensures r == UpdateOverdueStatuses(books, now)
  {
    r := books;
    var k := 0;
    while k < |r|
      invariant 0 <= k <= |r| == |books|
      invariant forall i :: 0 <= i < k ==> r[i] == MarkIfPastDue(books[i], now)
      invariant forall i :: k <= i < |r| ==> r[i] == books[i]
    {
      if r[k].dueDate.Some? && r[k].dueDate.value < now && r[k].status == CheckedOut {
        r := r[k := r[k].(status := Overdue)];
      }
      k := k + 1;
    }
  }

  /** Sweeping twice at the same instant is sweeping once. */
  lemma SweepIdempotent(books: seq<Book>, now: int)
    ensures UpdateOverdueStatuses(UpdateOverdueStatuses(books, now), now) ==
            UpdateOverdueStatuses(books, now)
  {
    var once := UpdateOverdueStatuses(books, now);
    var twice := UpdateOverdueStatuses(once, now);
    forall i | 0 <= i < |books| ensures twice[i] == once[i] {
      assert !PastDue(once[i], now);
    }
  }

  /* ------------------------------------------------------------- invariant */

  /** A record on loan (checked out or overdue) has a due date. */
  predicate LoanDated(b: Book)
  {
    (b.status == CheckedOut || b.status == Overdue) ==> b.dueDate.Some?
  }

  ghost predicate AllLoansDated(books: seq<Book>)
  {
    forall i :: 0 <= i < |books| ==> LoanDated(books[i])
  }

  /** An edit confined to the first record with `id` keeps every loan
      dated when it leaves that record's loan dated. */
  lemma DatedAfterEdit(books: seq<Book>, r: seq<Book>, id: string)
    requires AllLoansDated(books)
    requires !HasId(books, id) ==> r == books
    requires forall i | IsFirst(books, id, i) :: OnlyAt(books, r, i) && LoanDated(r[i])
    ensures AllLoansDated(r)
  {
    if HasId(books, id) {
      var i := FindFirst(books, id).value;
      assert OnlyAt(books, r, i) && LoanDated(r[i]);
      forall j | 0 <= j < |r| ensures LoanDated(r[j]) {
        if j != i {
          assert r[j] == books[j];
        }
      }
    }
  }

  /** Every lending operation keeps every loan dated. */
  lemma LendingKeepsLoansDated(books: seq<Book>, book: Book, now: int)
    requires AllLoansDated(books)
    ensures AllLoansDated(Borrow(books, book, now))
    ensures AllLoansDated(Return(books, book))
    ensures AllLoansDated(Renew(books, book, now))
    ensures AllLoansDated(Reserve(books, book))
    ensures AllLoansDated(CancelReservation(books, book))
    ensures AllLoansDated(UpdateOverdueStatuses(books, now))
  {
    DatedAfterEdit(books, Borrow(books, book, now), book.id);
    DatedAfterEdit(books, Return(books, book), book.id);
    RenewKeepsLoansDated(books, book, now);
    DatedAfterEdit(books, Reserve(books, book), book.id);
    CancelKeepsLoansDated(books, book);
    SweepKeepsLoansDated(books, now);
  }

  lemma RenewKeepsLoansDated(books: seq<Book>, book: Book, now: int)
    requires AllLoansDated(books)
    ensures AllLoansDated(Renew(books, book, now))
  {
    if book.status == CheckedOut {
      DatedAfterEdit(books, Renew(books, book, now), book.id);
    }
  }

  lemma CancelKeepsLoansDated(books: seq<Book>, book: Book)
    requires AllLoansDated(books)
    ensures AllLoansDated(CancelReservation(books, book))
  {
    var r := CancelReservation(books, book);
    forall i | IsFirst(books, book.id, i) ensures OnlyAt(books, r, i) && LoanDated(r[i]) {
      assert LoanDated(books[i]);
    }
    DatedAfterEdit(books, r, book.id);
  }

  lemma SweepKeepsLoansDated(books: seq<Book>, now: int)
    requires AllLoansDated(books)
    ensures AllLoansDated(UpdateOverdueStatuses(books, now))
  {
    var sweep := UpdateOverdueStatuses(books, now);
    forall i | 0 <= i < |books| ensures LoanDated(sweep[i]) {
      assert sweep[i].dueDate == books[i].dueDate;
      assert LoanDated(books[i]);
    }
  }

  /** Reserving a borrowed record leaves its due date in place, so a
      reserved record can carry a due date. */
  lemma ReserveKeepsDueDate(b: Book, now: int)
    requires b.status == CheckedOut && b.dueDate == Some(now)
    ensures var r := Reserve([b], b);
            r[0].status == Reserved && r[0].dueDate == Some(now)
  {
    assert IsFirst([b], b.id, 0);
  }

  /** A stale snapshot that still says checked out lets renewal put a due
      date on a record whose stored status is reserved. */
  lemma RenewTrustsSnapshot(stored: Book, now: int)
    requires stored.status == Reserved && stored.dueDate == None
    ensures var r := Renew([stored], stored.(status := CheckedOut), now);
            r[0].status == Reserved && r[0].dueDate == Some(now + LoanPeriod)
  {
    assert IsFirst([stored], stored.id, 0);
  }
}
