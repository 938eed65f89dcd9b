/** The recently-viewed list: most recent first, one entry per id, at most
    five entries. */
module Recent {
  import opened DataModels

  const Capacity: nat := 5

  predicate HasBookId(recent: seq<Book>, id: string)
  {
    exists j :: 0 <= j < |recent| && recent[j].id == id
  }

  predicate DistinctIds(recent: seq<Book>)
  {
    forall i, j :: 0 <= i < j < |recent| ==> recent[i].id != recent[j].id
  }

  /** The shape the list keeps: bounded and without repeated ids. */
  predicate WellFormed(recent: seq<Book>)
  {
    |recent| <= Capacity && DistinctIds(recent)
  }

  /** Viewing a book: an id already in the list leaves the list as it is;
      a new one goes to the front, and the oldest entry drops off once the
      list would hold more than five. */
  function AddToRecent(recent: seq<Book>, book: Book): (r: seq<Book>)
    ensures HasBookId(recent, book.id) ==> r == recent
    ensures !HasBookId(recent, book.id) ==>
              && |r| > 0 && r[0] == book
              && r[1..] == (if |recent| < Capacity then recent else recent[..|recent| - 1])
    ensures |recent| <= Capacity ==> |r| <= Capacity
    ensures DistinctIds(recent) ==> DistinctIds(r)
    ensures HasBookId(r, book.id)
  {
    if HasBookId(recent, book.id) then recent
    else
      var inserted := [book] + recent;
      var r := if |inserted| > Capacity then inserted[..|inserted| - 1] else inserted;
      assert r[0] == book && r[1..] == (if |recent| < Capacity then recent else recent[..|recent| - 1]);
      assert forall j :: 1 <= j < |r| ==> r[j] == recent[j - 1];
      r
  }

  /** Adding the book that was just added changes nothing. */
  lemma AddToRecentIdempotent(recent: seq<Book>, book: Book)
    ensures AddToRecent(AddToRecent(recent, book), book) == AddToRecent(recent, book)
  {
  }

  /** The invariant the list keeps across views. */
  lemma AddToRecentKeepsWellFormed(recent: seq<Book>, book: Book)
    requires WellFormed(recent)
    ensures WellFormed(AddToRecent(recent, book))
  {
  }

  /** A new id on a list with room to spare is simply put in front. */
  lemma AddNewWithRoom(recent: seq<Book>, book: Book)
    requires |recent| < Capacity
    requires forall j :: 0 <= j < |recent| ==> recent[j].id != book.id
    ensures AddToRecent(recent, book) == [book] + recent
  {
    var r := AddToRecent(recent, book);
    assert r[1..] == recent;
  }

  /** A new id on a full list goes in front and pushes the oldest out. */
  lemma AddNewWhenFull(recent: seq<Book>, book: Book)
    requires |recent| == Capacity
    requires forall j :: 0 <= j < |recent| ==> recent[j].id != book.id
    ensures AddToRecent(recent, book) == [book] + recent[..Capacity - 1]
  {
    var r := AddToRecent(recent, book);
    assert r[1..] == recent[..Capacity - 1];
  }

  /** Five views of distinct ids fill the list, newest first. */
  lemma FiveViewsFillTheList(b1: Book, b2: Book, b3: Book, b4: Book, b5: Book)
    requires b2.id != b1.id
    requires b3.id != b1.id && b3.id != b2.id
    requires b4.id != b1.id && b4.id != b2.id && b4.id != b3.id
    requires b5.id != b1.id && b5.id != b2.id && b5.id != b3.id && b5.id != b4.id
    ensures AddToRecent(AddToRecent(AddToRecent(AddToRecent(AddToRecent(
              [], b1), b2), b3), b4), b5) == [b5, b4, b3, b2, b1]
  {
    AddNewWithRoom([], b1);
    assert AddToRecent([], b1) == [b1];
    AddNewWithRoom([b1], b2);
    assert AddToRecent([b1], b2) == [b2, b1];
    AddNewWithRoom([b2, b1], b3);
    assert AddToRecent([b2, b1], b3) == [b3, b2, b1];
    AddNewWithRoom([b3, b2, b1], b4);
    assert AddToRecent([b3, b2, b1], b4) == [b4, b3, b2, b1];
    AddNewWithRoom([b4, b3, b2, b1], b5);
  }

  /** Six views of pairwise distinct ids leave the last five, newest first. */
  lemma SixViewsKeepLastFive(b1: Book, b2: Book, b3: Book, b4: Book, b5: Book, b6: Book)
    requires b2.id != b1.id
    requires b3.id != b1.id && b3.id != b2.id
    requires b4.id != b1.id && b4.id != b2.id && b4.id != b3.id
    requires b5.id != b1.id && b5.id != b2.id && b5.id != b3.id && b5.id != b4.id
    requires b6.id != b1.id && b6.id != b2.id && b6.id != b3.id && b6.id != b4.id && b6.id != b5.id
    ensures AddToRecent(AddToRecent(AddToRecent(AddToRecent(AddToRecent(AddToRecent(
              [], b1), b2), b3), b4), b5), b6) == [b6, b5, b4, b3, b2]
  {
    FiveViewsFillTheList(b1, b2, b3, b4, b5);
    SixthViewEvictsOldest(b5, b4, b3, b2, b1, b6);
  }

  /** A sixth distinct id on a full list evicts the oldest entry. */
  lemma SixthViewEvictsOldest(a: Book, b: Book, c: Book, d: Book, e: Book, x: Book)
    requires x.id != a.id && x.id != b.id && x.id != c.id && x.id != d.id && x.id != e.id
    ensures AddToRecent([a, b, c, d, e], x) == [x, a, b, c, d]
  {
    var full := [a, b, c, d, e];
    AddNewWhenFull(full, x);
    assert full[..Capacity - 1] == [a, b, c, d];
  }
}
