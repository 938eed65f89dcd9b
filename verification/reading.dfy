/** The reading-state edits the view-model makes to a single catalog record:
    progress, the read flag, "currently reading", notes, the reader's rating
    and library membership. The side effects on the reading goal, the user
    statistics and the recommendations belong to the view-model (module ViewModel). */
module Reading {
  import opened Optional
  import opened DataModels
  import opened Catalog

  /** Threshold at which a progress value counts as finished. */
  predicate Completes(progress: real)
  {
    progress >= 1.0
  }

  /** Stores the progress and the reading time; a finishing progress also
      marks the record read, and a smaller one leaves the read flag alone. */
  function SetProgress(books: seq<Book>, book: Book, progress: real, now: int): (r: seq<Book>)
    ensures !HasId(books, book.id) ==> r == books
    ensures forall i | IsFirst(books, book.id, i) ::
              && OnlyAt(books, r, i)
              && r[i].readingProgress == progress
              && r[i].lastReadDate == Some(now)
              && r[i].isRead == (Completes(progress) || books[i].isRead)
              && r[i].(readingProgress := books[i].readingProgress, lastReadDate := books[i].lastReadDate,
                       isRead := books[i].isRead) == books[i]
  {
    match FindFirst(books, book.id)
    case None => books
    case Some(i) =>
      var b := books[i].(readingProgress := progress, lastReadDate := Some(now));
      books[i := if Completes(progress) then b.(isRead := true) else b]
  }

  /** Flips the read flag. Becoming read also sets progress to 1 and the
      reading time; becoming unread changes nothing else. */
  function ToggleRead(books: seq<Book>, book: Book, now: int): (r: seq<Book>)
    ensures !HasId(books, book.id) ==> r == books
    ensures forall i | IsFirst(books, book.id, i) ::
              && OnlyAt(books, r, i)
              && r[i].isRead == !books[i].isRead
              && (r[i].isRead ==>
                    && r[i].readingProgress == 1.0
                    && r[i].lastReadDate == Some(now)
                    && r[i].(isRead := books[i].isRead, readingProgress := books[i].readingProgress,
                             lastReadDate := books[i].lastReadDate) == books[i])
              && (!r[i].isRead ==> r[i].(isRead := books[i].isRead) == books[i])
  {
    match FindFirst(books, book.id)
    case None => books
    case Some(i) =>
      var b := books[i].(isRead := !books[i].isRead);
      books[i := if b.isRead then b.(lastReadDate := Some(now), readingProgress := 1.0) else b]
  }

  /** Progress of one tenth, stamped with the reading time; the status and
      the read flag stay as they were. */
  function MarkCurrentlyReading(books: seq<Book>, book: Book, now: int): (r: seq<Book>)
    ensures !HasId(books, book.id) ==> r == books
    ensures forall i | IsFirst(books, book.id, i) ::
              && OnlyAt(books, r, i)
              && r[i].readingProgress == 0.1
              && r[i].lastReadDate == Some(now)
              && r[i].(readingProgress := books[i].readingProgress,
                       lastReadDate := books[i].lastReadDate) == books[i]
  {
    match FindFirst(books, book.id)
    case None => books
    case Some(i) => books[i := books[i].(readingProgress := 0.1, lastReadDate := Some(now))]
  }

  /** Replaces the notes, and nothing else. */
  function SetNotes(books: seq<Book>, book: Book, notes: string): (r: seq<Book>)
    ensures !HasId(books, book.id) ==> r == books
    ensures forall i | IsFirst(books, book.id, i) ::
              && OnlyAt(books, r, i)
              && r[i].notes == notes
              && r[i].(notes := books[i].notes) == books[i]
  {
    match FindFirst(books, book.id)
    case None => books
    case Some(i) => books[i := books[i].(notes := notes)]
  }

  /** Replaces (or clears) the reader's rating, and nothing else. */
  function SetUserRating(books: seq<Book>, book: Book, rating: Option<int>): (r: seq<Book>)
    ensures !HasId(books, book.id) ==> r == books
    ensures forall i | IsFirst(books, book.id, i) ::
              && OnlyAt(books, r, i)
              && r[i].userRating == rating
              && r[i].(userRating := books[i].userRating) == books[i]
  {
    match FindFirst(books, book.id)
    case None => books
    case Some(i) => books[i := books[i].(userRating := rating)]
  }

  /** Flips library membership; joining the library stamps the date added. */
  function ToggleLibrary(books: seq<Book>, book: Book, now: int): (r: seq<Book>)
    ensures !HasId(books, book.id) ==> r == books
    ensures forall i | IsFirst(books, book.id, i) ::
              && OnlyAt(books, r, i)
              && r[i].isInLibrary == !books[i].isInLibrary
              && r[i].dateAdded == (if r[i].isInLibrary then now else books[i].dateAdded)
              && r[i].(isInLibrary := books[i].isInLibrary, dateAdded := books[i].dateAdded) == books[i]
  {
    match FindFirst(books, book.id)
    case None => books
    case Some(i) =>
      var b := books[i].(isInLibrary := !books[i].isInLibrary);
      books[i := if b.isInLibrary then b.(dateAdded := now) else b]
  }

  /** Finishing marks a record read; a zero progress on an unread record
      leaves it unread. */
  lemma ProgressRoundTrip(books: seq<Book>, book: Book, now: int, i: nat)
    requires IsFirst(books, book.id, i)
    ensures SetProgress(books, book, 1.0, now)[i].isRead
    ensures !books[i].isRead ==> !SetProgress(books, book, 0.0, now)[i].isRead
  {
  }

  /** Toggling the read flag twice restores it; the progress of 1 set on
      the way stays, so an unread record can show full progress. */
  lemma ToggleReadTwice(books: seq<Book>, book: Book, now: int, i: nat)
    requires IsFirst(books, book.id, i) && !books[i].isRead
    ensures var twice := ToggleRead(ToggleRead(books, book, now), book, now);
            !twice[i].isRead && twice[i].readingProgress == 1.0
  {
    var once := ToggleRead(books, book, now);
    assert IsFirst(once, book.id, i);
  }
}
