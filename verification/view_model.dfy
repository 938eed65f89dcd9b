/** The library view-model as one immutable state and the transitions its
    public operations make. A write to the catalog re-derives the catalog
    totals of the user statistics (`Commit`), as the subscription on the
    catalog does in the source; time is passed in as `now`. */
module ViewModel {
  import opened Optional
  import opened DataModels
  import opened Catalog
  import opened Lending
  import opened Reading
  import opened Stats
  import opened Recommend
  import opened Recent
  import opened Queries

  datatype State = State(
    allBooks: seq<Book>,
    recentlyViewed: seq<Book>,
    recommendations: seq<Book>,
    searchText: string,
    readingGoal: ReadingGoal,
    userStats: UserStats)

  /** Replaces the catalog and re-derives the statistics from it. */
  function Commit(s: State, books: seq<Book>): (r: State)
    ensures r.allBooks == books
    ensures r.userStats.totalBooksRead == |Seqs.Positions(books, IsReadBook)|
    ensures r.userStats.pagesRead == PagesOfReadBooks(books)
    ensures r.userStats.favoriteGenre == FavoriteGenre(books)
    ensures r.userStats.readingStreak == s.userStats.readingStreak
    ensures r.userStats.lastReadingDate == s.userStats.lastReadingDate
    ensures r.(allBooks := s.allBooks, userStats := s.userStats) == s
  {
    s.(allBooks := books, userStats := UpdateUserStats(s.userStats, books))
  }

  /** Start-up: the catalog is loaded, home recommendations are generated,
      the statistics are derived, and the streak is checked (with no last
      reading date yet, it is 0). */
  function Initial(books: seq<Book>, now: int): (r: State)
    ensures r.allBooks == books && r.recentlyViewed == [] && r.searchText == ""
    ensures r.recommendations == HomeRecommendations(books)
    ensures r.readingGoal == DefaultGoal
    ensures r.userStats.totalBooksRead == |Seqs.Positions(books, IsReadBook)|
    ensures r.userStats.pagesRead == PagesOfReadBooks(books)
    ensures r.userStats.favoriteGenre == FavoriteGenre(books)
    ensures r.userStats.readingStreak == 0 && r.userStats.lastReadingDate == None
  {
    var loaded := State(books, [], HomeRecommendations(books), "", DefaultGoal, InitialStats);
    var bound := loaded.(userStats := UpdateUserStats(InitialStats, books));
    bound.(userStats := CheckReadingStreak(bound.userStats, now))
  }

  /* ----------------------------------------------------------------- lending */

  /** Borrowing a book in the catalog also regenerates the recommendations;
      the home list, generated last, is what remains. */
  function BorrowBook(s: State, book: Book, now: int): (r: State)
    ensures !HasId(s.allBooks, book.id) ==> r == s
    ensures HasId(s.allBooks, book.id) ==>
              && r.allBooks == Borrow(s.allBooks, book, now)
              && r.recommendations == HomeRecommendations(r.allBooks)
              && r.userStats == UpdateUserStats(s.userStats, r.allBooks)
              && r.(allBooks := s.allBooks, userStats := s.userStats, recommendations := s.recommendations) == s
  {
    if HasId(s.allBooks, book.id) then
      var c := Commit(s, Borrow(s.allBooks, book, now));
      c.(recommendations := HomeRecommendations(c.allBooks))
    else s
  }

  function ReturnBook(s: State, book: Book): (r: State)
    ensures !HasId(s.allBooks, book.id) ==> r == s
    ensures HasId(s.allBooks, book.id) ==>
              && r.allBooks == Return(s.allBooks, book)
              && r.userStats == UpdateUserStats(s.userStats, r.allBooks)
              && r.(allBooks := s.allBooks, userStats := s.userStats) == s
  {
    if HasId(s.allBooks, book.id) then Commit(s, Return(s.allBooks, book)) else s
  }

  /** Renewal writes only when the record exists and the snapshot passed
      in says checked out. */
  function RenewBook(s: State, book: Book, now: int): (r: State)
    ensures !HasId(s.allBooks, book.id) || book.status != CheckedOut ==> r == s
    ensures HasId(s.allBooks, book.id) && book.status == CheckedOut ==>
              && r.allBooks == Renew(s.allBooks, book, now)
              && r.userStats == UpdateUserStats(s.userStats, r.allBooks)
              && r.(allBooks := s.allBooks, userStats := s.userStats) == s
  {
    if HasId(s.allBooks, book.id) && book.status == CheckedOut then Commit(s, Renew(s.allBooks, book, now))
    else s
  }

  function ReserveBook(s: State, book: Book): (r: State)
    ensures !HasId(s.allBooks, book.id) ==> r == s
    ensures HasId(s.allBooks, book.id) ==>
              && r.allBooks == Reserve(s.allBooks, book)
              && r.userStats == UpdateUserStats(s.userStats, r.allBooks)
              && r.(allBooks := s.allBooks, userStats := s.userStats) == s
  {
    if HasId(s.allBooks, book.id) then Commit(s, Reserve(s.allBooks, book)) else s
  }

  /** Cancelling writes only when the stored record is reserved. */
  function CancelBookReservation(s: State, book: Book): (r: State)
    ensures forall i | IsFirst(s.allBooks, book.id, i) && s.allBooks[i].status != Reserved :: r == s
    ensures forall i | IsFirst(s.allBooks, book.id, i) && s.allBooks[i].status == Reserved ::
              && r.allBooks == CancelReservation(s.allBooks, book)
              && r.userStats == UpdateUserStats(s.userStats, r.allBooks)
              && r.(allBooks := s.allBooks, userStats := s.userStats) == s
    ensures !HasId(s.allBooks, book.id) ==> r == s
  {
    match FindFirst(s.allBooks, book.id)
    case None => s
    case Some(i) =>
      if s.allBooks[i].status == Reserved then Commit(s, CancelReservation(s.allBooks, book)) else s
  }

  /** The overdue sweep writes (and so re-derives the statistics) only when
      some record is past due. */
  function UpdateOverdue(s: State, now: int): (r: State)
    ensures (forall i :: 0 <= i < |s.allBooks| ==> !PastDue(s.allBooks[i], now)) ==> r == s
    ensures r.allBooks == UpdateOverdueStatuses(s.allBooks, now)
    ensures r.(allBooks := s.allBooks, userStats := s.userStats) == s
    ensures r.userStats.readingStreak == s.userStats.readingStreak
    ensures r.userStats.lastReadingDate == s.userStats.lastReadingDate
  {
    if exists i :: 0 <= i < |s.allBooks| && PastDue(s.allBooks[i], now) then
      Commit(s, UpdateOverdueStatuses(s.allBooks, now))
    else
      assert UpdateOverdueStatuses(s.allBooks, now) == s.allBooks;
      s
  }

  /* ----------------------------------------------------------------- reading */

  /** Setting progress stamps the reader's last reading date; a progress of
      at least 1 counts towards the reading goal on every call. */
  function UpdateReadingProgress(s: State, progress: real, book: Book, now: int): (r: State)
    ensures !HasId(s.allBooks, book.id) ==> r == s
    ensures HasId(s.allBooks, book.id) ==>
              && r.allBooks == SetProgress(s.allBooks, book, progress, now)
              && r.userStats == UpdateUserStats(s.userStats, r.allBooks).(lastReadingDate := Some(now))
              && r.readingGoal == s.readingGoal.(current := s.readingGoal.current + if Completes(progress) then 1 else 0)
              && r.(allBooks := s.allBooks, userStats := s.userStats, readingGoal := s.readingGoal) == s
  {
    if HasId(s.allBooks, book.id) then
      var c := Commit(s, SetProgress(s.allBooks, book, progress, now));
      var stamped := c.(userStats := c.userStats.(lastReadingDate := Some(now)));
      if Completes(progress) then
        stamped.(readingGoal := stamped.readingGoal.(current := stamped.readingGoal.current + 1))
      else stamped
    else s
  }

  /** Toggling to read counts towards the goal, stamps the reading date and
      shows recommendations related to the book; toggling to unread does
      none of that. */
  function ToggleReadStatus(s: State, book: Book, now: int): (r: State)
    ensures !HasId(s.allBooks, book.id) ==> r == s
    ensures r.(allBooks := s.allBooks, userStats := s.userStats, readingGoal := s.readingGoal,
               recommendations := s.recommendations) == s
    ensures forall i | IsFirst(s.allBooks, book.id, i) ::
              && r.allBooks == ToggleRead(s.allBooks, book, now)
              && (!s.allBooks[i].isRead ==>
                    && r.readingGoal == s.readingGoal.(current := s.readingGoal.current + 1)
                    && r.userStats == UpdateUserStats(s.userStats, r.allBooks).(lastReadingDate := Some(now))
                    && r.recommendations == RelatedRecommendations(r.allBooks, book))
              && (s.allBooks[i].isRead ==>
                    && r.readingGoal == s.readingGoal
                    && r.userStats == UpdateUserStats(s.userStats, r.allBooks)
                    && r.recommendations == s.recommendations)
  {
    match FindFirst(s.allBooks, book.id)
    case None => s
    case Some(i) =>
      var books := ToggleRead(s.allBooks, book, now);
      var c := Commit(s, books);
      if s.allBooks[i].isRead then c
      else
        c.(readingGoal := s.readingGoal.(current := s.readingGoal.current + 1),
           userStats := c.userStats.(lastReadingDate := Some(now)),
           recommendations := RelatedRecommendations(books, book))
  }

  /** Library membership changes leave the home recommendations showing. */
  function ToggleLibraryStatus(s: State, book: Book, now: int): (r: State)
    ensures !HasId(s.allBooks, book.id) ==> r == s
    ensures HasId(s.allBooks, book.id) ==>
              && r.allBooks == ToggleLibrary(s.allBooks, book, now)
              && r.recommendations == HomeRecommendations(r.allBooks)
              && r.userStats == UpdateUserStats(s.userStats, r.allBooks)
              && r.(allBooks := s.allBooks, userStats := s.userStats, recommendations := s.recommendations) == s
  {
    if HasId(s.allBooks, book.id) then
      var c := Commit(s, ToggleLibrary(s.allBooks, book, now));
      c.(recommendations := HomeRecommendations(c.allBooks))
    else s
  }

  function UpdateNotes(s: State, notes: string, book: Book): (r: State)
    ensures !HasId(s.allBooks, book.id) ==> r == s
    ensures HasId(s.allBooks, book.id) ==>
              && r.allBooks == SetNotes(s.allBooks, book, notes)
              && r.userStats == UpdateUserStats(s.userStats, r.allBooks)
              && r.(allBooks := s.allBooks, userStats := s.userStats) == s
  {
    if HasId(s.allBooks, book.id) then Commit(s, SetNotes(s.allBooks, book, notes)) else s
  }

  function UpdateUserRating(s: State, rating: Option<int>, book: Book): (r: State)
    ensures !HasId(s.allBooks, book.id) ==> r == s
    ensures HasId(s.allBooks, book.id) ==>
              && r.allBooks == SetUserRating(s.allBooks, book, rating)
              && r.userStats == UpdateUserStats(s.userStats, r.allBooks)
              && r.(allBooks := s.allBooks, userStats := s.userStats) == s
  {
    if HasId(s.allBooks, book.id) then Commit(s, SetUserRating(s.allBooks, book, rating)) else s
  }

  /** Marking as currently reading stamps the reader's last reading date
      and does not count towards the goal. */
  function MarkAsCurrentlyReading(s: State, book: Book, now: int): (r: State)
    ensures !HasId(s.allBooks, book.id) ==> r == s
    ensures HasId(s.allBooks, book.id) ==>
              && r.allBooks == MarkCurrentlyReading(s.allBooks, book, now)
              && r.userStats == UpdateUserStats(s.userStats, r.allBooks).(lastReadingDate := Some(now))
              && r.(allBooks := s.allBooks, userStats := s.userStats) == s
  {
    if HasId(s.allBooks, book.id) then
      var c := Commit(s, MarkCurrentlyReading(s.allBooks, book, now));
      c.(userStats := c.userStats.(lastReadingDate := Some(now)))
    else s
  }

  /** Only the count of the goal goes back to 0. */
  function ResetReadingGoal(s: State): (r: State)
    ensures r.readingGoal.current == 0
    ensures r.readingGoal.target == s.readingGoal.target && r.readingGoal.timeFrame == s.readingGoal.timeFrame
    ensures r.(readingGoal := s.readingGoal) == s
  {
    s.(readingGoal := s.readingGoal.(current := 0))
  }

  /** The settings screen's stepper: a new target in 1...100. */
  function SetGoalTarget(s: State, target: GoalTarget): (r: State)
    ensures r.readingGoal == s.readingGoal.(target := target)
    ensures r.(readingGoal := s.readingGoal) == s
  {
    s.(readingGoal := s.readingGoal.(target := target))
  }

  /** The settings screen's picker: a new time frame. */
  function SetGoalTimeFrame(s: State, timeFrame: TimeFrame): (r: State)
    ensures r.readingGoal == s.readingGoal.(timeFrame := timeFrame)
    ensures r.(readingGoal := s.readingGoal) == s
  {
    s.(readingGoal := s.readingGoal.(timeFrame := timeFrame))
  }

  /** Viewing a book records it as recently viewed and always shows the
      recommendations related to it. */
  function ViewBook(s: State, book: Book): (r: State)
    ensures r.recentlyViewed == AddToRecent(s.recentlyViewed, book)
    ensures r.recommendations == RelatedRecommendations(s.allBooks, book)
    ensures r.(recentlyViewed := s.recentlyViewed, recommendations := s.recommendations) == s
  {
    s.(recentlyViewed := AddToRecent(s.recentlyViewed, book),
       recommendations := RelatedRecommendations(s.allBooks, book))
  }

  /** The current search results: the whole catalog with no search text,
      otherwise every record whose title, author line or publisher contains
      the text, as often as in the catalog and in catalog order. */
  function SearchResults(s: State, fold: char -> char): (r: seq<Book>)
    ensures |s.searchText| == 0 ==> r == s.allBooks
    ensures |s.searchText| > 0 ==>
              forall b :: multiset(r)[b] == if MatchesQuery(b, s.searchText, fold) then multiset(s.allBooks)[b] else 0
    ensures |s.searchText| > 0 ==> forall b :: b in r <==> b in s.allBooks && MatchesQuery(b, s.searchText, fold)
    ensures Seqs.IsSubsequence(r, s.allBooks)
  {
    FilteredBooks(s.allBooks, s.searchText, fold)
  }

  /** Completion is counted on every call: finishing the same book twice
      adds two to the goal, while the second call leaves the catalog and
      the derived totals as the first left them. */
  lemma CompletionCountedOnEveryCall(s: State, book: Book, now: int)
    requires HasId(s.allBooks, book.id)
    ensures var once := UpdateReadingProgress(s, 1.0, book, now);
            var twice := UpdateReadingProgress(once, 1.0, book, now);
            && twice.readingGoal.current == s.readingGoal.current + 2
            && twice.allBooks == once.allBooks
            && twice.userStats == once.userStats
  {
    SetProgressTwice(s.allBooks, book, 1.0, now);
  }

  /** Storing the same progress twice at the same instant is storing it once. */
  lemma SetProgressTwice(books: seq<Book>, book: Book, progress: real, now: int)
    ensures SetProgress(SetProgress(books, book, progress, now), book, progress, now) ==
            SetProgress(books, book, progress, now)
    ensures HasId(books, book.id) ==> HasId(SetProgress(books, book, progress, now), book.id)
  {
    if HasId(books, book.id) {
      var i := FindFirst(books, book.id).value;
      var once := SetProgress(books, book, progress, now);
      assert IsFirst(once, book.id, i);
      var twice := SetProgress(once, book, progress, now);
      assert twice[i] == once[i];
      assert twice == once;
    }
  }

  /* ---------------------------------------------------------------- commands */

  datatype Command =
    | BorrowCmd(book: Book)
    | ReturnCmd(book: Book)
    | RenewCmd(book: Book)
    | ReserveCmd(book: Book)
    | CancelReservationCmd(book: Book)
    | SweepOverdueCmd
    | ProgressCmd(progress: real, book: Book)
    | ToggleReadCmd(book: Book)
    | ToggleLibraryCmd(book: Book)
    | NotesCmd(notes: string, book: Book)
    | RatingCmd(rating: Option<int>, book: Book)
    | MarkReadingCmd(book: Book)
    | ResetGoalCmd
    | GoalTargetCmd(target: GoalTarget)
    | GoalTimeFrameCmd(timeFrame: TimeFrame)
    | ViewCmd(book: Book)
    | SearchCmd(text: string)

  predicate IsLendingCommand(c: Command)
  {
    c.BorrowCmd? || c.ReturnCmd? || c.RenewCmd? || c.ReserveCmd? || c.CancelReservationCmd? || c.SweepOverdueCmd?
  }

  predicate IsReadingCommand(c: Command)
  {
    c.ProgressCmd? || c.ToggleReadCmd? || c.ToggleLibraryCmd? || c.NotesCmd? || c.RatingCmd? || c.MarkReadingCmd?
  }

  /** One public operation of the view-model at time `now`. */
  function Apply(s: State, c: Command, now: int): State
  {
    if IsLendingCommand(c) then ApplyLending(s, c, now)
    else if IsReadingCommand(c) then ApplyReading(s, c, now)
    else ApplyOther(s, c)
  }

  function ApplyLending(s: State, c: Command, now: int): State
    requires IsLendingCommand(c)
  {
    match c
    case BorrowCmd(b) => BorrowBook(s, b, now)
    case ReturnCmd(b) => ReturnBook(s, b)
    case RenewCmd(b) => RenewBook(s, b, now)
    case ReserveCmd(b) => ReserveBook(s, b)
    case CancelReservationCmd(b) => CancelBookReservation(s, b)
    case SweepOverdueCmd => UpdateOverdue(s, now)
  }

  function ApplyReading(s: State, c: Command, now: int): State
    requires IsReadingCommand(c)
  {
    match c
    case ProgressCmd(p, b) => UpdateReadingProgress(s, p, b, now)
    case ToggleReadCmd(b) => ToggleReadStatus(s, b, now)
    case ToggleLibraryCmd(b) => ToggleLibraryStatus(s, b, now)
    case NotesCmd(n, b) => UpdateNotes(s, n, b)
    case RatingCmd(rt, b) => UpdateUserRating(s, rt, b)
    case MarkReadingCmd(b) => MarkAsCurrentlyReading(s, b, now)
  }

  function ApplyOther(s: State, c: Command): State
    requires !IsLendingCommand(c) && !IsReadingCommand(c)
  {
    match c
    case ResetGoalCmd => ResetReadingGoal(s)
    case GoalTargetCmd(t) => SetGoalTarget(s, t)
    case GoalTimeFrameCmd(f) => SetGoalTimeFrame(s, f)
    case ViewCmd(b) => ViewBook(s, b)
    case SearchCmd(t) => s.(searchText := t)
  }

  /* --------------------------------------------------------------- invariant */

  /** What every reachable state keeps: statistics in step with the
      catalog, every loan dated, a well-formed recently-viewed list, at most
      five recommendations none of which was in the library when shown, and
      a usable reading goal. */
  ghost predicate Consistent(s: State)
  {
    && s.userStats == UpdateUserStats(s.userStats, s.allBooks)
    && AllLoansDated(s.allBooks)
    && WellFormed(s.recentlyViewed)
    && |s.recommendations| <= HomeLimit
    && (forall b :: b in s.recommendations ==> !b.isInLibrary)
    && s.readingGoal.target > 0 && s.readingGoal.current >= 0
  }

  lemma InitialConsistent(books: seq<Book>, now: int)
    requires AllLoansDated(books)
    ensures Consistent(Initial(books, now))
  {
    var recommendations := HomeRecommendations(books);
    HomeRecommendationsFit(books);
    var stats := UpdateUserStats(InitialStats, books).(readingStreak := 0);
    DerivedStatsInStep(books, stats);
    StartStateConsistent(books, recommendations, stats);
    assert Initial(books, now) == State(books, [], recommendations, "", DefaultGoal, stats);
  }

  /** Home recommendations always fit the invariant's bounds. */
  lemma HomeRecommendationsFit(books: seq<Book>)
    ensures |HomeRecommendations(books)| <= HomeLimit
    ensures forall b :: b in HomeRecommendations(books) ==> !b.isInLibrary
  {
  }

  /** Statistics whose derived fields were computed from `books` are in step
      with `books`, whatever their streak. */
  lemma DerivedStatsInStep(books: seq<Book>, stats: UserStats)
    requires stats.totalBooksRead == |Seqs.Positions(books, IsReadBook)|
    requires stats.pagesRead == PagesOfReadBooks(books)
    requires stats.favoriteGenre == FavoriteGenre(books)
    ensures UpdateUserStats(stats, books) == stats
  {
  }

  lemma StartStateConsistent(books: seq<Book>, recommendations: seq<Book>, stats: UserStats)
    requires AllLoansDated(books)
    requires |recommendations| <= HomeLimit && forall b :: b in recommendations ==> !b.isInLibrary
    requires UpdateUserStats(stats, books) == stats
    ensures Consistent(State(books, [], recommendations, "", DefaultGoal, stats))
  {
  }

  /** Lending edits and the sweep never touch anything the invariant
      constrains outside the catalog. */
  lemma CommitKeepsConsistent(s: State, books: seq<Book>)
    requires Consistent(s)
    requires AllLoansDated(books)
    ensures Consistent(Commit(s, books))
  {
  }

  /** Reading edits change no status and no due date. */
  lemma ReadingEditsKeepLoansDated(books: seq<Book>, book: Book, progress: real, notes: string,
                                   rating: Option<int>, now: int)
    requires AllLoansDated(books)
    ensures AllLoansDated(SetProgress(books, book, progress, now))
    ensures AllLoansDated(ToggleRead(books, book, now))
    ensures AllLoansDated(ToggleLibrary(books, book, now))
    ensures AllLoansDated(SetNotes(books, book, notes))
    ensures AllLoansDated(SetUserRating(books, book, rating))
    ensures AllLoansDated(MarkCurrentlyReading(books, book, now))
  {
    RecordEditKeepsLoansDated(books, SetProgress(books, book, progress, now), book.id);
    RecordEditKeepsLoansDated(books, ToggleRead(books, book, now), book.id);
    RecordEditKeepsLoansDated(books, ToggleLibrary(books, book, now), book.id);
    RecordEditKeepsLoansDated(books, SetNotes(books, book, notes), book.id);
    RecordEditKeepsLoansDated(books, SetUserRating(books, book, rating), book.id);
    RecordEditKeepsLoansDated(books, MarkCurrentlyReading(books, book, now), book.id);
  }

  /** An edit of the first record with `id` that keeps its status and due
      date keeps every loan dated. */
  lemma RecordEditKeepsLoansDated(books: seq<Book>, r: seq<Book>, id: string)
    requires AllLoansDated(books)
    requires !HasId(books, id) ==> r == books
    requires forall i | IsFirst(books, id, i) ::
               OnlyAt(books, r, i) && r[i].status == books[i].status && r[i].dueDate == books[i].dueDate
    ensures AllLoansDated(r)
  {
    forall i | IsFirst(books, id, i) ensures OnlyAt(books, r, i) && LoanDated(r[i]) {
      assert LoanDated(books[i]);
    }
    DatedAfterEdit(books, r, id);
  }

  /** A new catalog with dated loans, and optionally a new recommendation
      list that respects the bounds, keep the invariant. */
  lemma CommitRecommendKeepsConsistent(s: State, books: seq<Book>, recommendations: seq<Book>)
    requires Consistent(s)
    requires AllLoansDated(books)
    requires |recommendations| <= HomeLimit
    requires forall b :: b in recommendations ==> !b.isInLibrary
    ensures Consistent(Commit(s, books).(recommendations := recommendations))
  {
  }

  lemma BorrowKeepsConsistent(s: State, book: Book, now: int)
    requires Consistent(s)
    ensures Consistent(BorrowBook(s, book, now))
  {
    if HasId(s.allBooks, book.id) {
      var books := Borrow(s.allBooks, book, now);
      LendingKeepsLoansDated(s.allBooks, book, now);
      CommitRecommendKeepsConsistent(s, books, HomeRecommendations(books));
    }
  }

  lemma ReturnKeepsConsistent(s: State, book: Book)
    requires Consistent(s)
    ensures Consistent(ReturnBook(s, book))
  {
    if HasId(s.allBooks, book.id) {
      DatedAfterEdit(s.allBooks, Return(s.allBooks, book), book.id);
      CommitKeepsConsistent(s, Return(s.allBooks, book));
    }
  }

  lemma RenewKeepsConsistent(s: State, book: Book, now: int)
    requires Consistent(s)
    ensures Consistent(RenewBook(s, book, now))
  {
    if HasId(s.allBooks, book.id) && book.status == CheckedOut {
      RenewKeepsLoansDated(s.allBooks, book, now);
      CommitKeepsConsistent(s, Renew(s.allBooks, book, now));
    }
  }

  lemma ReserveKeepsConsistent(s: State, book: Book)
    requires Consistent(s)
    ensures Consistent(ReserveBook(s, book))
  {
    if HasId(s.allBooks, book.id) {
      DatedAfterEdit(s.allBooks, Reserve(s.allBooks, book), book.id);
      CommitKeepsConsistent(s, Reserve(s.allBooks, book));
    }
  }

  lemma CancelKeepsConsistent(s: State, book: Book)
    requires Consistent(s)
    ensures Consistent(CancelBookReservation(s, book))
  {
    CancelKeepsLoansDated(s.allBooks, book);
    CommitKeepsConsistent(s, CancelReservation(s.allBooks, book));
  }

  lemma SweepKeepsConsistent(s: State, now: int)
    requires Consistent(s)
    ensures Consistent(UpdateOverdue(s, now))
  {
    SweepKeepsLoansDated(s.allBooks, now);
    CommitKeepsConsistent(s, UpdateOverdueStatuses(s.allBooks, now));
  }

  /** Stamping the last reading date and counting towards the goal leave
      the invariant intact. */
  lemma StampKeepsConsistent(s: State, date: int, extra: nat)
    requires Consistent(s)
    ensures Consistent(s.(userStats := s.userStats.(lastReadingDate := Some(date)),
                          readingGoal := s.readingGoal.(current := s.readingGoal.current + extra)))
  {
  }

  lemma ProgressKeepsConsistent(s: State, progress: real, book: Book, now: int)
    requires Consistent(s)
    ensures Consistent(UpdateReadingProgress(s, progress, book, now))
  {
    if HasId(s.allBooks, book.id) {
      var books := SetProgress(s.allBooks, book, progress, now);
      RecordEditKeepsLoansDated(s.allBooks, books, book.id);
      CommitKeepsConsistent(s, books);
      StampKeepsConsistent(Commit(s, books), now, if Completes(progress) then 1 else 0);
    }
  }

  lemma ToggleReadKeepsConsistent(s: State, book: Book, now: int)
    requires Consistent(s)
    ensures Consistent(ToggleReadStatus(s, book, now))
  {
    if HasId(s.allBooks, book.id) {
      var books := ToggleRead(s.allBooks, book, now);
      RecordEditKeepsLoansDated(s.allBooks, books, book.id);
      var related := RelatedRecommendations(books, book);
      CommitRecommendKeepsConsistent(s, books, related);
      CommitKeepsConsistent(s, books);
      StampKeepsConsistent(Commit(s, books).(recommendations := related), now, 1);
    }
  }

  lemma ToggleLibraryKeepsConsistent(s: State, book: Book, now: int)
    requires Consistent(s)
    ensures Consistent(ToggleLibraryStatus(s, book, now))
  {
    if HasId(s.allBooks, book.id) {
      var books := ToggleLibrary(s.allBooks, book, now);
      RecordEditKeepsLoansDated(s.allBooks, books, book.id);
      CommitRecommendKeepsConsistent(s, books, HomeRecommendations(books));
    }
  }

  lemma NotesKeepsConsistent(s: State, notes: string, book: Book)
    requires Consistent(s)
    ensures Consistent(UpdateNotes(s, notes, book))
  {
    if HasId(s.allBooks, book.id) {
      RecordEditKeepsLoansDated(s.allBooks, SetNotes(s.allBooks, book, notes), book.id);
      CommitKeepsConsistent(s, SetNotes(s.allBooks, book, notes));
    }
  }

  lemma RatingKeepsConsistent(s: State, rating: Option<int>, book: Book)
    requires Consistent(s)
    ensures Consistent(UpdateUserRating(s, rating, book))
  {
    if HasId(s.allBooks, book.id) {
      RecordEditKeepsLoansDated(s.allBooks, SetUserRating(s.allBooks, book, rating), book.id);
      CommitKeepsConsistent(s, SetUserRating(s.allBooks, book, rating));
    }
  }

  lemma MarkReadingKeepsConsistent(s: State, book: Book, now: int)
    requires Consistent(s)
    ensures Consistent(MarkAsCurrentlyReading(s, book, now))
  {
    if HasId(s.allBooks, book.id) {
      var books := MarkCurrentlyReading(s.allBooks, book, now);
      RecordEditKeepsLoansDated(s.allBooks, books, book.id);
      CommitKeepsConsistent(s, books);
      StampKeepsConsistent(Commit(s, books), now, 0);
      assert Commit(s, books).(userStats := Commit(s, books).userStats.(lastReadingDate := Some(now)),
                               readingGoal := Commit(s, books).readingGoal.(current := Commit(s, books).readingGoal.current + 0))
          == MarkAsCurrentlyReading(s, book, now);
    }
  }

  /** Operations that leave the catalog and the statistics alone keep the
      invariant when the rest of the state still respects its bounds. */
  lemma FrameKeepsConsistent(s: State, r: State)
    requires Consistent(s)
    requires r.allBooks == s.allBooks && r.userStats == s.userStats
    requires WellFormed(r.recentlyViewed)
    requires |r.recommendations| <= HomeLimit && forall b :: b in r.recommendations ==> !b.isInLibrary
    requires r.readingGoal.target > 0 && r.readingGoal.current >= 0
    ensures Consistent(r)
  {
  }

  lemma ResetGoalKeepsConsistent(s: State)
    requires Consistent(s)
    ensures Consistent(ResetReadingGoal(s))
  {
    FrameKeepsConsistent(s, ResetReadingGoal(s));
  }

  lemma GoalTargetKeepsConsistent(s: State, target: GoalTarget)
    requires Consistent(s)
    ensures Consistent(SetGoalTarget(s, target))
  {
    FrameKeepsConsistent(s, SetGoalTarget(s, target));
  }

  lemma GoalTimeFrameKeepsConsistent(s: State, timeFrame: TimeFrame)
    requires Consistent(s)
    ensures Consistent(SetGoalTimeFrame(s, timeFrame))
  {
    FrameKeepsConsistent(s, SetGoalTimeFrame(s, timeFrame));
  }

  lemma ViewKeepsConsistent(s: State, book: Book)
    requires Consistent(s)
    ensures Consistent(ViewBook(s, book))
  {
    AddToRecentKeepsWellFormed(s.recentlyViewed, book);
    FrameKeepsConsistent(s, ViewBook(s, book));
  }

  lemma SearchKeepsConsistent(s: State, text: string)
    requires Consistent(s)
    ensures Consistent(s.(searchText := text))
  {
    FrameKeepsConsistent(s, s.(searchText := text));
  }

  /** Which operation each lending command runs. */
  lemma ApplyRunsLending(s: State, c: Command, now: int)
    requires IsLendingCommand(c)
    ensures Apply(s, c, now) == ApplyLending(s, c, now)
    ensures c.BorrowCmd? ==> ApplyLending(s, c, now) == BorrowBook(s, c.book, now)
    ensures c.ReturnCmd? ==> ApplyLending(s, c, now) == ReturnBook(s, c.book)
    ensures c.RenewCmd? ==> ApplyLending(s, c, now) == RenewBook(s, c.book, now)
    ensures c.ReserveCmd? ==> ApplyLending(s, c, now) == ReserveBook(s, c.book)
    ensures c.CancelReservationCmd? ==> ApplyLending(s, c, now) == CancelBookReservation(s, c.book)
    ensures c.SweepOverdueCmd? ==> ApplyLending(s, c, now) == UpdateOverdue(s, now)
  {
  }

  /** Which operation each reading command runs. */
  lemma ApplyRunsReading(s: State, c: Command, now: int)
    requires IsReadingCommand(c)
    ensures Apply(s, c, now) == ApplyReading(s, c, now)
    ensures c.ProgressCmd? ==> ApplyReading(s, c, now) == UpdateReadingProgress(s, c.progress, c.book, now)
    ensures c.ToggleReadCmd? ==> ApplyReading(s, c, now) == ToggleReadStatus(s, c.book, now)
    ensures c.ToggleLibraryCmd? ==> ApplyReading(s, c, now) == ToggleLibraryStatus(s, c.book, now)
    ensures c.NotesCmd? ==> ApplyReading(s, c, now) == UpdateNotes(s, c.notes, c.book)
    ensures c.RatingCmd? ==> ApplyReading(s, c, now) == UpdateUserRating(s, c.rating, c.book)
    ensures c.MarkReadingCmd? ==> ApplyReading(s, c, now) == MarkAsCurrentlyReading(s, c.book, now)
  {
  }

  /** Which operation each of the remaining commands runs. */
  lemma ApplyRunsOther(s: State, c: Command, now: int)
    requires !IsLendingCommand(c) && !IsReadingCommand(c)
    ensures Apply(s, c, now) == ApplyOther(s, c)
    ensures c.ResetGoalCmd? ==> ApplyOther(s, c) == ResetReadingGoal(s)
    ensures c.GoalTargetCmd? ==> ApplyOther(s, c) == SetGoalTarget(s, c.target)
    ensures c.GoalTimeFrameCmd? ==> ApplyOther(s, c) == SetGoalTimeFrame(s, c.timeFrame)
    ensures c.ViewCmd? ==> ApplyOther(s, c) == ViewBook(s, c.book)
    ensures c.SearchCmd? ==> ApplyOther(s, c) == s.(searchText := c.text)
  {
  }

  lemma LendingStepKeepsConsistent(s: State, c: Command, now: int)
    requires Consistent(s) && IsLendingCommand(c)
    ensures Consistent(Apply(s, c, now))
  {
    ApplyRunsLending(s, c, now);
    match c
    case BorrowCmd(b) => BorrowKeepsConsistent(s, b, now);
    case ReturnCmd(b) => ReturnKeepsConsistent(s, b);
    case RenewCmd(b) => RenewKeepsConsistent(s, b, now);
    case ReserveCmd(b) => ReserveKeepsConsistent(s, b);
    case CancelReservationCmd(b) => CancelKeepsConsistent(s, b);
    case SweepOverdueCmd => SweepKeepsConsistent(s, now);
  }

  lemma ReadingStepKeepsConsistent(s: State, c: Command, now: int)
    requires Consistent(s) && IsReadingCommand(c)
    ensures Consistent(Apply(s, c, now))
  {
    ApplyRunsReading(s, c, now);
    match c
    case ProgressCmd(p, b) => ProgressKeepsConsistent(s, p, b, now);
    case ToggleReadCmd(b) => ToggleReadKeepsConsistent(s, b, now);
    case ToggleLibraryCmd(b) => ToggleLibraryKeepsConsistent(s, b, now);
    case NotesCmd(n, b) => NotesKeepsConsistent(s, n, b);
    case RatingCmd(rt, b) => RatingKeepsConsistent(s, rt, b);
    case MarkReadingCmd(b) => MarkReadingKeepsConsistent(s, b, now);
  }

  lemma OtherStepKeepsConsistent(s: State, c: Command, now: int)
    requires Consistent(s) && !IsLendingCommand(c) && !IsReadingCommand(c)
    ensures Consistent(Apply(s, c, now))
  {
    ApplyRunsOther(s, c, now);
    match c
    case ResetGoalCmd => ResetGoalKeepsConsistent(s);
    case GoalTargetCmd(t) => GoalTargetKeepsConsistent(s, t);
    case GoalTimeFrameCmd(f) => GoalTimeFrameKeepsConsistent(s, f);
    case ViewCmd(b) => ViewKeepsConsistent(s, b);
    case SearchCmd(t) => SearchKeepsConsistent(s, t);
  }

  /** Every operation keeps the invariant. */
  lemma ApplyPreservesConsistent(s: State, c: Command, now: int)
    requires Consistent(s)
    ensures Consistent(Apply(s, c, now))
  {
    if IsLendingCommand(c) {
      LendingStepKeepsConsistent(s, c, now);
    } else if IsReadingCommand(c) {
      ReadingStepKeepsConsistent(s, c, now);
    } else {
      OtherStepKeepsConsistent(s, c, now);
    }
  }
}
