/** Reading statistics: the catalog-derived totals the view-model recomputes
    whenever the catalog changes, the day-based reading streak, and the
    incremental `UserStats` updates of the stats card. */
module Stats {
  import opened Optional
  import opened Seqs
  import opened DataModels

  datatype UserStats = UserStats(
    totalBooksRead: int,
    pagesRead: int,
    favoriteGenre: string,
    readingStreak: int,
    lastReadingDate: Option<int>)

  /** The declared defaults. */
  const InitialStats: UserStats := UserStats(0, 0, "", 0, None)

  /** Sentinel genre when nothing has been read. */
  const NoGenre: string := "None"

  predicate IsReadBook(b: Book)
  {
    b.isRead
  }

  function ReadBooks(books: seq<Book>): seq<Book>
  {
    Filter(books, IsReadBook)
  }

  /** Swift's `compactMap { $0.pageCount }`: the present page counts. */
  function PresentPageCounts(books: seq<Book>): seq<int>
    decreases |books|
  {
    if |books| == 0 then []
    else
      PresentPageCounts(books[..|books| - 1]) +
      (match books[|books| - 1].pageCount case Some(n) => [n] case None => [])
  }

  function Sum(xs: seq<int>): int
    decreases |xs|
  {
    if |xs| == 0 then 0 else Sum(xs[..|xs| - 1]) + xs[|xs| - 1]
  }

  /** Pages of the read records, a missing page count counting as 0. */
  function PagesOfReadBooks(books: seq<Book>): int
    decreases |books|
  {
    if |books| == 0 then 0
    else
      var b := books[|books| - 1];
      PagesOfReadBooks(books[..|books| - 1]) + (if b.isRead then b.pageCount.GetOr(0) else 0)
  }

  lemma {:induction false} SumAppend(xs: seq<int>, ys: seq<int>)
    ensures Sum(xs + ys) == Sum(xs) + Sum(ys)
    decreases |ys|
  {
    if |ys| == 0 {
      assert xs + ys == xs;
    } else {
      var zs := xs + ys;
      assert zs[..|zs| - 1] == xs + ys[..|ys| - 1];
      assert zs[|zs| - 1] == ys[|ys| - 1];
      SumAppend(xs, ys[..|ys| - 1]);
    }
  }

  lemma PresentPageCountsSnoc(books: seq<Book>, b: Book)
    ensures PresentPageCounts(books + [b]) ==
            PresentPageCounts(books) + (match b.pageCount case Some(n) => [n] case None => [])
  {
    assert (books + [b])[..|books|] == books;
  }

  lemma SumOfPageCount(b: Book)
    ensures Sum(match b.pageCount case Some(n) => [n] case None => []) == b.pageCount.GetOr(0)
  {
    if b.pageCount.Some? {
      assert [b.pageCount.value][..0] == [];
    }
  }

  /** Dropping the missing page counts and summing the rest is the same as
      summing with a missing count taken as 0. */
  lemma {:induction false} CompactSumIsDefaultSum(books: seq<Book>)
    ensures Sum(PresentPageCounts(ReadBooks(books))) == PagesOfReadBooks(books)
    decreases |books|
  {
    if |books| > 0 {
      var init := books[..|books| - 1];
      assert books == init + [books[|books| - 1]];
      CompactSumIsDefaultSum(init);
      CompactSumStep(init, books[|books| - 1]);
    }
  }

  lemma CompactSumStep(init: seq<Book>, last: Book)
    requires Sum(PresentPageCounts(ReadBooks(init))) == PagesOfReadBooks(init)
    ensures Sum(PresentPageCounts(ReadBooks(init + [last]))) == PagesOfReadBooks(init + [last])
  {
    PagesSnoc(init, last);
    FilterSnoc(init, last, IsReadBook);
    if last.isRead {
      PresentSumSnoc(ReadBooks(init), last);
    }
  }

  lemma PagesSnoc(init: seq<Book>, last: Book)
    ensures PagesOfReadBooks(init + [last]) ==
            PagesOfReadBooks(init) + (if last.isRead then last.pageCount.GetOr(0) else 0)
  {
    var books := init + [last];
    assert books[..|books| - 1] == init;
  }

  lemma PresentSumSnoc(kept: seq<Book>, last: Book)
    ensures Sum(PresentPageCounts(kept + [last])) == Sum(PresentPageCounts(kept)) + last.pageCount.GetOr(0)
  {
    PresentPageCountsSnoc(kept, last);
    SumAppend(PresentPageCounts(kept), match last.pageCount case Some(n) => [n] case None => []);
    SumOfPageCount(last);
  }

  /** Number of read records whose primary category is `g`. */
  function GenreTally(books: seq<Book>, g: string): nat
    decreases |books|
  {
    if |books| == 0 then 0
    else
      var b := books[|books| - 1];
      GenreTally(books[..|books| - 1], g) + (if b.isRead && Genre(b) == g then 1 else 0)
  }

  /** A primary category of greatest tally among the read records of
      `books[..n]`, or `None` when none of them is read. */
  function PickFavourite(books: seq<Book>, n: nat): (r: Option<string>)
    requires n <= |books|
    ensures r.None? <==> forall j :: 0 <= j < n ==> !books[j].isRead
    ensures r.Some? ==> exists j :: 0 <= j < n && books[j].isRead && Genre(books[j]) == r.value
    ensures r.Some? ==> forall j :: 0 <= j < n && books[j].isRead ==>
                          GenreTally(books, Genre(books[j])) <= GenreTally(books, r.value)
    decreases n
  {
    if n == 0 then None
    else
      var previous := PickFavourite(books, n - 1);
      var b := books[n - 1];
      if !b.isRead then previous
      else if previous.None? || GenreTally(books, Genre(b)) > GenreTally(books, previous.value) then
        Some(Genre(b))
      else previous
  }

  /** The primary category read most often, "None" when nothing is read.
      The source groups through an unordered dictionary, so which of several
      equally frequent categories wins is not specified. */
  function FavoriteGenre(books: seq<Book>): (r: string)
    ensures (forall j :: 0 <= j < |books| ==> !books[j].isRead) ==> r == NoGenre
    ensures (exists j :: 0 <= j < |books| && books[j].isRead) ==>
              && (exists j :: 0 <= j < |books| && books[j].isRead && Genre(books[j]) == r)
              && forall j :: 0 <= j < |books| && books[j].isRead ==>
                   GenreTally(books, Genre(books[j])) <= GenreTally(books, r)
  {
    PickFavourite(books, |books|).GetOr(NoGenre)
  }

  /** Recomputes the totals from the catalog; the streak and the last
      reading date are not derived and stay as they were. */
  function UpdateUserStats(stats: UserStats, books: seq<Book>): (r: UserStats)
    ensures r.totalBooksRead == |Positions(books, IsReadBook)|
    ensures r.pagesRead == PagesOfReadBooks(books)
    ensures r.favoriteGenre == FavoriteGenre(books)
    ensures r.readingStreak == stats.readingStreak && r.lastReadingDate == stats.lastReadingDate
  {
    FilterCountsPositions(books, IsReadBook);
    CompactSumIsDefaultSum(books);
    var read := ReadBooks(books);
    stats.(totalBooksRead := |read|,
           pagesRead := Sum(PresentPageCounts(read)),
           favoriteGenre := FavoriteGenre(books))
  }

  /** Recomputing from the same catalog changes nothing. */
  lemma UpdateUserStatsIdempotent(stats: UserStats, books: seq<Book>)
    ensures UpdateUserStats(UpdateUserStats(stats, books), books) == UpdateUserStats(stats, books)
  {
  }

  /* ---------------------------------------------------------------- streak */

  /** The streak check run when the view-model starts. Without a last
      reading date the streak is 0; a date today changes nothing; a date
      yesterday extends the streak by one, any older date resets it, and in
      those two cases the last reading date becomes now. */
  function CheckReadingStreak(stats: UserStats, now: int): (r: UserStats)
    ensures stats.lastReadingDate.None? ==> r == stats.(readingStreak := 0)
    ensures stats.lastReadingDate.Some? && Day(stats.lastReadingDate.value) == Day(now) ==> r == stats
    ensures stats.lastReadingDate.Some? && Day(stats.lastReadingDate.value) != Day(now) ==>
              && r.lastReadingDate == Some(now)
              && r.readingStreak == (if Day(stats.lastReadingDate.value) == Day(now) - 1
                                     then stats.readingStreak + 1 else 0)
              && r.(readingStreak := stats.readingStreak, lastReadingDate := stats.lastReadingDate) == stats
  {
    match stats.lastReadingDate
    case None => stats.(readingStreak := 0)
    case Some(last) =>
      if Day(last) == Day(now) then stats
      else if Day(last) == Day(now) - 1 then
        stats.(readingStreak := stats.readingStreak + 1, lastReadingDate := Some(now))
      else
        stats.(readingStreak := 0, lastReadingDate := Some(now))
  }

  /** A second check on the same instant changes nothing. */
  lemma CheckReadingStreakIdempotent(stats: UserStats, now: int)
    ensures CheckReadingStreak(CheckReadingStreak(stats, now), now) == CheckReadingStreak(stats, now)
  {
  }

  /* ------------------------------------------------- stats card operations */

  /** The stats card's update for one book: a read book adds one to the
      count, its page count (0 when absent) to the pages and stamps the
      reading date; any book with a category sets the favourite genre to its
      first category, read or not. The streak is untouched. */
  function UpdateStats(stats: UserStats, book: Book, now: int): (r: UserStats)
    ensures book.isRead ==>
              && r.totalBooksRead == stats.totalBooksRead + 1
              && r.pagesRead == stats.pagesRead + book.pageCount.GetOr(0)
              && r.lastReadingDate == Some(now)
    ensures !book.isRead ==>
              && r.totalBooksRead == stats.totalBooksRead
              && r.pagesRead == stats.pagesRead
              && r.lastReadingDate == stats.lastReadingDate
    ensures r.favoriteGenre == (if |book.categories| > 0 then book.categories[0] else stats.favoriteGenre)
    ensures r.readingStreak == stats.readingStreak
  {
    var counted :=
      if book.isRead then
        stats.(totalBooksRead := stats.totalBooksRead + 1,
               pagesRead := stats.pagesRead + book.pageCount.GetOr(0),
               lastReadingDate := Some(now))
      else stats;
    if |book.categories| > 0 then counted.(favoriteGenre := book.categories[0]) else counted
  }

  function ResetStreak(stats: UserStats): (r: UserStats)
    ensures r.readingStreak == 0
    ensures r.(readingStreak := stats.readingStreak) == stats
  {
    stats.(readingStreak := 0)
  }

  function IncrementStreak(stats: UserStats): (r: UserStats)
    ensures r.readingStreak == stats.readingStreak + 1
    ensures r.(readingStreak := stats.readingStreak) == stats
  {
    stats.(readingStreak := stats.readingStreak + 1)
  }

  /** The stats card's update applied to each record of `books` in turn. */
  function UpdateStatsAll(stats: UserStats, books: seq<Book>, now: int): UserStats
    decreases |books|
  {
    if |books| == 0 then stats
    else UpdateStats(UpdateStatsAll(stats, books[..|books| - 1], now), books[|books| - 1], now)
  }

  /** Feeding the whole catalog through the card's update counts the same
      read books and pages as the view-model's derivation from the catalog,
      and keeps the streak. */
  lemma {:induction false} CardTotalsMatchDerivedTotals(stats: UserStats, books: seq<Book>, now: int)
    ensures var r := UpdateStatsAll(stats, books, now);
            && r.totalBooksRead == stats.totalBooksRead + |Positions(books, IsReadBook)|
            && r.pagesRead == stats.pagesRead + PagesOfReadBooks(books)
            && r.readingStreak == stats.readingStreak
    decreases |books|
  {
    if |books| > 0 {
      var init := books[..|books| - 1];
      CardTotalsMatchDerivedTotals(stats, init, now);
      PositionsSnoc(books, IsReadBook);
      assert |books| - 1 !in Positions(init, IsReadBook);
    }
  }

  /** Starting from the declared defaults, the card's totals over a catalog
      are the view-model's derived totals. */
  lemma CardFromDefaultsMatchesUpdateUserStats(books: seq<Book>, now: int)
    ensures UpdateStatsAll(InitialStats, books, now).totalBooksRead ==
            UpdateUserStats(InitialStats, books).totalBooksRead
    ensures UpdateStatsAll(InitialStats, books, now).pagesRead ==
            UpdateUserStats(InitialStats, books).pagesRead
  {
    CardTotalsMatchDerivedTotals(InitialStats, books, now);
  }

  /** The card's favourite genre is the primary genre of the last record
      that has a category, not the most frequent one. */
  lemma {:induction false} CardFavouriteIsLastGenre(stats: UserStats, books: seq<Book>, now: int, i: nat)
    requires i < |books| && |books[i].categories| > 0
    requires forall j :: i < j < |books| ==> |books[j].categories| == 0
    ensures UpdateStatsAll(stats, books, now).favoriteGenre == Genre(books[i])
    decreases |books|
  {
    var init := books[..|books| - 1];
    if i < |books| - 1 {
      CardFavouriteIsLastGenre(stats, init, now, i);
    }
  }

  /** The start-up streak check is built from the card's two streak steps:
      with no last date it is a reset; with a last date on another day it is
      an increment (yesterday) or a reset (older), stamped with now. */
  lemma StreakCheckUsesCardSteps(stats: UserStats, now: int)
    ensures stats.lastReadingDate.None? ==> CheckReadingStreak(stats, now) == ResetStreak(stats)
    ensures stats.lastReadingDate.Some? && Day(stats.lastReadingDate.value) == Day(now) - 1 ==>
              CheckReadingStreak(stats, now) == IncrementStreak(stats).(lastReadingDate := Some(now))
    ensures stats.lastReadingDate.Some? && Day(stats.lastReadingDate.value) < Day(now) - 1 ==>
              CheckReadingStreak(stats, now) == ResetStreak(stats).(lastReadingDate := Some(now))
  {
  }

  /** A reset wipes out any increments before it. */
  lemma ResetAfterIncrement(stats: UserStats)
    ensures ResetStreak(IncrementStreak(stats)) == ResetStreak(stats)
  {
  }
}
