/** The records of the library core: `Book` with its lending status, and
    `ReadingGoal`, together with the properties Swift derives from them.

    Time is an integer count of seconds since 1970-01-01 00:00:00 UTC; a
    calendar day is the day number of a timestamp in that time zone. */
module DataModels {
  import opened Optional
  import opened Text

  const SecondsPerDay: int := 86400

  /** The fixed loan period set by borrowing and renewing: fourteen days. */
  const LoanPeriod: int := 14 * SecondsPerDay

  /** Foundation's `Date.distantPast` (0001-01-01 00:00:00 UTC). */
  const DistantPast: int := -62135596800

  /** Calendar day number of a timestamp (rounded towards the past). */
  function Day(t: int): int
  {
    t / SecondsPerDay
  }

  datatype BookStatus = Available | CheckedOut | Overdue | Reserved

  /** A catalog record. The first ten fields are fixed catalog data; the rest
      is the reader's own state, changed by the view-model. */
  datatype Book = Book(
    id: string,
    title: string,
    authors: seq<string>,
    publisher: Option<string>,
    publishedDate: Option<string>,
    description: Option<string>,
    pageCount: Option<int>,
    categories: seq<string>,
    averageRating: Option<real>,
    openLibraryId: Option<string>,
    isRead: bool,
    isInLibrary: bool,
    readingProgress: real,
    lastReadDate: Option<int>,
    status: BookStatus,
    dueDate: Option<int>,
    notes: string,
    userRating: Option<int>,
    dateAdded: int)

  /** A catalog record with the per-reader fields at their declared defaults
      (unread, not in the library, no progress, available, no notes). */
  function NewBook(id: string, title: string, authors: seq<string>, categories: seq<string>,
                   averageRating: Option<real>, pageCount: Option<int>, now: int): (b: Book)
    ensures b.id == id && b.categories == categories && b.averageRating == averageRating
    ensures !b.isRead && !b.isInLibrary && b.readingProgress == 0.0 && b.lastReadDate == None
    ensures b.status == Available && b.dueDate == None && b.dateAdded == now
  {
    Book(id, title, authors, None, None, None, pageCount, categories, averageRating, None,
         false, false, 0.0, None, Available, None, "", None, now)
  }

  /** The authors joined with ", ": each name at its offset, ", " between
      consecutive names, and nothing else. */
  function Author(b: Book): (r: string)
    ensures |b.authors| == 1 ==> r == b.authors[0]
    ensures |b.authors| == 0 ==> r == ""
    ensures |b.authors| > 1 ==> b.authors[0] + ", " <= r
    ensures forall i :: 0 <= i < |b.authors| ==> OccursAt(b.authors[i], r, NameOffset(b.authors, ", ", i))
    ensures forall i :: 0 <= i < |b.authors| - 1 ==> OccursAt(", ", r, SeparatorOffset(b.authors, ", ", i))
    ensures |r| == TotalLength(b.authors) + (if |b.authors| == 0 then 0 else 2 * (|b.authors| - 1))
  {
    JoinLayout(b.authors, ", ");
    Join(b.authors, ", ")
  }

  /** One more author appends ", " and the name. */
  lemma AuthorAddsName(b: Book, name: string)
    requires |b.authors| > 0
    ensures Author(b.(authors := b.authors + [name])) == Author(b) + ", " + name
  {
    JoinSnoc(b.authors, name, ", ");
  }

  /** The primary category, "Unknown" when there is none. */
  function Genre(b: Book): (r: string)
    ensures |b.categories| > 0 ==> r == b.categories[0]
    ensures |b.categories| == 0 ==> r == "Unknown"
  {
    if |b.categories| > 0 then b.categories[0] else "Unknown"
  }

  /** The average rating, 0 when absent. */
  function Rating(b: Book): (r: real)
    ensures b.averageRating.Some? ==> r == b.averageRating.value
    ensures b.averageRating.None? ==> r == 0.0
  {
    b.averageRating.GetOr(0.0)
  }

  /** Swift's `Int(x)` on a `Double`: truncation towards zero. */
  function TruncateToInt(x: real): (r: int)
    ensures x >= 0.0 ==> r as real <= x < r as real + 1.0
    ensures x < 0.0 ==> r as real - 1.0 < x <= r as real
  {
    if x >= 0.0 then x.Floor else -((-x).Floor)
  }

  /** The reader's rating halved, or else the average rating rounded towards
      zero to a multiple of one half. */
  function UserRatingOrAverage(b: Book): (r: real)
    ensures b.userRating.Some? ==> r == b.userRating.value as real / 2.0
    ensures b.userRating.None? ==> ((2.0 * r).Floor as real == 2.0 * r)
    ensures b.userRating.None? && Rating(b) >= 0.0 ==> r <= Rating(b) < r + 0.5
    ensures b.userRating.None? && Rating(b) < 0.0 ==> r - 0.5 < Rating(b) <= r
  {
    (b.userRating.GetOr(TruncateToInt(Rating(b) * 2.0))) as real / 2.0
  }

  /** The first four characters of the publication date read as a year and
      written in canonical decimal form ("0042" shows as "42"), "Unknown"
      without a date, and the raw date when those characters are not an
      integer. */
  function FormattedPublishedDate(b: Book): (r: string)
    ensures b.publishedDate.None? ==> r == "Unknown"
    ensures b.publishedDate.Some? && ParseInt(YearPrefix(b.publishedDate.value)).None? ==>
              r == b.publishedDate.value
    ensures b.publishedDate.Some? && ParseInt(YearPrefix(b.publishedDate.value)).Some? ==>
              CanonicalInt(r) && ParseInt(r) == ParseInt(YearPrefix(b.publishedDate.value))
  {
    match b.publishedDate
    case None => "Unknown"
    case Some(date) =>
      match ParseInt(YearPrefix(date))
      case Some(year) => ParseRendersBack(year); IntToString(year)
      case None => date
  }

  /** Swift's `prefix(4)`: at most the first four characters. */
  function YearPrefix(s: string): (r: string)
    ensures r <= s && |r| == Min4(|s|)
  {
    s[..Min4(|s|)]
  }

  function Min4(n: nat): nat
  {
    if n < 4 then n else 4
  }

  /** Whole days from `now` until the due date, truncated towards zero, or
      `None` when the book has no due date. */
  function DaysUntilDue(b: Book, now: int): (r: Option<int>)
    ensures r.None? <==> b.dueDate.None?
    ensures r.Some? && b.dueDate.value >= now ==>
              r.value >= 0 &&
              r.value * SecondsPerDay <= b.dueDate.value - now < (r.value + 1) * SecondsPerDay
    ensures r.Some? && b.dueDate.value < now ==>
              r.value <= 0 &&
              -r.value * SecondsPerDay <= now - b.dueDate.value < (-r.value + 1) * SecondsPerDay
  {
    match b.dueDate
    case None => None
    case Some(due) =>
      Some(if due >= now then (due - now) / SecondsPerDay else -((now - due) / SecondsPerDay))
  }

  /* ------------------------------------------------------------ reading goal */

  datatype TimeFrame = Weekly | Monthly | Yearly

  datatype ReadingGoal = ReadingGoal(target: int, current: int, timeFrame: TimeFrame)

  /** The targets the settings screen's stepper can produce. */
  type GoalTarget = t: int | 1 <= t <= 100 witness 1

  /** The goal every view-model starts with: ten books a month. */
  const DefaultGoal: ReadingGoal := ReadingGoal(10, 0, Monthly)

  /** The fraction of the goal reached. Swift divides without a guard, so a
      zero target is outside what the model defines. */
  function GoalProgress(g: ReadingGoal): (r: real)
    requires g.target != 0
    ensures r * (g.target as real) == g.current as real
    ensures 0 <= g.current <= g.target ==> 0.0 <= r <= 1.0
    ensures g.current == g.target ==> r == 1.0
  {
    var t := g.target as real;
    var r := (g.current as real) / t;
    assert r * t == g.current as real;
    assert g.current == g.target ==> r == 1.0 by {
      if g.current == g.target {
        MulCancel(r, 1.0, t);
      }
    }
    r
  }

  /** Cancelling a non-zero factor on both sides of an equation. */
  lemma MulCancel(x: real, y: real, t: real)
    requires t != 0.0 && x * t == y * t
    ensures x == y
  {
    assert (x - y) * t == 0.0;
  }
}
