/** The view-model's read-only views of the catalog: the reading lists, the
    lending lists, the genre list, the text search and the search screen's
    scope filter. */
module Queries {
  import opened Optional
  import opened Text
  import opened Seqs
  import opened Sorting
  import opened DataModels
  import opened Catalog
  import opened Reading

  /* --------------------------------------------------------- reading lists */

  /** Started but not finished: progress strictly between 0 and 1. */
  predicate InProgress(b: Book)
  {
    0.0 < b.readingProgress < 1.0
  }

  /** Sort key of the "currently reading" list: the last reading time, a
      record never read counting as the distant past. */
  function RecencyKey(b: Book): real
  {
    b.lastReadDate.GetOr(DistantPast) as real
  }

  /** Exactly the records in progress (each as often as in the catalog),
      most recently read first. */
  function CurrentlyReading(books: seq<Book>): (r: seq<Book>)
    ensures forall b :: b in r <==> b in books && InProgress(b)
    ensures forall b :: multiset(r)[b] == if InProgress(b) then multiset(books)[b] else 0
    ensures SortedDesc(r, RecencyKey)
  {
    SortDesc(Filter(books, InProgress), RecencyKey)
  }

  /** In the library and not started. */
  predicate Unstarted(b: Book)
  {
    b.isInLibrary && b.readingProgress == 0.0
  }

  function WantToRead(books: seq<Book>): (r: seq<Book>)
    ensures forall b :: b in r <==> b in books && b.isInLibrary && b.readingProgress == 0.0
    ensures forall b :: multiset(r)[b] == if b.isInLibrary && b.readingProgress == 0.0 then multiset(books)[b] else 0
    ensures IsSubsequence(r, books)
  {
    Filter(books, Unstarted)
  }

  predicate Finished(b: Book)
  {
    b.isRead
  }

  function FinishedBooks(books: seq<Book>): (r: seq<Book>)
    ensures forall b :: b in r <==> b in books && b.isRead
    ensures forall b :: multiset(r)[b] == if b.isRead then multiset(books)[b] else 0
    ensures IsSubsequence(r, books)
  {
    Filter(books, Finished)
  }

  /* --------------------------------------------------------- lending lists */

  /** On loan: checked out or overdue. */
  predicate IsOnLoan(b: Book)
  {
    b.status == CheckedOut || b.status == Overdue
  }

  predicate IsOverdue(b: Book)
  {
    b.status == Overdue
  }

  function CheckedOutBooks(books: seq<Book>): (r: seq<Book>)
    ensures forall b :: b in r <==> b in books && (b.status == CheckedOut || b.status == Overdue)
    ensures forall b :: multiset(r)[b] == if b.status == CheckedOut || b.status == Overdue then multiset(books)[b] else 0
    ensures IsSubsequence(r, books)
  {
    Filter(books, IsOnLoan)
  }

  function OverdueBooks(books: seq<Book>): (r: seq<Book>)
    ensures forall b :: b in r <==> b in books && b.status == Overdue
    ensures forall b :: multiset(r)[b] == if b.status == Overdue then multiset(books)[b] else 0
    ensures IsSubsequence(r, books)
  {
    Filter(books, IsOverdue)
  }

  /** The overdue list is the checked-out list with its overdue records
      picked out, so it is always an ordered part of it. */
  lemma OverdueWithinCheckedOut(books: seq<Book>)
    ensures OverdueBooks(books) == Filter(CheckedOutBooks(books), IsOverdue)
    ensures IsSubsequence(OverdueBooks(books), CheckedOutBooks(books))
  {
    FilterTwice(books, IsOnLoan, IsOverdue, IsOverdue);
  }

  /* ----------------------------------------------------------------- genres */

  /** Swift's `flatMap { $0.categories }`: every category of every record. */
  function AllCategories(books: seq<Book>): (r: seq<string>)
    ensures forall g :: g in r <==> exists i :: 0 <= i < |books| && g in books[i].categories
    decreases |books|
  {
    if |books| == 0 then []
    else
      var init := books[..|books| - 1];
      var r := AllCategories(init) + books[|books| - 1].categories;
      assert forall i :: 0 <= i < |init| ==> init[i] == books[i];
      r
  }

  const AllGenres: string := "All"

  /** The genre picker's entries: "All", then every category of the catalog
      once, in ascending order. */
  function Genres(books: seq<Book>): (r: seq<string>)
    ensures |r| > 0 && r[0] == AllGenres
    ensures StrictlyAscending(r[1..])
    ensures forall g :: g in r[1..] <==> exists i :: 0 <= i < |books| && g in books[i].categories
  {
    var sorted := SortedDistinct(AllCategories(books));
    assert ([AllGenres] + sorted)[1..] == sorted;
    [AllGenres] + sorted
  }

  /* ------------------------------------------------------------- text search */

  /** Title, author line or publisher contains the query, ignoring case. */
  predicate MatchesQuery(b: Book, query: string, fold: char -> char)
  {
    || ContainsIgnoringCase(b.title, query, fold)
    || ContainsIgnoringCase(Author(b), query, fold)
    || (b.publisher.Some? && ContainsIgnoringCase(b.publisher.value, query, fold))
  }

  /** The search results: the whole catalog for an empty query, otherwise the
      records matching it, each as often as in the catalog, in catalog order. */
  function FilteredBooks(books: seq<Book>, query: string, fold: char -> char): (r: seq<Book>)
    ensures |query| == 0 ==> r == books
    ensures |query| > 0 ==> forall b :: b in r <==> b in books && MatchesQuery(b, query, fold)
    ensures |query| > 0 ==>
              forall b :: multiset(r)[b] == if MatchesQuery(b, query, fold) then multiset(books)[b] else 0
    ensures IsSubsequence(r, books)
  {
    if |query| == 0 then
      SubsequenceReflexive(books);
      books
    else Filter(books, b => MatchesQuery(b, query, fold))
  }

  /** A record matching a query matches each of the query's prefixes. */
  lemma MatchesPrefix(b: Book, shorter: string, query: string, fold: char -> char)
    requires shorter <= query
    requires MatchesQuery(b, query, fold)
    ensures MatchesQuery(b, shorter, fold)
  {
    FoldPrefix(shorter, query, fold);
    if ContainsIgnoringCase(b.title, query, fold) {
      SubstringOfPrefix(Fold(shorter, fold), Fold(query, fold), Fold(b.title, fold));
    } else if ContainsIgnoringCase(Author(b), query, fold) {
      SubstringOfPrefix(Fold(shorter, fold), Fold(query, fold), Fold(Author(b), fold));
    } else {
      SubstringOfPrefix(Fold(shorter, fold), Fold(query, fold), Fold(b.publisher.value, fold));
    }
  }

  /** Typing more of a query narrows the results: the results for a longer
      query are an ordered part of the results for any of its prefixes. */
  lemma TypingNarrowsResults(books: seq<Book>, shorter: string, query: string, fold: char -> char)
    requires shorter <= query
    ensures IsSubsequence(FilteredBooks(books, query, fold), FilteredBooks(books, shorter, fold))
  {
    if |shorter| == 0 {
      if |query| == 0 {
        SubsequenceReflexive(books);
      }
    } else {
      forall b | MatchesQuery(b, query, fold) ensures MatchesQuery(b, shorter, fold) {
        MatchesPrefix(b, shorter, query, fold);
      }
      FilterStronger(books, b => MatchesQuery(b, shorter, fold), b => MatchesQuery(b, query, fold));
    }
  }

  /* -------------------------------------------------------- search screen */

  datatype SearchScope = ScopeAll | ScopeAvailable | ScopeCheckedOut

  predicate IsAvailable(b: Book)
  {
    b.status == Available
  }

  /** The search screen's scope applied to the search results. */
  function ScopedResults(results: seq<Book>, scope: SearchScope): (r: seq<Book>)
    ensures scope == ScopeAll ==> r == results
    ensures scope == ScopeAvailable ==> forall b :: b in r <==> b in results && b.status == Available
    ensures scope == ScopeAvailable ==>
              forall b :: multiset(r)[b] == if b.status == Available then multiset(results)[b] else 0
    ensures scope == ScopeCheckedOut ==>
              forall b :: b in r <==> b in results && (b.status == CheckedOut || b.status == Overdue)
    ensures scope == ScopeCheckedOut ==>
              forall b :: multiset(r)[b] == if b.status == CheckedOut || b.status == Overdue then multiset(results)[b] else 0
    ensures IsSubsequence(r, results)
  {
    match scope
    case ScopeAll =>
      SubsequenceReflexive(results);
      results
    case ScopeAvailable => Filter(results, IsAvailable)
    case ScopeCheckedOut => Filter(results, IsOnLoan)
  }

  /** With no query typed, the "checked out" scope shows the view-model's
      checked-out list. */
  lemma CheckedOutScopeIsCheckedOutList(books: seq<Book>, fold: char -> char)
    ensures ScopedResults(FilteredBooks(books, "", fold), ScopeCheckedOut) == CheckedOutBooks(books)
  {
  }

  /* ------------------------------------------ reading edits and the lists */

  /** Whether an edited record is then in the "currently reading" list is
      decided by the progress value alone. */
  lemma ProgressDecidesCurrentlyReading(books: seq<Book>, book: Book, progress: real, now: int, i: nat)
    requires IsFirst(books, book.id, i)
    ensures var r := SetProgress(books, book, progress, now);
            r[i] in CurrentlyReading(r) <==> 0.0 < progress < 1.0
  {
  }

  /** Marking a record as currently reading puts it in that list. */
  lemma MarkedIsCurrentlyReading(books: seq<Book>, book: Book, now: int, i: nat)
    requires IsFirst(books, book.id, i)
    ensures var r := MarkCurrentlyReading(books, book, now);
            r[i] in CurrentlyReading(r) && r[i].lastReadDate == Some(now)
  {
  }
}
