/** The rule-based recommendation engine: filter, sort by rating with the
    highest first, keep a prefix. */
module Recommend {
  import opened Optional
  import opened Seqs
  import opened Sorting
  import opened DataModels

  const HomeLimit: nat := 5
  const RelatedLimit: nat := 3
  const HomeMinRating: real := 4.0

  /** Not yet in the reader's library and rated at least 4. */
  predicate HomeCandidate(b: Book)
  {
    !b.isInLibrary && Rating(b) >= HomeMinRating
  }

  /** Home recommendations: the (at most five) best-rated candidates, best
      first, none more often than in the catalog. Fewer than five are returned only when every candidate is in the
      list, and no candidate left out is rated above one that is in it. */
  function HomeRecommendations(books: seq<Book>): (r: seq<Book>)
    ensures forall b :: b in r ==> b in books && HomeCandidate(b)
    ensures multiset(r) <= multiset(Filter(books, HomeCandidate))
    ensures SortedDesc(r, Rating)
    ensures |r| == Min(HomeLimit, |Filter(books, HomeCandidate)|)
    ensures |r| < HomeLimit ==> forall b :: b in books && HomeCandidate(b) ==> b in r
    ensures forall b, x | b in books && x in r :: HomeCandidate(b) && b !in r ==> Rating(b) <= Rating(x)
  {
    var candidates := Filter(books, HomeCandidate);
    var r := TopK(candidates, Rating, HomeLimit);
    CandidatesCovered(candidates, r, HomeLimit, Rating);
    r
  }

  /** What `TopK` promises about the multiset, restated for membership. */
  lemma CandidatesCovered(candidates: seq<Book>, r: seq<Book>, k: nat, key: Book -> real)
    requires r == TopK(candidates, key, k)
    ensures |r| < k ==> forall b :: b in candidates ==> b in r
    ensures forall b, x :: b in candidates && b !in r && x in r ==> key(b) <= key(x)
  {
    forall b | b in candidates && b !in r
      ensures b in multiset(candidates) - multiset(r)
    {
      assert b in multiset(candidates);
      assert b !in multiset(r);
    }
    if |r| < k {
      forall b | b in candidates ensures b in r {
        assert multiset(r) == multiset(candidates);
        assert b in multiset(candidates);
      }
    }
  }

  /** Candidate for recommendations related to `focal`: another id, sharing
      the focal book's primary category, and not in the library. */
  predicate RelatedCandidate(focal: Book, b: Book)
  {
    b.id != focal.id && Genre(focal) in b.categories && !b.isInLibrary
  }

  /** Recommendations for a focal book: the (at most three) best-rated
      related candidates, best first, none more often than in the catalog. */
  function RelatedRecommendations(books: seq<Book>, focal: Book): (r: seq<Book>)
    ensures forall b :: b in r ==>
              b in books && b.id != focal.id && Genre(focal) in b.categories && !b.isInLibrary
    ensures multiset(r) <= multiset(Filter(books, b => RelatedCandidate(focal, b)))
    ensures SortedDesc(r, Rating)
    ensures |r| == Min(RelatedLimit, |Filter(books, b => RelatedCandidate(focal, b))|)
    ensures |r| < RelatedLimit ==> forall b :: b in books && RelatedCandidate(focal, b) ==> b in r
    ensures forall b, x | b in books && x in r ::
              RelatedCandidate(focal, b) && b !in r ==> Rating(b) <= Rating(x)
  {
    var candidates := Filter(books, b => RelatedCandidate(focal, b));
    var r := TopK(candidates, Rating, RelatedLimit);
    CandidatesCovered(candidates, r, RelatedLimit, Rating);
    r
  }

  /** Two books filed first under the same category are related, whatever
      else either lists, as long as the other one has another id and is not
      in the library. */
  lemma SameFirstCategoryIsRelated(focal: Book, b: Book)
    requires |focal.categories| > 0 && |b.categories| > 0
    requires b.categories[0] == focal.categories[0]
    requires b.id != focal.id && !b.isInLibrary
    ensures RelatedCandidate(focal, b)
  {
  }

  /** A book with no category only relates to books listing "Unknown". */
  lemma UncategorisedRelatesToUnknown(focal: Book, b: Book)
    requires |focal.categories| == 0
    ensures RelatedCandidate(focal, b) <==> b.id != focal.id && "Unknown" in b.categories && !b.isInLibrary
  {
  }

  /* ---------------------------------------- variant on the raw average */

  /** The variant's `averageRating ?? 0`. */
  function AverageOrZero(b: Book): real
  {
    b.averageRating.GetOr(0.0)
  }

  predicate NotInLibrary(b: Book)
  {
    !b.isInLibrary
  }

  predicate HighlyRated(b: Book)
  {
    AverageOrZero(b) >= HomeMinRating
  }

  /** The second copy of the view-model's home recommendations, written as
      two filters and a sort on the raw average. */
  function HomeRecommendationsByAverage(books: seq<Book>): (r: seq<Book>)
    ensures |r| <= HomeLimit
    ensures SortedDesc(r, AverageOrZero)
  {
    TopK(Filter(Filter(books, NotInLibrary), HighlyRated), AverageOrZero, HomeLimit)
  }

  /** Both copies select exactly the same books in the same order. */
  lemma HomeVariantsAgree(books: seq<Book>)
    ensures HomeRecommendationsByAverage(books) == HomeRecommendations(books)
  {
    FilterTwice(books, NotInLibrary, HighlyRated, HomeCandidate);
    TopKSameKey(Filter(books, HomeCandidate), AverageOrZero, Rating, HomeLimit);
  }
}
