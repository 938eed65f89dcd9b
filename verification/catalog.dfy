/** Locating a record in the catalog. Every view-model mutator starts with
    Swift's `allBooks.firstIndex(where: { $0.id == book.id })` and, when that
    finds nothing, does nothing at all. */
module Catalog {
  import opened Optional
  import opened DataModels

  /** Some record of `books` carries `id`. */
  predicate HasId(books: seq<Book>, id: string)
  {
    exists i :: 0 <= i < |books| && books[i].id == id
  }

  /** `i` is the position of the first record carrying `id`. */
  predicate IsFirst(books: seq<Book>, id: string, i: int)
  {
    0 <= i < |books| && books[i].id == id &&
    forall j :: 0 <= j < i ==> books[j].id != id
  }

  /** `r` equals `books` except possibly at position `i`. */
  ghost predicate OnlyAt(books: seq<Book>, r: seq<Book>, i: int)
  {
    |r| == |books| && forall j :: 0 <= j < |books| && j != i ==> r[j] == books[j]
  }

  /** Searches positions `from` onwards; nothing before `from` carries `id`. */
  function FindFrom(books: seq<Book>, id: string, from: nat): (r: Option<nat>)
    requires from <= |books|
    requires forall j :: 0 <= j < from ==> books[j].id != id
    ensures r.None? <==> !HasId(books, id)
    ensures r.Some? ==> IsFirst(books, id, r.value)
    decreases |books| - from
  {
    if from == |books| then None
    else if books[from].id == id then Some(from)
    else FindFrom(books, id, from + 1)
  }

  /** Swift's `firstIndex(where:)` on the record id. */
  function FindFirst(books: seq<Book>, id: string): (r: Option<nat>)
    ensures r.None? <==> !HasId(books, id)
    ensures r.Some? ==> IsFirst(books, id, r.value)
    ensures forall i | IsFirst(books, id, i) :: r == Some(i)
  {
    FindFrom(books, id, 0)
  }
}
