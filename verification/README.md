# ShelfAI library state manager, in Dafny

This project models the in-memory core of the ShelfAI reading app: the
`Book` record with its lending status, and the `LibraryViewModel` that
changes and queries the catalog. It covers:

- lending: borrow, return, renew, reserve, cancel a reservation, and the overdue sweep;
- reading state: progress, the read flag, "currently reading", notes, the reader's rating and library membership;
- the reading goal: its counter and the settings that change its target and time frame;
- the user statistics and the day-based reading streak;
- the stats card's incremental `UserStats` updates;
- the reading and lending lists, the genre list, text search and the search screen's scope filter;
- the two rule-based recommendation pipelines;
- the bounded recently-viewed list.

The view-model appears three times in the repository, and the copies are
modelled once. The copies are `ShelfAI/LibraryViewModel.swift`, the inline copy
in `ShelfAI/ContentView.swift`, and `ShelfAI/Recommendation/LibraryViewModel.swift`.
The last one computes its home recommendations on `averageRating ?? 0` instead of
`rating`. Both forms are modelled, and `Recommend.HomeVariantsAgree` proves that
they return the same list.

The model is functional. A view-model is an immutable `ViewModel.State`, and
each public operation is a function from state to state. Time is an explicit
`now: int`, in seconds since 1970-01-01 UTC. A calendar day is `now / 86400`,
and the loan period is `14 * 86400`. In the source, every write to `allBooks`
runs a subscription that re-derives the catalog totals. Here that is
`ViewModel.Commit`, applied by each operation that writes the catalog.

Modules, one per concern, in dependency order:

| module | file | contents |
|---|---|---|
| `Optional` | optional.dfy | Swift's optionals |
| `Text` | text.dfy | joining, substring search under a case fold, lexicographic order and sorting, integer parsing and rendering |
| `Seqs` | seqs.dfy | `filter` and the order-preserving subsequence relation |
| `Sorting` | sorting.dfy | sorting by a key, highest first, and taking a prefix |
| `DataModels` | data_models.dfy | `Book`, `BookStatus`, the derived properties, `ReadingGoal` |
| `Catalog` | catalog.dfy | `firstIndex(where:)` on the id |
| `Lending` | lending.dfy | the lending state machine and the overdue sweep |
| `Reading` | reading.dfy | per-record reading edits |
| `Stats` | stats.dfy | derived statistics, the streak rule, the stats card |
| `Recommend` | recommend.dfy | home and related recommendations |
| `Recent` | recent.dfy | the recently-viewed list |
| `Queries` | queries.dfy | lists, genres, search, search scopes |
| `ViewModel` | view_model.dfy | the state, its operations, a command type and the invariant they keep |

Every per-book mutator starts with `firstIndex(where: { $0.id == book.id })`.
When no record has the id, the mutator does nothing. When one does, only the first such
record changes. The catalog contracts say this with `Catalog.IsFirst` and
`Catalog.OnlyAt`. They also say which fields of that record change, by
resetting the changed fields to their old values and requiring the record to be
equal to the original.

Behaviour of the code that the model keeps as written:

- Borrowing and returning are unconditional; borrowing is not limited to available books.
- A missing id is a silent no-op, not an error reported to the caller.
- Renewal checks the status of the book value passed in, not the stored record. `Lending.RenewTrustsSnapshot` shows a stale snapshot putting a due date on a stored reserved record.
- Reserving keeps the due date, so "a due date only while on loan" is not an invariant of the code (`Lending.ReserveKeepsDueDate`). The invariant that does hold is the converse, "every loan has a due date" (`Lending.AllLoansDated`), and `ViewModel.ApplyPreservesConsistent` proves that every operation keeps it.
- Progress of at least 1 counts towards the reading goal on every call (`ViewModel.CompletionCountedOnEveryCall`).
- Toggling a finished book back to unread leaves its progress at 1, so "progress 1 implies read" does not hold (`Reading.ToggleReadTwice`).
- `ReadingGoal.progress` has no guard against a zero target, so the model requires a non-zero target. The target starts at 10 and changes only through the settings screen's stepper, which keeps it within 1...100. `ViewModel.SetGoalTarget` takes such a target, and `ViewModel.Consistent` records that the target stays positive.
- The stats card's per-book update sets the favourite genre to the first category of the last book it sees, read or not. The view-model's derivation picks the most frequent genre among read books. The two agree on the count of read books and on pages (`Stats.CardTotalsMatchDerivedTotals`) but not on the favourite genre (`Stats.CardFavouriteIsLastGenre`).
- Home recommendations are not promised to keep catalog order among equal ratings, because Swift's `sorted(by:)` does not document stability. Which of several equally frequent genres becomes the favourite is also left open, because the source groups read books through an unordered `Dictionary`.

## Model

| member | source | states |
|---|---|---|
| DataModels.NewBook | ShelfAI/DataModels.swift:11-30 | a catalog record starts unread, outside the library, with no progress, available, with no due date, dated when created |
| DataModels.Author | ShelfAI/DataModels.swift:54 | the author line is the authors joined with ", ": empty for no author, the name itself for one; for several, every name sits at its offset (the names before it plus one ", " each), ", " follows every name but the last, and the length leaves room for nothing else |
| DataModels.AuthorAddsName | ShelfAI/DataModels.swift:54 | adding an author to a non-empty list appends ", " and the new name to the author line |
| DataModels.Genre | ShelfAI/DataModels.swift:55 | the primary genre is the first category, or "Unknown" when there is none |
| DataModels.Rating | ShelfAI/DataModels.swift:56 | the rating is the average rating when present and 0 otherwise |
| DataModels.TruncateToInt | ShelfAI/DataModels.swift:57 | `Int(x)` on a double truncates towards zero: the result is within one below a non-negative x, and within one above a negative x |
| DataModels.UserRatingOrAverage | ShelfAI/DataModels.swift:57 | the reader's rating halved when set; otherwise a multiple of one half, at most half a point below a non-negative rating and not above it |
| DataModels.YearPrefix | ShelfAI/DataModels.swift:66 | `prefix(4)` is a prefix of the date, four characters long or the whole date when shorter |
| Text.JoinLayout | ShelfAI/DataModels.swift:54 | `joined(separator:)` places name i after the first i names and i separators, with the separator after every name but the last |
| Text.JoinSnoc | ShelfAI/DataModels.swift:54 | joining one more name to a non-empty list appends the separator and that name |
| Text.ParseInt | ShelfAI/DataModels.swift:66 | `Int(String)` rejects the empty string, a lone sign and any non-digit other than a leading sign; it reads an all-digit string as its decimal value, and a sign followed by digits as that value negated for "-" and kept for "+" |
| Text.ParseRendersBack | ShelfAI/DataModels.swift:66-67 | rendering a parsed year as text and parsing it again gives the same year |
| Text.IntToString | ShelfAI/DataModels.swift:67 | `"\(n)"` writes an integer in canonical decimal form: a minus sign exactly for negative numbers, no plus sign, no leading zero and no "-0" |
| Text.CanonicalIsRendering | ShelfAI/DataModels.swift:66-67 | the converse round trip: any string in canonical decimal form parses, and rendering the parsed integer gives back that same string |
| DataModels.FormattedPublishedDate | ShelfAI/DataModels.swift:64-70 | "Unknown" without a date; the raw date when its first four characters are not an integer; otherwise that integer in canonical decimal form, so "0042" shows as "42" |
| DataModels.DaysUntilDue | ShelfAI/DataModels.swift:72-75 | absent exactly when there is no due date; otherwise the whole days between now and the due date, negative when the due date is past, truncated towards zero |
| DataModels.GoalProgress | ShelfAI/DataModels.swift:98-100 | progress times target is the current count; it lies in [0, 1] while the count is within the target and is 1 when the target is met |
| Catalog.FindFirst | ShelfAI/ContentView.swift:408 | `firstIndex` finds nothing exactly when no record has the id, and otherwise the first position whose record has it |
| Lending.Borrow | ShelfAI/LibraryViewModel.swift:271-279 | from any status, the first matching record becomes checked out, due one loan period from now and in the library, with no other field and no other record changed; a missing id changes nothing |
| Lending.Return | ShelfAI/LibraryViewModel.swift:281-286 | from any status, the record becomes available with no due date, and nothing else changes |
| Lending.Renew | ShelfAI/LibraryViewModel.swift:288-292 | only the due date moves, to one loan period from now, and only when the snapshot passed in is checked out; the status never changes |
| Lending.Reserve | ShelfAI/LibraryViewModel.swift:314-318 | the record becomes reserved from any status, and its due date and every other field are kept |
| Lending.CancelReservation | ShelfAI/LibraryViewModel.swift:320-324 | a stored reserved record becomes available; a record in any other stored status is left as it is |
| Lending.UpdateOverdueStatuses | ShelfAI/LibraryViewModel.swift:294-300 | a record's status changes exactly when it is checked out with a due date before now, it then becomes overdue, and no other field changes |
| Lending.SweepOverdue | ShelfAI/LibraryViewModel.swift:294-300 | the in-place loop over the indices computes the same catalog as the sweep's specification |
| Lending.SweepIdempotent | ShelfAI/LibraryViewModel.swift:294-300 | sweeping twice at the same instant is the same as sweeping once |
| Lending.LendingKeepsLoansDated | ShelfAI/LibraryViewModel.swift:271-324 | if every checked-out or overdue record has a due date, that stays true after every lending operation and the sweep |
| Lending.ReserveKeepsDueDate | ShelfAI/LibraryViewModel.swift:314-318 | reserving a borrowed record leaves a reserved record that still carries its due date |
| Lending.RenewTrustsSnapshot | ShelfAI/LibraryViewModel.swift:288-292 | a stale snapshot saying checked out lets renewal put a due date on a stored reserved record |
| Reading.SetProgress | ShelfAI/LibraryViewModel.swift:259-269 | stores the progress and the reading time; a progress of at least 1 marks the record read, and a smaller one leaves the read flag as it was |
| Reading.ToggleRead | ShelfAI/ContentView.swift:407-418 | flips the read flag; becoming read also sets progress to 1 and the reading time, and becoming unread changes nothing else |
| Reading.MarkCurrentlyReading | ShelfAI/ContentView.swift:498-504 | sets progress to one tenth and the reading time, keeping status and read flag |
| Reading.SetNotes | ShelfAI/ContentView.swift:474-478 | only the notes of the record change |
| Reading.SetUserRating | ShelfAI/ContentView.swift:480-484 | only the reader's rating of the record changes |
| Reading.ToggleLibrary | ShelfAI/Recommendation/LibraryViewModel.swift:287-292 | flips library membership; the date added becomes now exactly when the record joins the library |
| Reading.ProgressRoundTrip | ShelfAI/LibraryViewModel.swift:259-269 | a progress of 1 makes the record read; a progress of 0 leaves an unread record unread |
| Reading.ToggleReadTwice | ShelfAI/ContentView.swift:407-418 | toggling twice makes the record unread again but leaves its progress at 1 |
| Seqs.Filter | ShelfAI/LibraryViewModel.swift:54 | `filter` keeps exactly the elements satisfying the predicate, each as often as before, in their original order |
| Seqs.FilterTwice | ShelfAI/Recommendation/LibraryViewModel.swift:30-33 | two successive filters are one filter by the conjunction |
| Seqs.FilterCountsPositions | ShelfAI/LibraryViewModel.swift:54 | the count of a filter is the number of positions whose element satisfies the predicate |
| Sorting.SortDesc | ShelfAI/Recommendation/LibraryViewModel.swift:225 | `sorted` with `>` gives a permutation whose keys do not increase |
| Sorting.TopK | ShelfAI/LibraryViewModel.swift:206-210 | sorting then taking a prefix of k gives min(k, n) elements drawn from the input, keys not increasing, all of the input when it has at most k, and no element left out outranks one kept |
| Sorting.TopKSameKey | ShelfAI/Recommendation/LibraryViewModel.swift:36 | sorting and taking a prefix by two keys that agree everywhere gives the same result |
| Recommend.HomeRecommendations | ShelfAI/LibraryViewModel.swift:205-211 | every home recommendation is a catalog record outside the library rated at least 4, no record appears more often than in the catalog, best first, exactly min(5, candidates) of them, all candidates when fewer than five, and no candidate left out is rated above one included |
| Recommend.RelatedRecommendations | ShelfAI/LibraryViewModel.swift:213-223 | every related recommendation has another id, lists the focal book's genre and is outside the library; no record appears more often than in the catalog; exactly min(3, candidates) of them, best first, and no candidate left out outranks one included |
| Recommend.SameFirstCategoryIsRelated | ShelfAI/LibraryViewModel.swift:213-219 | a book filed first under the focal book's first category, with another id and outside the library, is a related candidate |
| Recommend.UncategorisedRelatesToUnknown | ShelfAI/LibraryViewModel.swift:213-219 | for a focal book with no category, the related candidates are exactly the other books outside the library that list "Unknown" |
| Recommend.HomeRecommendationsByAverage | ShelfAI/Recommendation/LibraryViewModel.swift:28-40 | the variant filters twice, sorts on `averageRating ?? 0` and returns at most five records, highest average first |
| Recommend.HomeVariantsAgree | ShelfAI/Recommendation/LibraryViewModel.swift:28-40 | the variant returns exactly the same list, in the same order, as the rating-based home recommendations |
| Recent.AddToRecent | ShelfAI/LibraryViewModel.swift:225-231 | an id already in the list leaves the list unchanged; a new one goes to the front, followed by the old list, minus its last entry when the list was full; length at most five and distinct ids are kept |
| Recent.AddToRecentIdempotent | ShelfAI/LibraryViewModel.swift:225-231 | viewing the same book twice is viewing it once |
| Recent.AddToRecentKeepsWellFormed | ShelfAI/LibraryViewModel.swift:225-231 | the list stays bounded by five with distinct ids |
| Recent.AddNewWithRoom | ShelfAI/LibraryViewModel.swift:226-227 | a new id on a list with fewer than five entries is simply put in front |
| Recent.AddNewWhenFull | ShelfAI/LibraryViewModel.swift:226-230 | a new id on a full list goes in front and the oldest entry is evicted |
| Recent.FiveViewsFillTheList | ShelfAI/LibraryViewModel.swift:225-231 | viewing five distinct books in turn on an empty list gives all five, newest first |
| Recent.SixthViewEvictsOldest | ShelfAI/LibraryViewModel.swift:226-230 | a sixth distinct book on a full list of five goes in front and the oldest entry drops off |
| Recent.SixViewsKeepLastFive | ShelfAI/LibraryViewModel.swift:225-231 | viewing six distinct books in turn leaves the last five, newest first |
| Stats.UpdateUserStats | ShelfAI/Recommendation/LibraryViewModel.swift:64-70 | the count of read books is the number of read positions, the pages are the read page counts with a missing one as 0, the favourite genre is as below; streak and last reading date are kept |
| Stats.CompactSumIsDefaultSum | ShelfAI/Recommendation/LibraryViewModel.swift:66 | summing the present page counts of read books equals summing them with a missing count taken as 0 |
| Stats.PickFavourite | ShelfAI/Recommendation/LibraryViewModel.swift:68-69 | picks nothing exactly when no record in range is read, and otherwise the primary genre of a read record whose tally no read record's genre exceeds |
| Stats.FavoriteGenre | ShelfAI/Recommendation/LibraryViewModel.swift:68-69 | "None" when nothing is read; otherwise the primary genre of some read book, with a count no other read genre exceeds |
| Stats.UpdateUserStatsIdempotent | ShelfAI/Recommendation/LibraryViewModel.swift:64-70 | re-deriving the statistics from the same catalog changes nothing |
| Stats.CheckReadingStreak | ShelfAI/Recommendation/LibraryViewModel.swift:72-89 | no last date resets the streak; a last date today changes nothing; yesterday extends the streak by one, and anything older resets it, both stamping the last date as now |
| Stats.CheckReadingStreakIdempotent | ShelfAI/Recommendation/LibraryViewModel.swift:72-89 | a second streak check at the same instant changes nothing |
| Stats.UpdateStats | ShelfAI/TabViews/StatsCard.swift:45-57 | a read book adds one book, its page count (0 when absent) and stamps the reading date; an unread book leaves those alone; any first category becomes the favourite genre, read or not; the streak is untouched |
| Stats.ResetStreak | ShelfAI/TabViews/StatsCard.swift:59-61 | the streak becomes 0 and no other field changes |
| Stats.IncrementStreak | ShelfAI/TabViews/StatsCard.swift:63-65 | the streak grows by one and no other field changes |
| Stats.CardTotalsMatchDerivedTotals | ShelfAI/TabViews/StatsCard.swift:45-57 | feeding a catalog through the card's update adds the number of read records to the count and their pages (0 when absent) to the pages, as the view-model's derivation counts them, and keeps the streak |
| Stats.CardFromDefaultsMatchesUpdateUserStats | ShelfAI/TabViews/StatsCard.swift:45-57 | from the declared defaults, the card's count and pages over a catalog equal the view-model's derived count and pages |
| Stats.CardFavouriteIsLastGenre | ShelfAI/TabViews/StatsCard.swift:54-56 | after the card has seen a catalog, its favourite genre is the primary genre of the last record that has a category |
| Stats.StreakCheckUsesCardSteps | ShelfAI/Recommendation/LibraryViewModel.swift:72-89 | the start-up streak check is the card's reset when there is no last date, its increment for a date yesterday and its reset for an older date, the latter two stamped with now |
| Stats.ResetAfterIncrement | ShelfAI/TabViews/StatsCard.swift:59-65 | a reset after an increment is the same as a reset alone |
| Queries.CurrentlyReading | ShelfAI/Recommendation/LibraryViewModel.swift:223-226 | exactly the records with progress strictly between 0 and 1, each as often as in the catalog, most recently read first with a never-read record counted as the distant past |
| Queries.WantToRead | ShelfAI/Recommendation/LibraryViewModel.swift:228-230 | exactly the records in the library with progress 0, each as often as in the catalog, in catalog order |
| Queries.FinishedBooks | ShelfAI/Recommendation/LibraryViewModel.swift:232-234 | exactly the read records, each as often as in the catalog, in catalog order |
| Queries.CheckedOutBooks | ShelfAI/ContentView.swift:369-371 | exactly the checked-out or overdue records, each as often as in the catalog, in catalog order |
| Queries.OverdueBooks | ShelfAI/ContentView.swift:373-375 | exactly the overdue records, each as often as in the catalog, in catalog order |
| Queries.OverdueWithinCheckedOut | ShelfAI/ContentView.swift:369-375 | the overdue list is the checked-out list with its overdue records picked out, hence an ordered part of it |
| Queries.AllCategories | ShelfAI/Recommendation/LibraryViewModel.swift:206 | `flatMap` holds exactly the categories of the catalog's records |
| Text.SortedDistinct | ShelfAI/Recommendation/LibraryViewModel.swift:206-207 | a set sorted is strictly ascending and holds exactly the input's values |
| Queries.Genres | ShelfAI/Recommendation/LibraryViewModel.swift:204-209 | "All" first, then each category of the catalog exactly once in strictly ascending order, and nothing else |
| Queries.FilteredBooks | ShelfAI/Recommendation/LibraryViewModel.swift:211-221 | an empty query gives the whole catalog; otherwise exactly the records whose title, author line or publisher contains the query ignoring case, in catalog order |
| Queries.MatchesPrefix | ShelfAI/Recommendation/LibraryViewModel.swift:215-219 | a record matching a query matches every prefix of it |
| Queries.TypingNarrowsResults | ShelfAI/Recommendation/LibraryViewModel.swift:211-221 | the results for a longer query are an ordered part of the results for any of its prefixes |
| Queries.ScopedResults | ShelfAI/SearchView.swift:33-41 | scope all passes the results through; available keeps exactly the available records; checked out keeps exactly the checked-out or overdue ones; a kept record appears as often as in the results, always in their order |
| Queries.CheckedOutScopeIsCheckedOutList | ShelfAI/SearchView.swift:33-41 | with no query typed, the checked-out scope shows the view-model's checked-out list |
| Queries.ProgressDecidesCurrentlyReading | ShelfAI/LibraryViewModel.swift:259-269 | after setting progress, the record is in the currently-reading list exactly when the progress is strictly between 0 and 1 |
| Queries.MarkedIsCurrentlyReading | ShelfAI/ContentView.swift:498-504 | a record marked as currently reading is in that list, stamped with now |
| ViewModel.Commit | ShelfAI/LibraryViewModel.swift:37-42 | a catalog write re-derives the read count, pages and favourite genre from the new catalog and keeps the streak, last reading date and every other field |
| ViewModel.Initial | ShelfAI/LibraryViewModel.swift:30-35 | start-up loads the catalog, shows home recommendations, derives the read count, pages and favourite genre, starts the default goal with an empty recent list and search text, and the streak check sets the streak to 0 |
| ViewModel.BorrowBook | ShelfAI/LibraryViewModel.swift:271-279 | borrowing a catalogued book leaves the home recommendations of the new catalog showing and re-derives the statistics; nothing else changes |
| ViewModel.ReturnBook | ShelfAI/LibraryViewModel.swift:281-286 | returning writes only the catalog and its derived totals |
| ViewModel.RenewBook | ShelfAI/LibraryViewModel.swift:288-292 | renewal writes only when the record exists and the snapshot is checked out, and then only the catalog and its derived totals |
| ViewModel.ReserveBook | ShelfAI/LibraryViewModel.swift:314-318 | reserving writes only the catalog and its derived totals |
| ViewModel.CancelBookReservation | ShelfAI/LibraryViewModel.swift:320-324 | nothing is written unless the stored record is reserved, and then only the catalog and its derived totals |
| ViewModel.UpdateOverdue | ShelfAI/LibraryViewModel.swift:294-300 | with no past-due loan nothing changes; otherwise only the catalog and its derived totals |
| ViewModel.UpdateReadingProgress | ShelfAI/LibraryViewModel.swift:259-269 | stamps the last reading date, re-derives the totals, and adds one to the goal exactly when the progress is at least 1; nothing else changes |
| ViewModel.CompletionCountedOnEveryCall | ShelfAI/LibraryViewModel.swift:259-269 | finishing the same book twice adds two to the goal although the second call changes neither the catalog nor the totals |
| ViewModel.ToggleReadStatus | ShelfAI/LibraryViewModel.swift:235-246 | the statistics are re-derived from the new catalog; becoming read also adds one to the goal, stamps the reading date and shows the recommendations related to the book; becoming unread keeps goal, date and recommendations; nothing else changes |
| ViewModel.ToggleLibraryStatus | ShelfAI/Recommendation/LibraryViewModel.swift:287-296 | after a membership change the statistics are re-derived and the home recommendations of the new catalog are showing; nothing else changes |
| ViewModel.UpdateNotes | ShelfAI/LibraryViewModel.swift:302-306 | writes only the catalog and its derived totals |
| ViewModel.UpdateUserRating | ShelfAI/LibraryViewModel.swift:308-312 | writes only the catalog and its derived totals |
| ViewModel.MarkAsCurrentlyReading | ShelfAI/LibraryViewModel.swift:326-332 | re-derives the totals and stamps the last reading date; it does not count towards the goal and nothing else changes |
| ViewModel.ResetReadingGoal | ShelfAI/ContentView.swift:506-508 | the count goes to 0, target and time frame are kept, and nothing else changes |
| ViewModel.SetGoalTarget | ShelfAI/ContentView.swift:1709-1711 | the settings stepper sets the target to a value in 1...100 and changes nothing else |
| ViewModel.SetGoalTimeFrame | ShelfAI/ContentView.swift:1703-1707 | the settings picker sets the time frame and changes nothing else |
| ViewModel.ViewBook | ShelfAI/LibraryViewModel.swift:225-233 | the book is recorded as recently viewed and its related recommendations are shown, whether it was new to the list or not |
| ViewModel.SearchResults | ShelfAI/LibraryViewModel.swift:172-182 | with no search text the whole catalog; otherwise exactly the records whose title, author line or publisher contains the text ignoring case, each as often as in the catalog, in catalog order |
| ViewModel.InitialConsistent | ShelfAI/LibraryViewModel.swift:30-35 | a freshly started view-model over a catalog whose loans are dated satisfies the invariant |
| ViewModel.CommitKeepsConsistent | ShelfAI/LibraryViewModel.swift:37-42 | writing a catalog whose loans are dated keeps the invariant |
| ViewModel.ReadingEditsKeepLoansDated | ShelfAI/LibraryViewModel.swift:235-332 | no reading edit touches a status or a due date, so every loan stays dated |
| ViewModel.SetProgressTwice | ShelfAI/LibraryViewModel.swift:259-269 | storing the same progress at the same instant twice gives the catalog that storing it once gives |
| ViewModel.BorrowKeepsConsistent | ShelfAI/LibraryViewModel.swift:271-279 | borrowing keeps the view-model's invariant, including every loan having a due date |
| ViewModel.RenewKeepsConsistent | ShelfAI/LibraryViewModel.swift:288-292 | renewal keeps the invariant even when the snapshot is stale |
| ViewModel.ToggleReadKeepsConsistent | ShelfAI/LibraryViewModel.swift:235-246 | toggling the read flag keeps the invariant, including the related recommendations it shows being outside the library |
| ViewModel.ApplyPreservesConsistent | ShelfAI/LibraryViewModel.swift:225-336 | every public operation, including the goal settings, keeps statistics in step with the catalog, loans dated, the recent list bounded and distinct, at most five recommendations none in the library when shown, and a positive target with a non-negative count |

## Left out

- SwiftUI views and layout, including cards, sections, "See All" prefixes, covers, tabs, the settings forms other than the goal's stepper and picker, and progress colour bands: presentation only.
- The settings subscription, its debounce and `saveSettings`: reactive plumbing around an empty persistence stub. The catalog subscription is modelled as `ViewModel.Commit`.
- `HiddenMarkovModel`: its training and prediction methods are empty.
- `loadInitialData`: fixture data. `ViewModel.Initial` takes the catalog as a parameter.
- Foundation's calendar, formatter and locale services. Calendar days are UTC day numbers (`t / 86400`); time zones and daylight-saving changes are not modelled. The locale's case folding is an uninterpreted `char -> char` parameter. `formattedDueDate`, `coverImageURL`, `UUID()` and `BookStatus.displayName`/`color` are not modelled.
- `AppSettings`: passive configuration with no logic.
- `selectedGenre`: stored but read by no core operation. The genre picker's edit of `allBooks` lives in a view closure.
- Strings: a string is a sequence of Unicode scalars compared without normalization. Swift compares `String` values and `Set<String>` members by canonical equivalence, and `prefix(4)` counts grapheme clusters, so ids, categories, the genre list and the year prefix may differ from Swift for text that is not in normalized form or holds combining characters.
- Floating point: progress and ratings are exact reals, so NaN, infinities and rounding are not modelled. Counters are unbounded integers, so Swift's trap on `Int` overflow is not modelled.
- Sorting.SortDesc: stability is not claimed, because Swift's `sorted(by:)` does not document it. The contract is a permutation with non-increasing keys, so equal-rated records may come in any order.
- Stats.FavoriteGenre: the genre chosen among equally frequent ones is not specified, because the source takes the maximum over an unordered `Dictionary`.
- DataModels.DaysUntilDue: the calendar's day count is modelled as whole 86400-second days truncated towards zero, with no time zone or daylight-saving effects.
- DataModels.GoalProgress: requires a non-zero target. The source divides doubles without a guard, which gives an infinity or NaN that the model's reals cannot represent; the target the view-model keeps is never 0.
