# manga-page-count: chapter selection and filtering

This project models the one piece of logic in `main(manga_id)` of the
manga-page-count script. The script charts page count per chapter for a
manga. It works in four stages:

1. **Resolver** (`Resolver`). It folds the API's chapter records, in the
   order given, into a dictionary keyed by chapter number.
   - Records with an empty chapter field are skipped.
   - Records whose first group is 9097 (MangaPlus) are skipped.
   - A record replaces the stored one only when it has strictly more views.
     A missing entry counts as 0 views.
2. **Sort-and-project** (`Ordering`). The dictionary's items are sorted by
   chapter number and reduced to chapter number → chapter id.
3. **Page-count builder** (`PageCounts`). Each resolved chapter, in sorted
   order, gets the length of its page list minus one. The one is the
   group-credits page.
4. **Series filter** (`SeriesFilter`). It drops the points whose chapter
   number is fractional and whose page count is below 10, and keeps the rest
   in order.

`Pipeline.PageCountSeries` puts the stages together. It also models the
branch that reuses the cached page-count dictionary. Python dictionaries keep
insertion order, so both dictionaries are modelled with their order:
`ChapterDict` holds the resolver's keys in insertion order next to a `map`,
and the page-count dictionary is a sequence of `Point`s.

The resolver and the page-count builder are loops that update a dictionary in
place. They are methods (`Resolver.Resolve`, `PageCounts.BuildPageCounts`).
Each is proved equal to a specification: the fold `Resolver.Resolved`, or the
entry-by-entry description of the result. The comprehensions on lines 40 and
52 are functions.

A chapter number is a `real`. Python's `int(x) != x` is modelled with
truncation toward zero (`SeriesFilter.Trunc`). `SeriesFilter.TruncIntegral`
proves that this test agrees with a floor test.

The missing-entry default of 0 views (main.py:36) means that a chapter number
becomes a key only when some non-MangaPlus record for it has more than 0
views. A chapter number whose non-MangaPlus records all have 0 or fewer views
is dropped like one that has only MangaPlus records. `Resolver.ResolvedAt`
states this, and `Resolver.StoredViewsPositive` shows that the default can
never be mistaken for a stored record.

## Model

| member | source | states |
|---|---|---|
| `Resolver.Resolve` | main.py:29-37 | The loop over the chapter records leaves the dictionary equal to the fold `Resolved` of all records, in input order. |
| `Resolver.StoredViews` | main.py:36 | The views compared against are those of the record stored under the chapter number, and 0 when the number has no entry yet. |
| `Resolver.Step` | main.py:31-37 | One turn of the loop keeps the dictionary well formed. A record with no number or from group 9097 leaves it unchanged. An eligible record replaces the entry for its number exactly when it has strictly more views than the stored ones, and otherwise changes nothing. The key order only grows at its end, and no stored entry's views ever decrease. |
| `Resolver.StoredViewsPositive` | main.py:36-37 | After the loop, the stored views for a chapter number are never negative, and they are positive exactly when the number is a key. |
| `Resolver.Put` | main.py:37 | Assigning to the dictionary maps the key to the record. A new key goes to the end of the key order. An existing key keeps its place. The dictionary stays well formed. |
| `Resolver.Resolved` | main.py:29-37 | After any number of records, the resolver's dictionary is well formed: each chapter number appears once in the key order, and the order lists exactly the mapped keys. |
| `Resolver.KeepEntry` | main.py:35-37 | A record that is not an eligible record for k, or has no more views than the stored entry for k, leaves the entry for k correct: present iff some eligible record for k has positive views, and then the first record with the most views. |
| `Resolver.ReplaceEntry` | main.py:36-37 | An eligible record for k with strictly more views than the stored entry (0 when absent) becomes the first record with the most views for k. |
| `Resolver.ResolvedAt` | main.py:31-37 | A chapter number is a key iff some numbered, non-MangaPlus record carries it with positive views. Its value is then the first such record, in input order, among those with the most views. |
| `Resolver.SelectedRecord` | main.py:27-37 | The selected record is an input record. It carries the key it is stored under, is not from group 9097 and has positive views. No eligible record with that number has more views. |
| `Resolver.FirstSeenOnTies` | main.py:36-37 | When an eligible record ties the selected one's views, the selected record comes no later than it in the input. Replacement needs strictly more views. |
| `Resolver.MangaPlusOnlyAbsent` | main.py:35-37 | A chapter number whose records all come from group 9097 is not a key. |
| `Resolver.IneligibleIgnored` | main.py:31-35 | Inserting a record without a chapter number, or one from group 9097, anywhere in the input leaves the resulting dictionary unchanged, key order included. |
| `Resolver.ResolveExample` | main.py:29-37 | Three records numbered 1 with 100 views, 50 views, and 500 views from MangaPlus resolve to the 100-view record alone. |
| `Ordering.Insert` | main.py:40 | Inserting a new number into an ascending sequence keeps it strictly ascending, adds exactly that number and grows the length by one. |
| `Ordering.SortKeys` | main.py:40 | Sorting distinct keys yields a strictly ascending sequence of the same length holding exactly those keys. |
| `Ordering.AscendingUnique` | main.py:40 | Two strictly ascending sequences with the same elements are equal. So the sorted key order is the only one `sorted` can produce. |
| `Ordering.ChapterIds` | main.py:39-40 | The chapter → id dictionary is strictly ascending by chapter number. It has one entry per resolved key, and each entry's id is the id of the record selected for that number. |
| `PageCounts.SetCount` | main.py:44 | Assigning a page count to a new chapter number appends the entry. Assigning to an existing number replaces its count in place, and every other entry stays the same. |
| `PageCounts.BuildPageCounts` | main.py:42-46 | The page-count dictionary has the chapter → id dictionary's keys in the same order. Each value is the page-list length of that id minus one. The progress counter ends at the number of chapters. |
| `SeriesFilter.Trunc` | main.py:52 | `int()` on a float truncates toward zero. For a non-negative input the result is the largest whole number not above it. For a negative input it is the smallest whole number not below it. |
| `SeriesFilter.TruncIntegral` | main.py:52 | The truncating test `int(x) != x` is false exactly for whole numbers, as the floor test is. |
| `SeriesFilter.Kept` | main.py:52 | The comprehension's condition `not (int(x[0]) != x[0] and x[1] < 10)` holds iff the chapter number is whole or the page count is at least 10. |
| `SeriesFilter.Filter` | main.py:52 | A point is in the series iff it is in the page-count dictionary and passes the filter. The series is no longer than the dictionary. |
| `SeriesFilter.FilterIsSubsequence` | main.py:52 | The series is the dictionary's items with some left out and the rest in their original order. |
| `SeriesFilter.SubsequenceAscending` | main.py:52 | Leaving out items keeps chapter numbers strictly ascending. |
| `SeriesFilter.FilterAscending` | main.py:52 | The series is strictly ascending by chapter number whenever the page-count dictionary is. |
| `SeriesFilter.FilterExample` | main.py:52 | Filtering (1, 20), (1.5, 5), (2, 3), (2.5, 15) gives (1, 20), (2, 3), (2.5, 15). |
| `Pipeline.CountsMembers` | main.py:40-44 | The page-count dictionary holds exactly the points (k, pages of the id selected for k minus one), one for each resolved chapter number k. |
| `Pipeline.PageCountSeries` | main.py:23-52 | With a cached dictionary, the result is that dictionary filtered. Without one, the result is strictly ascending by chapter number. It then holds exactly the points (k, pages of the record selected for k minus one) that pass the filter, for the resolved chapter numbers k. |

## Left out

- The HTTP session and its retry policy (main.py:11-14) belong to the transport libraries.
- The manga API calls `get_manga` and `get_chapter` (main.py:13, 20, 44) are a foreign library. Their results are inputs instead: the chapter records, and `pagesOf`, which gives the length of a chapter's page list.
- Reading and writing the JSON cache file (main.py:23-25, 49-50) is file I/O. The cache's content is passed in as an optional page-count dictionary. The `float(key)` re-keying and the write are not modelled.
- Parsing chapter strings with `float` (main.py:34) is floating-point parsing. Chapter numbers arrive already parsed, as exact `real`s, so there is no float rounding and no NaN.
- A numbered record with an empty `groups` list makes the source raise an error at main.py:35. The model excludes such input with a precondition (`AllReadable`) and does not model the crash.
- Progress printing (main.py:21, 45-47) is console output. Only the progress counter is kept.
- The manga title returned next to the series (main.py:52) is passed through unchanged, so it is not modelled.
- Chart construction and rendering (main.py:55-73) use an external charting library, a browser and files.
- The fixed list of manga ids in the driver loop (main.py:57-58) is configuration.
