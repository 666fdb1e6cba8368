# useMediaDates — a verified model of the gallery's date navigation

`useMediaDates` (`src/hooks/use-media-dates.tsx`) is the React hook behind the
media gallery's calendar navigation. It takes two parallel lists from the
server, `mediaIds` and `mediaDates`, and derives these values from them:

- a **date index**: `idToDate`, `yearMonthToIndex` (first record of each
  `YYYY-MM` bucket), `years` (descending) and `monthsByYear` (ascending);
- the **enriched gallery list** that the virtual grid renders. Records are
  grouped by year-month, most recent first. Each group opens with a separator
  that starts a grid row of `columnsCount` cells, and empty cells pad the
  previous group's last row;
- **separator positions** for each bucket;
- a **scroll estimator**, which gives the bucket whose separator is nearest
  to the first cell of the row at a scroll offset.

On top of these it keeps a small piece of navigation state:
`currentYearMonth`, its label and the last scroll offset acted on. The
operations on that state are initialisation, scroll tracking, jumping to a
year-month, and stepping to the previous or next one.

The hook's parts map to Dafny modules as follows:

- **`Sorting`** (`sorting.dfy`). One selection sort over a strict total order. The hook's four sorts are all this sort, each with its own order. A lemma shows a set has only one sorted listing.
- **`Text`**, **`Calendar`** (`text.dfy`, `calendar.dfy`). The year-month pair, its `YYYY-MM` key string and the key string order. Also the French label and the parsed date field. JavaScript truthiness and the `isNaN` checks are modelled exactly. The `split('-').map(Number)` parse is a given `Option` of a pair.
- **`DateIndexing`** (`date_index.dfy`). The index builder loop, and `getDateForId`.
- **`Enrichment`** (`enricher.dfy`). The two-pass enricher. `Enrich` promises its structural invariants outright.
- **`SeparatorLocation`** (`separator_locator.dfy`). `separatorIndices`.
- **`ScrollMapping`** (`scroll_mapper.dfy`). `getYearMonthFromScrollPosition`.
- **`Navigation`** (`navigation.dfy`). The class `Navigator` holds the hook's three pieces of state. Its methods are the init effect, the scroll handler, `scrollToYearMonth`, and previous/next navigation.

The bucket key is a string in the source. The model keeps it as a pair and
proves this is sound:

- `Key` is injective, so pair equality is key equality.
- The key string order is a strict total order.
- That order is chronological for 4-digit years and months below 100.

The grid behind `gridRef` is a `Grid(rowHeight, columnCount)` value, or
`None` when `gridRef.current` is null. The `scrollToItem` call becomes the
returned `rowIndex`.

## Model

| member | source | states |
|---|---|---|
| Calendar.KeyInjective | src/hooks/use-media-dates.tsx:63 | two year-months with the same `${year}-${MM}` key are equal, so the key identifies its bucket |
| Calendar.KeyOrdersAreStrictTotal | src/hooks/use-media-dates.tsx:159 | code-unit order on keys, ascending and descending, is irreflexive, transitive and total, so sorting keys is well defined |
| Calendar.KeyBeforeIsEarlier | src/hooks/use-media-dates.tsx:321 | for 4-digit years and months below 100, key order is exactly chronological order |
| Calendar.KeyBeforeCounterexample | src/hooks/use-media-dates.tsx:321 | outside that range it is not: `2023-100` sorts before `2023-12` although month 12 comes first |
| Calendar.LabelInjective | src/hooks/use-media-dates.tsx:17-24 | `formatMonthYearLabel` gives different labels to different year-months with months 1 to 12 |
| Calendar.BucketAt | src/hooks/use-media-dates.tsx:55-62 | a record has a bucket exactly when its date is truthy (present and non-empty) and both parts parse |
| Sorting.SortBy | src/hooks/use-media-dates.tsx:86-91 | the result is sorted strictly by the given order and has exactly the set's elements, each once |
| Sorting.SortedUnique | src/hooks/use-media-dates.tsx:86-91 | two strictly sorted sequences with the same elements are equal, so each sort result is determined by its input set |
| DateIndexing.BuildDateIndex | src/hooks/use-media-dates.tsx:33-99 | `idToDate` holds every id with a truthy date (even an unparseable one), mapped to its last such date. `yearMonthToIndex` maps each bucket to its first record. `years` holds the years present, strictly descending. `monthsByYear[y]` holds y's months, strictly ascending |
| DateIndexing.IndexUnique | src/hooks/use-media-dates.tsx:33-99 | the four facts above determine the index completely |
| DateIndexing.DateForIdIsLastTruthyDate | src/hooks/use-media-dates.tsx:361-363 | `getDateForId` answers for exactly the ids with a truthy date, giving the text of the id's last such record |
| Enrichment.EntriesMeaning | src/hooks/use-media-dates.tsx:139-155 | a bucket's group lists exactly the records of that bucket, each once, in increasing original position, and is non-empty iff the bucket occurs |
| Enrichment.GroupByMonth | src/hooks/use-media-dates.tsx:139-155 | the first pass creates a group for exactly the buckets that occur, each holding its records in order |
| Enrichment.PadAligns | src/hooks/use-media-dates.tsx:166-172 | the padding count brings the list length to a multiple of `columnsCount`, is below `columnsCount`, and is non-zero iff the length is not already a multiple |
| Enrichment.AppendPadding | src/hooks/use-media-dates.tsx:166-182 | appends exactly the empty cells `empty-<position>` up to the next row start |
| Enrichment.AppendMedia | src/hooks/use-media-dates.tsx:195-204 | appends one media cell per group entry, in order, at consecutive positions |
| Enrichment.AppendGroup | src/hooks/use-media-dates.tsx:162-204 | one turn of the second pass appends padding, the labelled separator at the row start, then the group's media |
| Enrichment.AppendGroups | src/hooks/use-media-dates.tsx:162-205 | the second pass builds the layout of the buckets in the order given |
| Enrichment.Enrich | src/hooks/use-media-dates.tsx:117-208 | The buckets are visited in strictly descending key order, and they are exactly the buckets that occur. In the result: positions are contiguous; every separator starts a row; padding appears only right before a separator and fills its row; each bucket that occurs has one labelled separator, in descending order. Each dated record appears exactly once, after its bucket's separator and in original order; undated records are absent |
| Enrichment.LayoutShape | src/hooks/use-media-dates.tsx:117-208 | the layout of any descending listing of the occurring buckets has all the structural properties `Enrich` promises |
| Enrichment.LayoutContiguous | src/hooks/use-media-dates.tsx:174-203 | each cell's recorded `actualIndex`/`index` equals its position |
| Enrichment.LayoutRowAligned | src/hooks/use-media-dates.tsx:166-190 | every separator's position is a multiple of `columnsCount` |
| Enrichment.LayoutPaddingFillsRow | src/hooks/use-media-dates.tsx:166-182 | An empty cell never starts a row and is named `empty-<its position>`. Only empty cells follow it up to the next row start, and a separator stands there. So a run has 1 to `columnsCount - 1` cells |
| Enrichment.LayoutWellFormed | src/hooks/use-media-dates.tsx:162-203 | a non-empty list opens with a separator; every separator carries its bucket's label; every media cell is empty (`-1`) or real |
| Enrichment.LayoutSeparators | src/hooks/use-media-dates.tsx:162-192 | the separators are for exactly the listed buckets |
| Enrichment.LayoutDescending | src/hooks/use-media-dates.tsx:159-192 | separators appear in strictly descending key order, so no bucket has two |
| Enrichment.LayoutRealItems | src/hooks/use-media-dates.tsx:195-204 | a real cell shows `mediaIds[index]`, its record is dated, and it sits in the run of real cells right after its bucket's separator |
| Enrichment.LayoutOrderKept | src/hooks/use-media-dates.tsx:139-155 | two real cells of the same bucket keep their records' relative order |
| Enrichment.LayoutCoversBuckets | src/hooks/use-media-dates.tsx:195-204 | every record whose bucket is listed has a real cell |
| Enrichment.LayoutDeterminedByInputs | src/hooks/use-media-dates.tsx:159 | the enriched list depends only on the records and `columnsCount` |
| SeparatorLocation.LocateSeparators | src/hooks/use-media-dates.tsx:211-219 | the map's keys are exactly the buckets with a separator; each maps to a separator of that bucket with no later one |
| SeparatorLocation.OnlySeparator | src/hooks/use-media-dates.tsx:211-219 | in a list with descending separators, a bucket's separator position is unique |
| SeparatorLocation.LocatedOnEnrichedList | src/hooks/use-media-dates.tsx:211-219 | on the enriched list, the keys are exactly the occurring buckets, and each maps to its separator's only position, which is also its recorded index |
| ScrollMapping.YearMonthFromScroll | src/hooks/use-media-dates.tsx:222-250 | `null` without a grid, with a zero row height, or with no separator (in particular for an empty list). Otherwise it gives the bucket of the separator nearest to `floor(scrollTop / rowHeight) * columnCount`, the earliest of equally near ones |
| ScrollMapping.NearestUnique | src/hooks/use-media-dates.tsx:238-247 | the nearest separator, with ties to the earliest, is unique |
| ScrollMapping.ExactHit | src/hooks/use-media-dates.tsx:238-247 | in a list whose cells record their own positions, a separator at exactly the estimated index is the one chosen |
| ScrollMapping.EnrichedListHasSeparator | src/hooks/use-media-dates.tsx:223 | a non-empty enriched list has a separator, so the estimate gives a bucket whenever a usable grid is present |
| Navigation.IndexOf | src/hooks/use-media-dates.tsx:324 | `indexOf` gives `-1` exactly for an absent key, and otherwise the first position holding it |
| Navigation.InitialMonthIsLatestYearEarliestMonth | src/hooks/use-media-dates.tsx:102-114 | The start is the earliest month of the most recent year. There is none exactly when no record is dated or that month is 0, which the truthiness test rejects |
| Navigation.StepBackIsPredecessor | src/hooks/use-media-dates.tsx:321-328 | on the ascending keys, stepping back from a present key gives its predecessor, and one exists iff a smaller key exists; from an absent key nothing |
| Navigation.StepForwardIsSuccessor | src/hooks/use-media-dates.tsx:345-352 | Stepping forward from a present key gives its successor, and one exists iff a larger key exists. From an absent key it gives the least key when there is one |
| Navigation.StepsUndoEachOther | src/hooks/use-media-dates.tsx:321-352 | stepping back then forward, or forward then back, returns to the starting key |
| Navigation.ScrollLandsOnSeparator | src/hooks/use-media-dates.tsx:275-304 | Suppose index, list and separator map come from the same records and the grid has `columnsCount` columns. Then a jump target exists iff the bucket occurs, and it is the bucket's separator. The row scrolled to begins with that separator, and the `yearMonthToIndex` fallback is never needed |
| Navigation.Navigator.constructor | src/hooks/use-media-dates.tsx:27-29 | the state starts as no current year-month, no label, last offset 0 |
| Navigation.Navigator.SetCurrent | src/hooks/use-media-dates.tsx:371 | the exposed setter changes the current year-month only, leaving the label as it was |
| Navigation.Navigator.InitCurrent | src/hooks/use-media-dates.tsx:102-114 | with no current year-month and an initial month available, it becomes current with its label; otherwise nothing changes; a matching label stays matching |
| Navigation.Navigator.OnScroll | src/hooks/use-media-dates.tsx:256-270 | An offset within 50 of the last one changes nothing. Otherwise the offset is recorded. If the estimate gives a bucket, that bucket becomes current with its label; with no estimate the state stays |
| Navigation.Navigator.ScrollTo | src/hooks/use-media-dates.tsx:275-304 | Succeeds iff there is a grid and the bucket has a separator position or a first record; the separator is tried first. On success it returns row `floor(position / columnCount)` and sets the bucket and its label. On failure nothing changes |
| Navigation.Navigator.Previous | src/hooks/use-media-dates.tsx:314-335 | Fails with no current year-month, no grid, an unknown current key, or none before it. Otherwise it moves to the key's predecessor in ascending key order and sets its label and row |
| Navigation.Navigator.Next | src/hooks/use-media-dates.tsx:338-359 | Fails with no current year-month or no grid, or when the current key is the last. From a known key it moves to the successor. From an unknown key it moves to the least (oldest) key if any. It sets the label and row |

## Left out

- Throttling: lodash `throttle(..., 100)` drops calls by wall-clock time. `OnScroll` models one call that gets through; the clock is not modelled.
- Stale closure: the source creates the throttled callback once, on the first run of its effect. That callback keeps the estimator and the `currentYearMonth` of that render. `OnScroll` instead reads the navigator's current state and the enriched list it is given.
- The `gridRef` object: its `props.rowHeight`, `props.columnCount` and `scrollToItem` become the `Grid` value and the returned `rowIndex`. Rendering and the grid's own scrolling are not modelled.
- Parsing: `split('-').map(Number)` and `NaN` become the `parsed` field of a date (`None` for NaN). Fractional, exponent and `Infinity` parses, and negative numbers, are not modelled. The split drops minus signs, so a part is never negative anyway.
- Number formatting: years of 10^21 or more, whose `toString` uses exponent notation, are not modelled.
- Floating point: `scrollTop` and `rowHeight` are natural numbers, and `Math.floor(scrollTop / rowHeight)` is natural division. A zero row height gives `Infinity` or `NaN` in the source, which no distance is below, so the model returns no bucket there too.
- Column counts: `columnsCount` is required to be at least 1. With 0 the source's `%` yields `NaN`. The grid's `columnCount` is likewise at least 1.
- `ScrollLandsOnSeparator`: assumes the grid's column count equals the `columnsCount` the list was laid out with. The source passes them separately.
- Sorting: `localeCompare` and the default sort are both taken as code-unit order. Keys hold only digits and `-`, so the two agree. Key order is chronological only for 4-digit years and months below 100.
- `currentYearMonth`: kept as a year-month pair. The exposed setter can store any string; a string that is no bucket key behaves like an absent key, except `""`, which is falsy.
- Round trip: previous/next re-parse the neighbouring key with `split('-').map(Number)` before calling `scrollToYearMonth`. The model passes the pair directly, because the key of a pair parses back to that pair.
- `yearMonthSet` in the index builder is filled but never read, so it is not modelled.
- The `date` string stored with each grouped record is never read, so it is not modelled.
- A missing `mediaIds` or `mediaDates` makes both memos return empty values. This is the same as an empty `ids` list or an all-missing `dates` list, which the model covers.
- `formatMonthYearLabel` with a month outside 1..12: the source prints `undefined`, and `Label` reproduces that. `LabelInjective` is stated only for months 1 to 12.
