/**
 * The `dateIndex` memo of `useMediaDates`: one pass over the parallel
 * `mediaIds`/`mediaDates` lists filling maps and sets, then the sets turned
 * into sorted lists.
 */
module DateIndexing {
  import opened Options
  import opened Calendar
  import Sorting

  datatype DateIndex = DateIndex(
    idToDate: map<string, string>,
    yearMonthToIndex: map<YearMonth, nat>,
    years: seq<nat>,
    monthsByYear: map<nat, seq<nat>>)

  predicate Greater(a: nat, b: nat) { a > b }
  predicate Less(a: nat, b: nat) { a < b }

  lemma NumericOrdersAreStrictTotal()
    ensures Sorting.StrictTotalOrder(Greater)
    ensures Sorting.StrictTotalOrder(Less)
  {
  }

  /** Some record among the first `n` has a parsed date in year `y`. */
  ghost predicate YearOccurs(dates: seq<DateField>, n: nat, y: nat) {
    exists i :: 0 <= i < n && BucketAt(dates, i).Some? && BucketAt(dates, i).value.year == y
  }

  /** No later record among the first `n` has the same id and a truthy date. */
  ghost predicate LastDated(ids: seq<string>, dates: seq<DateField>, n: nat, i: nat)
    requires n <= |ids|
  {
    forall j :: i < j < n && ids[j] == ids[i] ==> !Truthy(FieldAt(dates, j))
  }

  /**
   * `idToDate` over the first `n` records: every id whose date is truthy,
   * parseable or not, mapped to the date of its last such record.
   */
  ghost predicate IdDatesIndexed(m: map<string, string>, ids: seq<string>, dates: seq<DateField>, n: nat)
    requires n <= |ids|
  {
    && (forall id :: id in m <==> DatedId(ids, dates, n, id))
    && (forall i :: 0 <= i < n && Truthy(FieldAt(dates, i)) && LastDated(ids, dates, n, i) ==>
          ids[i] in m && m[ids[i]] == FieldAt(dates, i).text)
  }

  /** `yearMonthToIndex` over the first `n` records: each bucket mapped to its first record. */
  ghost predicate FirstOccurrences(m: map<YearMonth, nat>, dates: seq<DateField>, n: nat) {
    && (forall k :: k in m <==> Occurs(dates, n, k))
    && (forall k :: k in m ==>
          && m[k] < n
          && BucketAt(dates, m[k]) == Some(k)
          && forall j :: 0 <= j < m[k] ==> BucketAt(dates, j) != Some(k))
  }

  /** `years`: the years present, most recent first, no repeats. */
  ghost predicate YearsListed(years: seq<nat>, dates: seq<DateField>, n: nat) {
    && Sorting.SortedBy(years, Greater)
    && forall y :: y in years <==> YearOccurs(dates, n, y)
  }

  /** `monthsByYear`: for each year present, its months in increasing order, no repeats. */
  ghost predicate MonthsListed(m: map<nat, seq<nat>>, dates: seq<DateField>, n: nat) {
    && (forall y :: y in m <==> YearOccurs(dates, n, y))
    && (forall y :: y in m ==>
          && Sorting.SortedBy(m[y], Less)
          && forall mo :: mo in m[y] <==> Occurs(dates, n, YearMonth(y, mo)))
  }

  /** `idx` is the index of the whole of `ids`/`dates`. */
  ghost predicate Indexes(idx: DateIndex, ids: seq<string>, dates: seq<DateField>) {
    && IdDatesIndexed(idx.idToDate, ids, dates, |ids|)
    && FirstOccurrences(idx.yearMonthToIndex, dates, |ids|)
    && YearsListed(idx.years, dates, |ids|)
    && MonthsListed(idx.monthsByYear, dates, |ids|)
  }

  lemma YearOccursStep(dates: seq<DateField>, n: nat, y: nat)
    ensures YearOccurs(dates, n + 1, y) <==>
      YearOccurs(dates, n, y) || (BucketAt(dates, n).Some? && BucketAt(dates, n).value.year == y)
  {
  }

  /** The `idToDate` map after the first `n` records, one `set` per truthy date. */
  ghost function IdDates(ids: seq<string>, dates: seq<DateField>, n: nat): map<string, string>
    requires n <= |ids|
  {
    if n == 0 then map[]
    else
      var m := IdDates(ids, dates, n - 1);
      if Truthy(FieldAt(dates, n - 1)) then m[ids[n - 1] := FieldAt(dates, n - 1).text] else m
  }

  /** Some record among the first `n` has id `id` and a truthy date. */
  ghost predicate DatedId(ids: seq<string>, dates: seq<DateField>, n: nat, id: string)
    requires n <= |ids|
  {
    exists i :: 0 <= i < n && ids[i] == id && Truthy(FieldAt(dates, i))
  }

  lemma {:induction false} IdDatesKeys(ids: seq<string>, dates: seq<DateField>, n: nat)
    requires n <= |ids|
    ensures forall id :: id in IdDates(ids, dates, n) <==> DatedId(ids, dates, n, id)
  {
    if n > 0 {
      IdDatesKeys(ids, dates, n - 1);
      forall id ensures id in IdDates(ids, dates, n) <==> DatedId(ids, dates, n, id) {
        if DatedId(ids, dates, n, id) {
          var i :| 0 <= i < n && ids[i] == id && Truthy(FieldAt(dates, i));
          if i < n - 1 {
            assert DatedId(ids, dates, n - 1, id);
          }
        }
        if id in IdDates(ids, dates, n) && id !in IdDates(ids, dates, n - 1) {
          assert ids[n - 1] == id && Truthy(FieldAt(dates, n - 1));
        }
        if id in IdDates(ids, dates, n - 1) {
          assert DatedId(ids, dates, n - 1, id);
          var i :| 0 <= i < n - 1 && ids[i] == id && Truthy(FieldAt(dates, i));
        }
      }
    }
  }

  lemma {:induction false} IdDatesValues(ids: seq<string>, dates: seq<DateField>, n: nat)
    requires n <= |ids|
    ensures forall i :: 0 <= i < n && Truthy(FieldAt(dates, i)) && LastDated(ids, dates, n, i) ==>
          ids[i] in IdDates(ids, dates, n) && IdDates(ids, dates, n)[ids[i]] == FieldAt(dates, i).text
  {
    if n > 0 {
      IdDatesValues(ids, dates, n - 1);
      forall i | 0 <= i < n && Truthy(FieldAt(dates, i)) && LastDated(ids, dates, n, i)
        ensures ids[i] in IdDates(ids, dates, n) && IdDates(ids, dates, n)[ids[i]] == FieldAt(dates, i).text
      {
        if i < n - 1 {
          assert LastDated(ids, dates, n - 1, i);
          assert ids[i] != ids[n - 1] || !Truthy(FieldAt(dates, n - 1));
        }
      }
    }
  }

  /** `yearMonthToIndex` after the first `n` records: a bucket is set only when first seen. */
  ghost function FirstIndex(dates: seq<DateField>, n: nat): map<YearMonth, nat> {
    if n == 0 then map[]
    else
      var m := FirstIndex(dates, n - 1);
      match BucketAt(dates, n - 1)
      case Some(k) => if k in m then m else m[k := n - 1]
      case None => m
  }

  /** `yearSet` after the first `n` records. */
  ghost function YearSet(dates: seq<DateField>, n: nat): set<nat> {
    if n == 0 then {}
    else
      match BucketAt(dates, n - 1)
      case Some(k) => YearSet(dates, n - 1) + {k.year}
      case None => YearSet(dates, n - 1)
  }

  /** The month sets of `monthsByYear` after the first `n` records. */
  ghost function MonthSets(dates: seq<DateField>, n: nat): map<nat, set<nat>> {
    if n == 0 then map[]
    else
      var m := MonthSets(dates, n - 1);
      match BucketAt(dates, n - 1)
      case Some(k) => m[k.year := (if k.year in m then m[k.year] else {}) + {k.month}]
      case None => m
  }

  lemma {:induction false} FirstIndexMeaning(dates: seq<DateField>, n: nat)
    ensures FirstOccurrences(FirstIndex(dates, n), dates, n)
  {
    if n > 0 {
      FirstIndexMeaning(dates, n - 1);
      forall k ensures Occurs(dates, n, k) <==> Occurs(dates, n - 1, k) || BucketAt(dates, n - 1) == Some(k) {
        OccursStep(dates, n - 1, k);
      }
    }
  }

  lemma {:induction false} YearSetMeaning(dates: seq<DateField>, n: nat)
    ensures forall y :: y in YearSet(dates, n) <==> YearOccurs(dates, n, y)
  {
    if n > 0 {
      YearSetMeaning(dates, n - 1);
      forall y ensures y in YearSet(dates, n) <==> YearOccurs(dates, n, y) {
        YearOccursStep(dates, n - 1, y);
      }
    }
  }

  lemma OccursInItsYear(dates: seq<DateField>, n: nat, k: YearMonth)
    ensures Occurs(dates, n, k) ==> YearOccurs(dates, n, k.year)
  {
    if Occurs(dates, n, k) {
      var i :| 0 <= i < n && BucketAt(dates, i) == Some(k);
    }
  }

  lemma {:induction false} MonthSetsMeaning(dates: seq<DateField>, n: nat)
    ensures MonthSets(dates, n).Keys == YearSet(dates, n)
    ensures forall y, mo :: y in MonthSets(dates, n) ==>
      (mo in MonthSets(dates, n)[y] <==> Occurs(dates, n, YearMonth(y, mo)))
  {
    if n > 0 {
      MonthSetsMeaning(dates, n - 1);
      YearSetMeaning(dates, n - 1);
      forall y, mo | y in MonthSets(dates, n)
        ensures mo in MonthSets(dates, n)[y] <==> Occurs(dates, n, YearMonth(y, mo))
      {
        OccursStep(dates, n - 1, YearMonth(y, mo));
        OccursInItsYear(dates, n - 1, YearMonth(y, mo));
      }
    }
  }

  /** The `monthsByYear.forEach` pass: each month set becomes an increasing list. */
  method SortMonthSets(monthSets: map<nat, set<nat>>) returns (monthsByYear: map<nat, seq<nat>>)
    ensures monthsByYear.Keys == monthSets.Keys
    ensures forall y :: y in monthsByYear ==>
      Sorting.SortedBy(monthsByYear[y], Less) && forall mo :: mo in monthsByYear[y] <==> mo in monthSets[y]
  {
    NumericOrdersAreStrictTotal();
    monthsByYear := map[];
    var pending := monthSets.Keys;
    while pending != {}
      invariant pending <= monthSets.Keys
      invariant monthsByYear.Keys == monthSets.Keys - pending
      invariant forall y :: y in monthsByYear ==>
        Sorting.SortedBy(monthsByYear[y], Less) && forall mo :: mo in monthsByYear[y] <==> mo in monthSets[y]
      decreases |pending|
    {
      var y :| y in pending;
      var months := Sorting.SortBy(monthSets[y], Less);
      monthsByYear := monthsByYear[y := months];
      pending := pending - {y};
    }
  }

  /**
   * Builds the date index.  A missing `mediaListResponse` (or a missing list
   * in it) gives the same empty index as empty lists.
   */
  method BuildDateIndex(ids: seq<string>, dates: seq<DateField>) returns (idx: DateIndex)
    ensures IdDatesIndexed(idx.idToDate, ids, dates, |ids|)
    ensures FirstOccurrences(idx.yearMonthToIndex, dates, |ids|)
    ensures YearsListed(idx.years, dates, |ids|)
    ensures MonthsListed(idx.monthsByYear, dates, |ids|)
  {
    var idToDate: map<string, string> := map[];
    var yearMonthToIndex: map<YearMonth, nat> := map[];
    var yearSet: set<nat> := {};
    var monthSets: map<nat, set<nat>> := map[];
    var i := 0;
    while i < |ids|
      invariant i <= |ids|
      invariant idToDate == IdDates(ids, dates, i)
      invariant yearMonthToIndex == FirstIndex(dates, i)
      invariant yearSet == YearSet(dates, i)
      invariant monthSets == MonthSets(dates, i)
    {
      var id := ids[i];
      var date := FieldAt(dates, i);
      if Truthy(date) {
        idToDate := idToDate[id := date.text];
        if date.parsed.Some? {
          var ym := date.parsed.value;
          if ym !in yearMonthToIndex {
            yearMonthToIndex := yearMonthToIndex[ym := i];
          }
          yearSet := yearSet + {ym.year};
          if ym.year !in monthSets {
            monthSets := monthSets[ym.year := {}];
          }
          monthSets := monthSets[ym.year := monthSets[ym.year] + {ym.month}];
        }
      }
      i := i + 1;
    }

    IdDatesKeys(ids, dates, |ids|);
    IdDatesValues(ids, dates, |ids|);
    FirstIndexMeaning(dates, |ids|);
    YearSetMeaning(dates, |ids|);
    MonthSetsMeaning(dates, |ids|);
    NumericOrdersAreStrictTotal();
    var years := Sorting.SortBy(yearSet, Greater);
    var monthsByYear := SortMonthSets(monthSets);
    idx := DateIndex(idToDate, yearMonthToIndex, years, monthsByYear);
  }

  /** Every id with a truthy date has a last such record. */
  lemma {:induction false} LastDatedExists(ids: seq<string>, dates: seq<DateField>, n: nat, id: string)
    requires n <= |ids|
    requires DatedId(ids, dates, n, id)
    ensures exists i :: 0 <= i < n && ids[i] == id && Truthy(FieldAt(dates, i)) && LastDated(ids, dates, n, i)
  {
    if ids[n - 1] == id && Truthy(FieldAt(dates, n - 1)) {
      assert LastDated(ids, dates, n, n - 1);
    } else {
      var i :| 0 <= i < n && ids[i] == id && Truthy(FieldAt(dates, i));
      assert DatedId(ids, dates, n - 1, id);
      LastDatedExists(ids, dates, n - 1, id);
      var k :| 0 <= k < n - 1 && ids[k] == id && Truthy(FieldAt(dates, k)) && LastDated(ids, dates, n - 1, k);
      assert LastDated(ids, dates, n, k);
    }
  }

  /**
   * The index is determined by its inputs: the order in which the builder
   * visits its sets cannot change the result, so rebuilding on the same
   * lists gives the same index.
   */
  lemma IndexUnique(a: DateIndex, b: DateIndex, ids: seq<string>, dates: seq<DateField>)
    requires Indexes(a, ids, dates) && Indexes(b, ids, dates)
    ensures a == b
  {
    IdDatesUnique(a.idToDate, b.idToDate, ids, dates);
    FirstOccurrencesUnique(a.yearMonthToIndex, b.yearMonthToIndex, dates, |ids|);
    NumericOrdersAreStrictTotal();
    Sorting.SortedUnique(a.years, b.years, Greater);
    MonthsListedUnique(a.monthsByYear, b.monthsByYear, dates, |ids|);
  }

  lemma IdDatesUnique(a: map<string, string>, b: map<string, string>, ids: seq<string>, dates: seq<DateField>)
    requires IdDatesIndexed(a, ids, dates, |ids|) && IdDatesIndexed(b, ids, dates, |ids|)
    ensures a == b
  {
    forall id | id in a ensures id in b && a[id] == b[id] {
      LastDatedExists(ids, dates, |ids|, id);
    }
  }

  lemma FirstOccurrencesUnique(a: map<YearMonth, nat>, b: map<YearMonth, nat>, dates: seq<DateField>, n: nat)
    requires FirstOccurrences(a, dates, n) && FirstOccurrences(b, dates, n)
    ensures a == b
  {
    forall k | k in a ensures a[k] == b[k] {
      var i, j := a[k], b[k];
      assert !(i < j) && !(j < i);
    }
  }

  lemma MonthsListedUnique(a: map<nat, seq<nat>>, b: map<nat, seq<nat>>, dates: seq<DateField>, n: nat)
    requires MonthsListed(a, dates, n) && MonthsListed(b, dates, n)
    ensures a == b
  {
    NumericOrdersAreStrictTotal();
    forall y | y in a ensures a[y] == b[y] {
      Sorting.SortedUnique(a[y], b[y], Less);
    }
  }

  /** `getDateForId`. */
  function DateForId(idx: DateIndex, id: string): Option<string> {
    if id in idx.idToDate then Some(idx.idToDate[id]) else None
  }

  /**
   * On a built index, an id has a date exactly when one of its records has
   * a truthy date, even one that does not parse; the date given is that of
   * its last such record.
   */
  lemma DateForIdIsLastTruthyDate(idx: DateIndex, ids: seq<string>, dates: seq<DateField>, id: string)
    requires Indexes(idx, ids, dates)
    ensures DateForId(idx, id).Some? <==> DatedId(ids, dates, |ids|, id)
    ensures DateForId(idx, id).Some? ==>
      exists i :: 0 <= i < |ids| && ids[i] == id && LastDated(ids, dates, |ids|, i)
        && Truthy(FieldAt(dates, i)) && DateForId(idx, id).value == FieldAt(dates, i).text
  {
    if DatedId(ids, dates, |ids|, id) {
      LastDatedExists(ids, dates, |ids|, id);
    }
  }
}
