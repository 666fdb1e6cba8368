/**
 * The state the hook keeps for date navigation — the current year-month,
 * its label and the last scroll offset acted on — and the operations that
 * change it: initialisation from the index, scroll tracking, jumping to a
 * year-month, and stepping to the previous or next one.
 */
module Navigation {
  import opened Options
  import opened Calendar
  import opened DateIndexing
  import opened Enrichment
  import opened SeparatorLocation
  import opened ScrollMapping
  import Sorting

  /** `Array.prototype.indexOf`: the first position of `x`, or `-1`. */
  function IndexOf<T(==)>(s: seq<T>, x: T): (r: int)
    ensures -1 <= r < |s|
    ensures r == -1 <==> x !in s
    ensures r >= 0 ==> s[r] == x && x !in s[..r]
  {
    if s == [] then -1
    else if s[0] == x then 0
    else
      var i := IndexOf(s[1..], x);
      if i == -1 then -1
      else
        assert s[..i + 1] == [s[0]] + s[1..][..i];
        i + 1
  }

  /** The year-month the init effect starts from: the latest year and the first of its months, if that month is truthy. */
  function InitialMonth(idx: DateIndex): (r: Option<YearMonth>) {
    if |idx.years| == 0 then None
    else
      var mostRecentYear := idx.years[0];
      if mostRecentYear in idx.monthsByYear && |idx.monthsByYear[mostRecentYear]| > 0
         && idx.monthsByYear[mostRecentYear][0] != 0
      then Some(YearMonth(mostRecentYear, idx.monthsByYear[mostRecentYear][0]))
      else None
  }

  /**
   * On a built index the initial year-month is the earliest month of the
   * most recent year; there is none exactly when no record is dated or
   * that earliest month is 0, which the source's truthiness test rejects.
   */
  lemma InitialMonthIsLatestYearEarliestMonth(idx: DateIndex, ids: seq<string>, dates: seq<DateField>)
    requires YearsListed(idx.years, dates, |ids|) && MonthsListed(idx.monthsByYear, dates, |ids|)
    ensures InitialMonth(idx).Some? ==>
      && Occurs(dates, |ids|, InitialMonth(idx).value)
      && forall k :: Occurs(dates, |ids|, k) ==>
           k.year < InitialMonth(idx).value.year
           || (k.year == InitialMonth(idx).value.year && InitialMonth(idx).value.month <= k.month)
    ensures InitialMonth(idx).None? <==>
      (forall k :: !Occurs(dates, |ids|, k))
      || exists y :: Occurs(dates, |ids|, YearMonth(y, 0)) && forall k :: Occurs(dates, |ids|, k) ==> k.year <= y
  {
    var n := |ids|;
    forall k | Occurs(dates, n, k) ensures k.year in idx.years && k.year in idx.monthsByYear && k.month in idx.monthsByYear[k.year] {
      var i :| 0 <= i < n && BucketAt(dates, i) == Some(k);
      assert YearOccurs(dates, n, k.year);
    }
    if |idx.years| > 0 {
      var y := idx.years[0];
      assert YearOccurs(dates, n, y);
      var i :| 0 <= i < n && BucketAt(dates, i).Some? && BucketAt(dates, i).value.year == y;
      var k0 := BucketAt(dates, i).value;
      assert Occurs(dates, n, k0);
      var months := idx.monthsByYear[y];
      assert |months| > 0;
      var m0 := months[0];
      NumericOrdersAreStrictTotal();
      forall k | Occurs(dates, n, k) ensures k.year <= y && (k.year == y ==> m0 <= k.month) {
        var j :| 0 <= j < |idx.years| && idx.years[j] == k.year;
        Sorting.SortedNotBackward(idx.years, Greater, 0, j);
        if k.year == y {
          var t :| 0 <= t < |months| && months[t] == k.month;
          Sorting.SortedNotBackward(months, Less, 0, t);
        }
      }
      assert Occurs(dates, n, YearMonth(y, m0));
    }
  }

  /** `allYearMonths[currentIndex - 1]` when `currentIndex > 0`. */
  function StepBack(keys: seq<YearMonth>, current: YearMonth): (r: Option<YearMonth>) {
    var i := IndexOf(keys, current);
    if i > 0 then Some(keys[i - 1]) else None
  }

  /** `allYearMonths[currentIndex + 1]` when `currentIndex < allYearMonths.length - 1`. */
  function StepForward(keys: seq<YearMonth>, current: YearMonth): (r: Option<YearMonth>) {
    var i := IndexOf(keys, current);
    if i < |keys| - 1 then Some(keys[i + 1]) else None
  }

  /** `p` is the greatest key of `s` below `c`. */
  ghost predicate IsPredecessor(s: set<YearMonth>, c: YearMonth, p: YearMonth) {
    p in s && KeyBefore(p, c) && forall k :: k in s && KeyBefore(k, c) ==> !KeyBefore(p, k)
  }

  /** `q` is the least key of `s` above `c`. */
  ghost predicate IsSuccessor(s: set<YearMonth>, c: YearMonth, q: YearMonth) {
    q in s && KeyBefore(c, q) && forall k :: k in s && KeyBefore(c, k) ==> !KeyBefore(k, q)
  }

  lemma IndexOfSorted(keys: seq<YearMonth>, j: nat)
    requires Sorting.SortedBy(keys, KeyBefore) && j < |keys|
    ensures IndexOf(keys, keys[j]) == j
  {
    KeyOrdersAreStrictTotal();
    Sorting.SortedDistinct(keys, KeyBefore);
  }

  /**
   * On the sorted keys, stepping back from a present key gives its
   * predecessor, and there is one exactly when some key lies below it; from
   * an absent key there is no step back.
   */
  lemma StepBackIsPredecessor(keys: seq<YearMonth>, c: YearMonth)
    requires Sorting.SortedBy(keys, KeyBefore)
    ensures StepBack(keys, c).Some? <==> c in keys && exists k :: k in keys && KeyBefore(k, c)
    ensures StepBack(keys, c).Some? ==> IsPredecessor(Sorting.Elements(keys), c, StepBack(keys, c).value)
  {
    KeyOrdersAreStrictTotal();
    var i := IndexOf(keys, c);
    if c in keys {
      forall j | 0 <= j < |keys| && KeyBefore(keys[j], c) ensures j < i && !KeyBefore(keys[i - 1], keys[j]) {
        if i <= j {
          Sorting.SortedNotBackward(keys, KeyBefore, i, j);
        }
        if j <= i - 1 {
          Sorting.SortedNotBackward(keys, KeyBefore, j, i - 1);
        }
      }
      if i > 0 {
        assert KeyBefore(keys[i - 1], keys[i]);
      }
    }
  }

  /**
   * On the sorted keys, stepping forward from a present key gives its
   * successor, and there is one exactly when some key lies above it; from
   * an absent key it gives the least key, when there is any.
   */
  lemma StepForwardIsSuccessor(keys: seq<YearMonth>, c: YearMonth)
    requires Sorting.SortedBy(keys, KeyBefore)
    ensures c in keys ==> (StepForward(keys, c).Some? <==> exists k :: k in keys && KeyBefore(c, k))
    ensures c in keys && StepForward(keys, c).Some? ==>
      IsSuccessor(Sorting.Elements(keys), c, StepForward(keys, c).value)
    ensures c !in keys ==> (StepForward(keys, c).Some? <==> keys != [])
    ensures c !in keys && keys != [] ==>
      StepForward(keys, c) == Some(keys[0]) && Sorting.IsLeast(keys[0], Sorting.Elements(keys), KeyBefore)
  {
    KeyOrdersAreStrictTotal();
    var i := IndexOf(keys, c);
    if c in keys {
      forall j | 0 <= j < |keys| && KeyBefore(c, keys[j]) ensures i < j && !KeyBefore(keys[j], keys[i + 1]) {
        if j <= i {
          Sorting.SortedNotBackward(keys, KeyBefore, j, i);
        }
        if i + 1 <= j {
          Sorting.SortedNotBackward(keys, KeyBefore, i + 1, j);
        }
      }
      if i < |keys| - 1 {
        assert KeyBefore(keys[i], keys[i + 1]);
      }
    } else if keys != [] {
      Sorting.HeadIsLeast(keys, KeyBefore);
    }
  }

  /** Stepping back then forward returns to where one started, and so does forward then back. */
  lemma StepsUndoEachOther(keys: seq<YearMonth>, c: YearMonth)
    requires Sorting.SortedBy(keys, KeyBefore)
    ensures StepBack(keys, c).Some? ==> StepForward(keys, StepBack(keys, c).value) == Some(c)
    ensures c in keys && StepForward(keys, c).Some? ==> StepBack(keys, StepForward(keys, c).value) == Some(c)
  {
    var i := IndexOf(keys, c);
    if i > 0 {
      IndexOfSorted(keys, i - 1);
      assert StepBack(keys, c) == Some(keys[i - 1]);
      assert keys[i] == c;
    }
    if 0 <= i < |keys| - 1 {
      IndexOfSorted(keys, i + 1);
      assert StepForward(keys, c) == Some(keys[i + 1]);
      assert keys[i] == c;
    }
  }

  /**
   * The item position `scrollToYearMonth` scrolls to: the separator's
   * position when the bucket has one, else the first record's position in
   * `mediaIds`.
   */
  function ScrollTarget(yearMonth: YearMonth, idx: DateIndex, separators: map<YearMonth, nat>): (r: Option<nat>) {
    if yearMonth in separators then Some(separators[yearMonth])
    else if yearMonth in idx.yearMonthToIndex then Some(idx.yearMonthToIndex[yearMonth])
    else None
  }

  /**
   * When the index, the enriched list and the separator positions all come
   * from the same records, and the grid has as many columns as the list was
   * laid out for, a jump to a bucket with dated records always finds its
   * separator, and the row it scrolls to starts with that separator; the
   * fallback to `yearMonthToIndex` is then never taken.
   */
  lemma ScrollLandsOnSeparator(idx: DateIndex, ids: seq<string>, dates: seq<DateField>,
                               items: seq<GalleryItem>, separators: map<YearMonth, nat>, cols: nat, yearMonth: YearMonth)
    requires cols >= 1
    requires FirstOccurrences(idx.yearMonthToIndex, dates, |ids|)
    requires Contiguous(items) && RowAligned(items, cols) && SeparatorsDescending(items)
    requires forall k :: HasSeparator(items, k) <==> Occurs(dates, |ids|, k)
    requires forall k :: k in separators <==> HasSeparator(items, k)
    requires forall k :: k in separators ==> LastSeparatorAt(items, k, separators[k])
    ensures ScrollTarget(yearMonth, idx, separators).Some? <==> Occurs(dates, |ids|, yearMonth)
    ensures yearMonth in idx.yearMonthToIndex <==> yearMonth in separators
    ensures ScrollTarget(yearMonth, idx, separators).Some? ==>
      var t := ScrollTarget(yearMonth, idx, separators).value;
      && t < |items| && items[t].Separator? && items[t].yearMonth == yearMonth
      && (t / cols) * cols == t
  {
    var n := |ids|;
    assert yearMonth in idx.yearMonthToIndex <==> Occurs(dates, n, yearMonth);
    if yearMonth in separators {
      var t := separators[yearMonth];
      assert LastSeparatorAt(items, yearMonth, t);
      assert t % cols == 0;
      RowStart(t, cols);
    }
  }

  lemma RowStart(t: nat, cols: nat)
    requires cols >= 1 && t % cols == 0
    ensures (t / cols) * cols == t
  {
  }

  /** The hook's navigation state. */
  class Navigator {
    /** `currentYearMonth`, as the pair its key string encodes. */
    var current: Option<YearMonth>
    /** `currentYearMonthLabel`. */
    var currentLabel: Option<string>
    /** `lastScrollPositionRef.current`. */
    var lastScroll: nat

    /** The label shows the current year-month. */
    ghost predicate LabelMatches()
      reads this
    {
      currentLabel == if current.Some? then Some(Label(current.value)) else None
    }

    constructor ()
      ensures current == None && currentLabel == None && lastScroll == 0
      ensures LabelMatches()
    {
      current := None;
      currentLabel := None;
      lastScroll := 0;
    }

    /** `setCurrentYearMonth`, handed out as is: the currentLabel is left alone. */
    method SetCurrent(yearMonth: Option<YearMonth>)
      modifies this
      ensures current == yearMonth && currentLabel == old(currentLabel) && lastScroll == old(lastScroll)
    {
      current := yearMonth;
    }

    /** The effect that picks a starting year-month once the index is known. */
    method InitCurrent(idx: DateIndex)
      modifies this
      ensures old(current).None? && InitialMonth(idx).Some? ==>
        current == InitialMonth(idx) && currentLabel == Some(Label(InitialMonth(idx).value))
      ensures old(current).Some? || InitialMonth(idx).None? ==>
        current == old(current) && currentLabel == old(currentLabel)
      ensures lastScroll == old(lastScroll)
      ensures old(LabelMatches()) ==> LabelMatches()
    {
      if current.None? && |idx.years| > 0 {
        var mostRecentYear := idx.years[0];
        if mostRecentYear in idx.monthsByYear && |idx.monthsByYear[mostRecentYear]| > 0 {
          var firstAvailableMonth := idx.monthsByYear[mostRecentYear][0];
          if firstAvailableMonth != 0 {
            var initialYearMonth := YearMonth(mostRecentYear, firstAvailableMonth);
            current := Some(initialYearMonth);
            currentLabel := Some(Label(initialYearMonth));
          }
        }
      }
    }

    /**
     * The throttled scroll handler: offsets within 50 of the last one acted
     * on are ignored; otherwise the offset is recorded and, when the
     * estimate yields a bucket other than the current one, it becomes
     * current with its currentLabel.
     */
    method OnScroll(scrollTop: nat, grid: Option<Grid>, items: seq<GalleryItem>)
      modifies this
      ensures Distance(scrollTop, old(lastScroll)) <= 50 ==>
        current == old(current) && currentLabel == old(currentLabel) && lastScroll == old(lastScroll)
      ensures Distance(scrollTop, old(lastScroll)) > 50 ==> lastScroll == scrollTop
      ensures (Distance(scrollTop, old(lastScroll)) > 50
        && (grid.None? || grid.value.rowHeight == 0 || !AnySeparator(items, |items|)))
        ==> current == old(current) && currentLabel == old(currentLabel)
      ensures (Distance(scrollTop, old(lastScroll)) > 50
        && grid.Some? && grid.value.rowHeight > 0 && AnySeparator(items, |items|))
        ==> exists p: nat :: (Nearest(items, |items|, EstimatedIndex(scrollTop, grid.value), p)
          && current == Some(items[p].yearMonth))
      ensures current != old(current) ==> current.Some? && currentLabel == Some(Label(current.value))
      ensures current == old(current) ==> currentLabel == old(currentLabel)
      ensures old(LabelMatches()) ==> LabelMatches()
    {
      if Distance(scrollTop, lastScroll) > 50 {
        lastScroll := scrollTop;
        var newYearMonth := YearMonthFromScroll(scrollTop, grid, items);
        if newYearMonth.Some? && newYearMonth != current {
          current := newYearMonth;
          currentLabel := Some(Label(newYearMonth.value));
        }
      }
    }

    /**
     * `scrollToYearMonth`: with a grid and a known position for the
     * bucket, scroll so that the position's row comes first, make the
     * bucket current and report success; otherwise change nothing.  The
     * returned row is the `rowIndex` handed to `scrollToItem`.
     */
    method ScrollTo(year: nat, month: nat, grid: Option<Grid>, idx: DateIndex, separators: map<YearMonth, nat>)
      returns (ok: bool, rowIndex: Option<nat>)
      modifies this
      ensures ok <==> grid.Some? && ScrollTarget(YearMonth(year, month), idx, separators).Some?
      ensures ok ==>
        && rowIndex == Some(ScrollTarget(YearMonth(year, month), idx, separators).value / grid.value.columnCount)
        && current == Some(YearMonth(year, month))
        && currentLabel == Some(Label(YearMonth(year, month)))
      ensures !ok ==> rowIndex == None && current == old(current) && currentLabel == old(currentLabel)
      ensures lastScroll == old(lastScroll)
      ensures old(LabelMatches()) ==> LabelMatches()
    {
      var yearMonth := YearMonth(year, month);
      if yearMonth in separators && grid.Some? {
        var separatorIndex := separators[yearMonth];
        rowIndex := Some(separatorIndex / grid.value.columnCount);
        current := Some(yearMonth);
        currentLabel := Some(Label(yearMonth));
        return true, rowIndex;
      }
      if yearMonth in idx.yearMonthToIndex && grid.Some? {
        var mediaIndex := idx.yearMonthToIndex[yearMonth];
        rowIndex := Some(mediaIndex / grid.value.columnCount);
        current := Some(yearMonth);
        currentLabel := Some(Label(yearMonth));
        return true, rowIndex;
      }
      return false, None;
    }

    /**
     * `navigateToPreviousMonth`: with a current year-month and a grid, jump
     * to the bucket just before it in key order, if there is one.
     */
    method Previous(grid: Option<Grid>, idx: DateIndex, separators: map<YearMonth, nat>)
      returns (ok: bool, rowIndex: Option<nat>)
      modifies this
      ensures ok <==> (grid.Some? && old(current).Some? && old(current).value in idx.yearMonthToIndex
        && exists k :: k in idx.yearMonthToIndex && KeyBefore(k, old(current).value))
      ensures ok ==>
        && current.Some?
        && IsPredecessor(idx.yearMonthToIndex.Keys, old(current).value, current.value)
        && currentLabel == Some(Label(current.value))
        && rowIndex == Some(ScrollTarget(current.value, idx, separators).value / grid.value.columnCount)
      ensures !ok ==> rowIndex == None && current == old(current) && currentLabel == old(currentLabel)
      ensures lastScroll == old(lastScroll)
      ensures old(LabelMatches()) ==> LabelMatches()
    {
      if current.None? || grid.None? {
        return false, None;
      }
      var currentYearMonth := current.value;
      KeyOrdersAreStrictTotal();
      var allYearMonths := Sorting.SortBy(idx.yearMonthToIndex.Keys, KeyBefore);
      assert Sorting.Elements(allYearMonths) == idx.yearMonthToIndex.Keys;
      StepBackIsPredecessor(allYearMonths, currentYearMonth);
      var currentIndex := IndexOf(allYearMonths, currentYearMonth);
      if currentIndex > 0 {
        var previousYearMonth := allYearMonths[currentIndex - 1];
        assert StepBack(allYearMonths, currentYearMonth) == Some(previousYearMonth);
        ok, rowIndex := ScrollTo(previousYearMonth.year, previousYearMonth.month, grid, idx, separators);
      } else {
        return false, None;
      }
    }

    /**
     * `navigateToNextMonth`: with a current year-month and a grid, jump to
     * the bucket just after it in key order, if there is one.  A current
     * year-month that is not a bucket has index `-1`, so the jump goes to
     * the least key.
     */
    method Next(grid: Option<Grid>, idx: DateIndex, separators: map<YearMonth, nat>)
      returns (ok: bool, rowIndex: Option<nat>)
      modifies this
      ensures old(current).None? || grid.None? ==> !ok
      ensures grid.Some? && old(current).Some? && old(current).value in idx.yearMonthToIndex ==>
        (ok <==> exists k :: k in idx.yearMonthToIndex && KeyBefore(old(current).value, k))
      ensures grid.Some? && old(current).Some? && old(current).value !in idx.yearMonthToIndex ==>
        (ok <==> |idx.yearMonthToIndex| > 0)
      ensures ok && old(current).value in idx.yearMonthToIndex ==>
        current.Some? && IsSuccessor(idx.yearMonthToIndex.Keys, old(current).value, current.value)
      ensures ok && old(current).value !in idx.yearMonthToIndex ==>
        current.Some? && Sorting.IsLeast(current.value, idx.yearMonthToIndex.Keys, KeyBefore)
      ensures ok ==>
        && current.Some?
        && currentLabel == Some(Label(current.value))
        && rowIndex == Some(ScrollTarget(current.value, idx, separators).value / grid.value.columnCount)
      ensures !ok ==> rowIndex == None && current == old(current) && currentLabel == old(currentLabel)
      ensures lastScroll == old(lastScroll)
      ensures old(LabelMatches()) ==> LabelMatches()
    {
      if current.None? || grid.None? {
        return false, None;
      }
      var currentYearMonth := current.value;
      KeyOrdersAreStrictTotal();
      var allYearMonths := Sorting.SortBy(idx.yearMonthToIndex.Keys, KeyBefore);
      assert Sorting.Elements(allYearMonths) == idx.yearMonthToIndex.Keys;
      StepForwardIsSuccessor(allYearMonths, currentYearMonth);
      var currentIndex := IndexOf(allYearMonths, currentYearMonth);
      if currentIndex < |allYearMonths| - 1 {
        var nextYearMonth := allYearMonths[currentIndex + 1];
        assert StepForward(allYearMonths, currentYearMonth) == Some(nextYearMonth);
        ok, rowIndex := ScrollTo(nextYearMonth.year, nextYearMonth.month, grid, idx, separators);
      } else {
        return false, None;
      }
    }
  }
}
