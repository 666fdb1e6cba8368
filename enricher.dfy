/**
 * The `enrichedGalleryItems` memo of `useMediaDates`: the dated records
 * grouped by year-month, most recent group first, each group introduced by a
 * separator that starts a grid row of `columnsCount` cells, with empty
 * cells inserted before a separator whenever the previous group did not
 * fill its last row.
 */
module Enrichment {
  import opened Options
  import opened Text
  import opened Calendar
  import Sorting

  /**
   * One cell of the grid.  A media cell keeps its record's position in
   * `mediaIds` (`-1` for an empty cell); a separator carries its own
   * position, which the source stores in its `index` field; `caption` is
   * the source's `label` (a reserved word here).
   */
  datatype GalleryItem =
    | Media(id: string, originalIndex: int, actualIndex: nat)
    | Separator(yearMonth: YearMonth, caption: string, actualIndex: nat)

  /** The `{ id, index }` the first pass records per dated media. */
  datatype Entry = Entry(id: string, index: nat)

  /** The id of the empty cell at position `n`: `empty-${actualIndex}`. */
  function PaddingId(n: nat): string {
    "empty-" + Digits(n)
  }

  predicate IsPadding(item: GalleryItem) {
    item.Media? && item.originalIndex == -1
  }

  predicate IsReal(item: GalleryItem) {
    item.Media? && item.originalIndex >= 0
  }

  /** The records of bucket `k` among the first `n`, in their original order. */
  ghost function Entries(ids: seq<string>, dates: seq<DateField>, k: YearMonth, n: nat): seq<Entry>
    requires n <= |ids|
  {
    if n == 0 then []
    else if BucketAt(dates, n - 1) == Some(k) then Entries(ids, dates, k, n - 1) + [Entry(ids[n - 1], n - 1)]
    else Entries(ids, dates, k, n - 1)
  }

  /**
   * `Entries` lists exactly the records of bucket `k`, each once, in
   * increasing original position.
   */
  lemma {:induction false} EntriesMeaning(ids: seq<string>, dates: seq<DateField>, k: YearMonth, n: nat)
    requires n <= |ids|
    ensures forall j :: 0 <= j < |Entries(ids, dates, k, n)| ==>
      var e := Entries(ids, dates, k, n)[j];
      e.index < n && e.id == ids[e.index] && BucketAt(dates, e.index) == Some(k)
    ensures forall a, b :: 0 <= a < b < |Entries(ids, dates, k, n)| ==>
      Entries(ids, dates, k, n)[a].index < Entries(ids, dates, k, n)[b].index
    ensures forall i :: 0 <= i < n && BucketAt(dates, i) == Some(k) ==>
      exists j :: 0 <= j < |Entries(ids, dates, k, n)| && Entries(ids, dates, k, n)[j].index == i
    ensures Entries(ids, dates, k, n) != [] <==> Occurs(dates, n, k)
  {
    if n > 0 {
      EntriesMeaning(ids, dates, k, n - 1);
      OccursStep(dates, n - 1, k);
      var prev := Entries(ids, dates, k, n - 1);
      var cur := Entries(ids, dates, k, n);
      forall i | 0 <= i < n && BucketAt(dates, i) == Some(k)
        ensures exists j :: 0 <= j < |cur| && cur[j].index == i
      {
        if i < n - 1 {
          var j :| 0 <= j < |prev| && prev[j].index == i;
          assert cur[j] == prev[j];
        } else {
          assert cur[|cur| - 1].index == i;
        }
      }
    }
  }

  /** First pass: `mediaByYearMonth`, the dated records grouped by bucket. */
  method GroupByMonth(ids: seq<string>, dates: seq<DateField>) returns (groups: map<YearMonth, seq<Entry>>)
    ensures forall k :: k in groups <==> Occurs(dates, |ids|, k)
    ensures forall k :: k in groups ==> groups[k] == Entries(ids, dates, k, |ids|)
  {
    groups := map[];
    var i := 0;
    while i < |ids|
      invariant i <= |ids|
      invariant forall k :: k in groups <==> Entries(ids, dates, k, i) != []
      invariant forall k :: k in groups ==> groups[k] == Entries(ids, dates, k, i)
    {
      var id := ids[i];
      var date := FieldAt(dates, i);
      if Truthy(date) && date.parsed.Some? {
        var yearMonth := date.parsed.value;
        if yearMonth !in groups {
          groups := groups[yearMonth := []];
        }
        groups := groups[yearMonth := groups[yearMonth] + [Entry(id, i)]];
      }
      i := i + 1;
    }
    forall k ensures Entries(ids, dates, k, |ids|) != [] <==> Occurs(dates, |ids|, k) {
      EntriesMeaning(ids, dates, k, |ids|);
    }
  }

  /** Empty cells needed before a separator placed after `start` items. */
  function PadCount(start: nat, cols: nat): nat
    requires cols >= 1
  {
    if start % cols == 0 then 0 else cols - start % cols
  }

  /** The position that starts the row after the one holding position `p`. */
  function NextRowStart(p: nat, cols: nat): nat
    requires cols >= 1
  {
    p - p % cols + cols
  }

  lemma MulBounds(d: int, b: int)
    requires b >= 0
    ensures d >= 1 ==> d * b >= b
    ensures d <= -1 ==> d * b <= -b
  {
  }

  lemma ModOfMultiplePlus(c: nat, cols: nat, x: nat)
    requires cols >= 1 && x < cols
    ensures (c * cols + x) % cols == x
  {
    var a := c * cols + x;
    var d := c - a / cols;
    assert a == (a / cols) * cols + a % cols;
    assert d * cols == a % cols - x;
    MulBounds(d, cols);
  }

  /** Padding ends exactly at a row start and is shorter than a row. */
  lemma PadAligns(start: nat, cols: nat)
    requires cols >= 1
    ensures (start + PadCount(start, cols)) % cols == 0
    ensures PadCount(start, cols) < cols
    ensures PadCount(start, cols) > 0 <==> start % cols != 0
  {
    var c, r := start / cols, start % cols;
    assert start == c * cols + r;
    if r != 0 {
      assert start + PadCount(start, cols) == (c + 1) * cols + 0;
      ModOfMultiplePlus(c + 1, cols, 0);
    }
  }

  /** Every empty cell sits inside the row that the next separator completes. */
  lemma WithinPadding(start: nat, j: nat, cols: nat)
    requires cols >= 1
    requires j < PadCount(start, cols)
    ensures (start + j) % cols != 0
    ensures NextRowStart(start + j, cols) == start + PadCount(start, cols)
  {
    var c, r := start / cols, start % cols;
    assert start == c * cols + r;
    assert start + j == c * cols + (r + j);
    ModOfMultiplePlus(c, cols, r + j);
  }

  function Padding(start: nat, count: nat): seq<GalleryItem> {
    seq(count, j requires 0 <= j < count => Media(PaddingId(start + j), -1, start + j))
  }

  function MediaRun(entries: seq<Entry>, base: nat): seq<GalleryItem> {
    seq(|entries|, j requires 0 <= j < |entries| => Media(entries[j].id, entries[j].index, base + j))
  }

  lemma PaddingSnoc(start: nat, count: nat)
    ensures Padding(start, count + 1) == Padding(start, count) + [Media(PaddingId(start + count), -1, start + count)]
  {
  }

  lemma MediaRunSnoc(entries: seq<Entry>, m: nat, base: nat)
    requires m < |entries|
    ensures MediaRun(entries[..m + 1], base) == MediaRun(entries[..m], base) + [Media(entries[m].id, entries[m].index, base + m)]
  {
  }

  /** What one turn of the second pass appends after `start` items. */
  function Block(start: nat, k: YearMonth, entries: seq<Entry>, cols: nat): seq<GalleryItem>
    requires cols >= 1
  {
    var pad := PadCount(start, cols);
    Padding(start, pad) + [Separator(k, Label(k), start + pad)] + MediaRun(entries, start + pad + 1)
  }

  /** The enriched list the second pass builds from the buckets `keys`, in that order. */
  ghost function Layout(keys: seq<YearMonth>, ids: seq<string>, dates: seq<DateField>, cols: nat): seq<GalleryItem>
    requires cols >= 1
    decreases |keys|
  {
    if keys == [] then []
    else
      var pre := Layout(keys[..|keys| - 1], ids, dates, cols);
      var k := keys[|keys| - 1];
      pre + Block(|pre|, k, Entries(ids, dates, k, |ids|), cols)
  }

  /** Empty cells from position `|items0|` up to the next row start. */
  method AppendPadding(items0: seq<GalleryItem>, cols: nat) returns (items: seq<GalleryItem>)
    requires cols >= 1
    ensures items == items0 + Padding(|items0|, PadCount(|items0|, cols))
  {
    items := items0;
    var actualIndex := |items|;
    assert Padding(|items0|, 0) == [];
    if |items| % cols != 0 {
      var itemsToAdd := cols - |items| % cols;
      var j := 0;
      while j < itemsToAdd
        invariant j <= itemsToAdd
        invariant actualIndex == |items|
        invariant items == items0 + Padding(|items0|, j)
      {
        PaddingSnoc(|items0|, j);
        items := items + [Media(PaddingId(actualIndex), -1, actualIndex)];
        actualIndex := actualIndex + 1;
        j := j + 1;
      }
    }
  }

  /** A bucket's media, in order, from position `|items0|` on. */
  method AppendMedia(items0: seq<GalleryItem>, mediaItems: seq<Entry>) returns (items: seq<GalleryItem>)
    ensures items == items0 + MediaRun(mediaItems, |items0|)
  {
    items := items0;
    var actualIndex := |items|;
    assert MediaRun(mediaItems[..0], |items0|) == [];
    var m := 0;
    while m < |mediaItems|
      invariant m <= |mediaItems|
      invariant actualIndex == |items|
      invariant items == items0 + MediaRun(mediaItems[..m], |items0|)
    {
      MediaRunSnoc(mediaItems, m, |items0|);
      items := items + [Media(mediaItems[m].id, mediaItems[m].index, actualIndex)];
      actualIndex := actualIndex + 1;
      m := m + 1;
    }
    assert mediaItems[..m] == mediaItems;
  }

  /**
   * One turn of the second pass: empty cells up to the next row start, the
   * bucket's separator, then its media in original order.
   */
  method AppendGroup(items0: seq<GalleryItem>, yearMonth: YearMonth, mediaItems: seq<Entry>, cols: nat)
    returns (items: seq<GalleryItem>)
    requires cols >= 1
    ensures items == items0 + Block(|items0|, yearMonth, mediaItems, cols)
  {
    items := AppendPadding(items0, cols);
    ghost var padding := Padding(|items0|, PadCount(|items0|, cols));
    var actualIndex := |items|;
    ghost var sep := Separator(yearMonth, Label(yearMonth), actualIndex);
    items := items + [Separator(yearMonth, Label(yearMonth), actualIndex)];
    ghost var withSeparator := items;
    items := AppendMedia(items, mediaItems);
    ghost var run := MediaRun(mediaItems, |withSeparator|);
    assert items == (items0 + padding + [sep]) + run;
    assert Block(|items0|, yearMonth, mediaItems, cols) == padding + [sep] + run;
  }

  /**
   * `enrichedGalleryItems` for `columnsCount = cols`.  The ghost `keys` are
   * the buckets in the order the second pass visits them.
   */
  method Enrich(ids: seq<string>, dates: seq<DateField>, cols: nat)
    returns (items: seq<GalleryItem>, ghost keys: seq<YearMonth>)
    requires cols >= 1
    ensures Sorting.SortedBy(keys, KeyAfter)
    ensures forall k :: k in keys <==> Occurs(dates, |ids|, k)
    ensures items == Layout(keys, ids, dates, cols)
    ensures Contiguous(items) && RowAligned(items, cols) && PaddingFillsRow(items, cols) && WellFormedCells(items)
    ensures forall k :: HasSeparator(items, k) <==> Occurs(dates, |ids|, k)
    ensures SeparatorsDescending(items)
    ensures RealItemsPlaced(items, ids, dates)
    ensures EachDatedRecordOnce(items, ids, dates)
    ensures OriginalOrderKept(items, dates)
  {
    var mediaByYearMonth := GroupByMonth(ids, dates);
    KeyOrdersAreStrictTotal();
    var sortedYearMonths := Sorting.SortBy(mediaByYearMonth.Keys, KeyAfter);
    keys := sortedYearMonths;
    items := AppendGroups(mediaByYearMonth, sortedYearMonths, ids, dates, cols);
    LayoutShape(keys, ids, dates, cols);
  }

  /** The second pass: one group after another, in the order given. */
  method AppendGroups(mediaByYearMonth: map<YearMonth, seq<Entry>>, sortedYearMonths: seq<YearMonth>,
                      ids: seq<string>, dates: seq<DateField>, cols: nat)
    returns (items: seq<GalleryItem>)
    requires cols >= 1
    requires forall k :: k in sortedYearMonths ==>
      k in mediaByYearMonth && mediaByYearMonth[k] == Entries(ids, dates, k, |ids|)
    ensures items == Layout(sortedYearMonths, ids, dates, cols)
  {
    items := [];
    var actualIndex := 0;
    var g := 0;
    while g < |sortedYearMonths|
      invariant g <= |sortedYearMonths|
      invariant actualIndex == |items|
      invariant items == Layout(sortedYearMonths[..g], ids, dates, cols)
    {
      var yearMonth := sortedYearMonths[g];
      items := AppendGroup(items, yearMonth, mediaByYearMonth[yearMonth], cols);
      actualIndex := |items|;
      assert sortedYearMonths[..g + 1][..g] == sortedYearMonths[..g];
      g := g + 1;
    }
    assert sortedYearMonths[..g] == sortedYearMonths;
  }

  // Structural properties of an enriched list.

  /** Each cell's recorded position is its position in the list. */
  ghost predicate Contiguous(items: seq<GalleryItem>) {
    forall p :: 0 <= p < |items| ==> items[p].actualIndex == p
  }

  /** Every separator starts a grid row. */
  ghost predicate RowAligned(items: seq<GalleryItem>, cols: nat)
    requires cols >= 1
  {
    forall p :: 0 <= p < |items| && items[p].Separator? ==> p % cols == 0
  }

  /**
   * An empty cell never starts a row, carries the id of its position, and
   * is followed only by empty cells up to the next row start, where a
   * separator stands: padding runs are 1 to `cols - 1` cells long and sit
   * right before a separator.
   */
  ghost predicate PaddingFillsRow(items: seq<GalleryItem>, cols: nat)
    requires cols >= 1
  {
    forall p :: 0 <= p < |items| && IsPadding(items[p]) ==> PaddingCellFillsRow(items, cols, p)
  }

  /** The list opens with a separator, every separator is labelled by its bucket, every media cell is empty or real. */
  ghost predicate WellFormedCells(items: seq<GalleryItem>) {
    && (|items| > 0 ==> items[0].Separator?)
    && (forall p :: 0 <= p < |items| && items[p].Separator? ==> items[p].caption == Label(items[p].yearMonth))
    && (forall p :: 0 <= p < |items| && items[p].Media? ==> items[p].originalIndex >= -1)
  }

  lemma BlockItems(start: nat, k: YearMonth, entries: seq<Entry>, cols: nat)
    requires cols >= 1
    ensures var pad := PadCount(start, cols);
      var b := Block(start, k, entries, cols);
      && |b| == pad + 1 + |entries|
      && (forall j :: 0 <= j < pad ==> b[j] == Media(PaddingId(start + j), -1, start + j))
      && b[pad] == Separator(k, Label(k), start + pad)
      && (forall j :: 0 <= j < |entries| ==>
            b[pad + 1 + j] == Media(entries[j].id, entries[j].index, start + pad + 1 + j))
  {
  }

  lemma {:induction false} LayoutContiguous(keys: seq<YearMonth>, ids: seq<string>, dates: seq<DateField>, cols: nat)
    requires cols >= 1
    ensures Contiguous(Layout(keys, ids, dates, cols))
    decreases |keys|
  {
    if keys != [] {
      var init, k := keys[..|keys| - 1], keys[|keys| - 1];
      var pre := Layout(init, ids, dates, cols);
      var blk := Block(|pre|, k, Entries(ids, dates, k, |ids|), cols);
      var all := Layout(keys, ids, dates, cols);
      assert all == pre + blk;
      LayoutContiguous(init, ids, dates, cols);
      BlockItems(|pre|, k, Entries(ids, dates, k, |ids|), cols);
      forall p | 0 <= p < |all| ensures all[p].actualIndex == p {
        if p < |pre| {
          assert all[p] == pre[p];
        } else {
          assert all[p] == blk[p - |pre|];
        }
      }
    }
  }

  lemma {:induction false} LayoutRowAligned(keys: seq<YearMonth>, ids: seq<string>, dates: seq<DateField>, cols: nat)
    requires cols >= 1
    ensures RowAligned(Layout(keys, ids, dates, cols), cols)
    decreases |keys|
  {
    if keys != [] {
      var init, k := keys[..|keys| - 1], keys[|keys| - 1];
      var pre := Layout(init, ids, dates, cols);
      var blk := Block(|pre|, k, Entries(ids, dates, k, |ids|), cols);
      var all := Layout(keys, ids, dates, cols);
      assert all == pre + blk;
      LayoutRowAligned(init, ids, dates, cols);
      BlockItems(|pre|, k, Entries(ids, dates, k, |ids|), cols);
      PadAligns(|pre|, cols);
      forall p | 0 <= p < |all| && all[p].Separator? ensures p % cols == 0 {
        if p < |pre| {
          assert all[p] == pre[p];
        } else {
          assert all[p] == blk[p - |pre|];
        }
      }
    }
  }

  /** An empty cell at `p`, with what `PaddingFillsRow` asks of it. */
  ghost predicate PaddingCellFillsRow(items: seq<GalleryItem>, cols: nat, p: nat)
    requires cols >= 1 && p < |items|
  {
    && IsPadding(items[p])
    && items[p].id == PaddingId(p)
    && p % cols != 0
    && NextRowStart(p, cols) < |items|
    && items[NextRowStart(p, cols)].Separator?
    && forall r :: p <= r < NextRowStart(p, cols) ==> IsPadding(items[r])
  }

  lemma PaddingFillsRowExtends(pre: seq<GalleryItem>, rest: seq<GalleryItem>, cols: nat, p: nat)
    requires cols >= 1 && p < |pre| && IsPadding(pre[p])
    requires PaddingFillsRow(pre, cols)
    ensures PaddingCellFillsRow(pre + rest, cols, p)
  {
    var all := pre + rest;
    forall r | p <= r <= NextRowStart(p, cols) ensures all[r] == pre[r] { }
  }

  lemma BlockPaddingFillsRow(pre: seq<GalleryItem>, k: YearMonth, entries: seq<Entry>, cols: nat, p: nat)
    requires cols >= 1
    requires |pre| <= p < |pre| + |Block(|pre|, k, entries, cols)|
    requires IsPadding((pre + Block(|pre|, k, entries, cols))[p])
    ensures PaddingCellFillsRow(pre + Block(|pre|, k, entries, cols), cols, p)
  {
    var blk := Block(|pre|, k, entries, cols);
    var all := pre + blk;
    var pad := PadCount(|pre|, cols);
    BlockItems(|pre|, k, entries, cols);
    var j := p - |pre|;
    assert all[p] == blk[j];
    assert j < pad;
    WithinPadding(|pre|, j, cols);
    assert all[|pre| + pad] == blk[pad];
    forall r | p <= r < NextRowStart(p, cols) ensures IsPadding(all[r]) {
      assert all[r] == blk[r - |pre|];
    }
  }

  lemma {:induction false} LayoutPaddingFillsRow(keys: seq<YearMonth>, ids: seq<string>, dates: seq<DateField>, cols: nat)
    requires cols >= 1
    ensures PaddingFillsRow(Layout(keys, ids, dates, cols), cols)
    decreases |keys|
  {
    if keys != [] {
      var init, k := keys[..|keys| - 1], keys[|keys| - 1];
      var pre := Layout(init, ids, dates, cols);
      var entries := Entries(ids, dates, k, |ids|);
      var blk := Block(|pre|, k, entries, cols);
      var all := Layout(keys, ids, dates, cols);
      assert all == pre + blk;
      LayoutPaddingFillsRow(init, ids, dates, cols);
      forall p | 0 <= p < |all| && IsPadding(all[p]) ensures PaddingCellFillsRow(all, cols, p) {
        if p < |pre| {
          assert all[p] == pre[p];
          PaddingFillsRowExtends(pre, blk, cols, p);
        } else {
          BlockPaddingFillsRow(pre, k, entries, cols, p);
        }
      }
    }
  }

  lemma {:induction false} LayoutWellFormed(keys: seq<YearMonth>, ids: seq<string>, dates: seq<DateField>, cols: nat)
    requires cols >= 1
    ensures WellFormedCells(Layout(keys, ids, dates, cols))
    decreases |keys|
  {
    if keys != [] {
      var init, k := keys[..|keys| - 1], keys[|keys| - 1];
      var pre := Layout(init, ids, dates, cols);
      var entries := Entries(ids, dates, k, |ids|);
      var blk := Block(|pre|, k, entries, cols);
      var all := Layout(keys, ids, dates, cols);
      assert all == pre + blk;
      LayoutWellFormed(init, ids, dates, cols);
      BlockItems(|pre|, k, entries, cols);
      if pre == [] {
        assert PadCount(0, cols) == 0;
        assert all[0] == blk[0];
      } else {
        assert all[0] == pre[0];
      }
      forall p | 0 <= p < |all|
        ensures all[p].Separator? ==> all[p].caption == Label(all[p].yearMonth)
        ensures all[p].Media? ==> all[p].originalIndex >= -1
      {
        if p < |pre| {
          assert all[p] == pre[p];
        } else {
          assert all[p] == blk[p - |pre|];
        }
      }
    }
  }

  /** Some separator of `items` stands for bucket `k`. */
  ghost predicate HasSeparator(items: seq<GalleryItem>, k: YearMonth) {
    exists p :: 0 <= p < |items| && items[p].Separator? && items[p].yearMonth == k
  }

  /** Separators follow the descending key order, so no bucket has two. */
  ghost predicate SeparatorsDescending(items: seq<GalleryItem>) {
    forall p, q :: 0 <= p < q < |items| && items[p].Separator? && items[q].Separator? ==>
      KeyAfter(items[p].yearMonth, items[q].yearMonth)
  }

  /**
   * Every real cell shows the record it came from, that record is dated,
   * and the cell sits in the run of real cells right after its bucket's
   * separator.
   */
  ghost predicate RealItemsPlaced(items: seq<GalleryItem>, ids: seq<string>, dates: seq<DateField>) {
    forall p :: 0 <= p < |items| && IsReal(items[p]) ==>
      && items[p].originalIndex < |ids|
      && items[p].id == ids[items[p].originalIndex]
      && BucketAt(dates, items[p].originalIndex).Some?
      && exists s :: 0 <= s < p && items[s].Separator?
           && items[s].yearMonth == BucketAt(dates, items[p].originalIndex).value
           && forall r :: s < r < p ==> IsReal(items[r])
  }

  /** Record `i` is shown by some real cell. */
  ghost predicate HasRealCell(items: seq<GalleryItem>, i: nat) {
    exists p :: 0 <= p < |items| && IsReal(items[p]) && items[p].originalIndex == i
  }

  /** Every dated record has exactly one real cell. */
  ghost predicate EachDatedRecordOnce(items: seq<GalleryItem>, ids: seq<string>, dates: seq<DateField>) {
    && (forall i :: 0 <= i < |ids| && BucketAt(dates, i).Some? ==> HasRealCell(items, i))
    && (forall p, q :: 0 <= p < q < |items| && IsReal(items[p]) && IsReal(items[q]) ==>
          items[p].originalIndex != items[q].originalIndex)
  }

  /** Records of one bucket keep their relative order from `mediaIds`. */
  ghost predicate OriginalOrderKept(items: seq<GalleryItem>, dates: seq<DateField>) {
    forall p, q :: 0 <= p < q < |items| && IsReal(items[p]) && IsReal(items[q])
      && BucketAt(dates, items[p].originalIndex) == BucketAt(dates, items[q].originalIndex)
      ==> items[p].originalIndex < items[q].originalIndex
  }

  lemma {:induction false} LayoutSeparators(keys: seq<YearMonth>, ids: seq<string>, dates: seq<DateField>, cols: nat)
    requires cols >= 1
    ensures forall p :: 0 <= p < |Layout(keys, ids, dates, cols)| && Layout(keys, ids, dates, cols)[p].Separator? ==>
      Layout(keys, ids, dates, cols)[p].yearMonth in keys
    ensures forall k :: k in keys ==> HasSeparator(Layout(keys, ids, dates, cols), k)
    decreases |keys|
  {
    if keys != [] {
      var init, k := keys[..|keys| - 1], keys[|keys| - 1];
      var pre := Layout(init, ids, dates, cols);
      var entries := Entries(ids, dates, k, |ids|);
      var blk := Block(|pre|, k, entries, cols);
      var all := Layout(keys, ids, dates, cols);
      var pad := PadCount(|pre|, cols);
      assert all == pre + blk;
      assert keys == init + [k];
      LayoutSeparators(init, ids, dates, cols);
      BlockItems(|pre|, k, entries, cols);
      forall p | 0 <= p < |all| && all[p].Separator? ensures all[p].yearMonth in keys {
        if p < |pre| {
          assert all[p] == pre[p];
        } else {
          assert all[p] == blk[p - |pre|];
        }
      }
      forall k' | k' in keys ensures HasSeparator(all, k') {
        if k' in init {
          var p :| 0 <= p < |pre| && pre[p].Separator? && pre[p].yearMonth == k';
          assert all[p] == pre[p];
        } else {
          assert all[|pre| + pad] == blk[pad];
        }
      }
    }
  }

  lemma {:induction false} LayoutDescending(keys: seq<YearMonth>, ids: seq<string>, dates: seq<DateField>, cols: nat)
    requires cols >= 1
    requires Sorting.SortedBy(keys, KeyAfter)
    ensures SeparatorsDescending(Layout(keys, ids, dates, cols))
    decreases |keys|
  {
    if keys != [] {
      var init, k := keys[..|keys| - 1], keys[|keys| - 1];
      var pre := Layout(init, ids, dates, cols);
      var entries := Entries(ids, dates, k, |ids|);
      var blk := Block(|pre|, k, entries, cols);
      var all := Layout(keys, ids, dates, cols);
      var pad := PadCount(|pre|, cols);
      assert all == pre + blk;
      LayoutDescending(init, ids, dates, cols);
      LayoutSeparators(init, ids, dates, cols);
      BlockItems(|pre|, k, entries, cols);
      forall r | |pre| <= r < |all| && all[r].Separator? ensures r == |pre| + pad {
        assert all[r] == blk[r - |pre|];
      }
      forall p, q | 0 <= p < q < |all| && all[p].Separator? && all[q].Separator?
        ensures KeyAfter(all[p].yearMonth, all[q].yearMonth)
      {
        if q < |pre| {
          assert all[p] == pre[p] && all[q] == pre[q];
        } else {
          assert all[p] == pre[p];
          var i :| 0 <= i < |init| && init[i] == pre[p].yearMonth;
          assert all[q] == blk[q - |pre|];
          assert keys[i] == init[i];
        }
      }
    }
  }

  /** The real cells of a block are its entries, in order, after its separator. */
  lemma BlockRealCell(start: nat, k: YearMonth, entries: seq<Entry>, cols: nat, j: nat)
    requires cols >= 1
    requires j < |Block(start, k, entries, cols)| && IsReal(Block(start, k, entries, cols)[j])
    ensures PadCount(start, cols) < j
    ensures Block(start, k, entries, cols)[j].originalIndex == entries[j - PadCount(start, cols) - 1].index
    ensures Block(start, k, entries, cols)[j].id == entries[j - PadCount(start, cols) - 1].id
    ensures Block(start, k, entries, cols)[PadCount(start, cols)] == Separator(k, Label(k), start + PadCount(start, cols))
    ensures forall r :: PadCount(start, cols) < r < j ==> IsReal(Block(start, k, entries, cols)[r])
  {
    BlockItems(start, k, entries, cols);
  }

  /** The cell of a block that shows entry `j`. */
  lemma BlockEntryCell(start: nat, k: YearMonth, entries: seq<Entry>, cols: nat, j: nat)
    requires cols >= 1
    requires j < |entries|
    ensures PadCount(start, cols) + 1 + j < |Block(start, k, entries, cols)|
    ensures Block(start, k, entries, cols)[PadCount(start, cols) + 1 + j].originalIndex == entries[j].index
    ensures IsReal(Block(start, k, entries, cols)[PadCount(start, cols) + 1 + j])
  {
    BlockItems(start, k, entries, cols);
  }

  lemma {:induction false} LayoutRealItems(keys: seq<YearMonth>, ids: seq<string>, dates: seq<DateField>, cols: nat)
    requires cols >= 1
    ensures RealItemsPlaced(Layout(keys, ids, dates, cols), ids, dates)
    decreases |keys|
  {
    if keys != [] {
      var init, k := keys[..|keys| - 1], keys[|keys| - 1];
      var pre := Layout(init, ids, dates, cols);
      var entries := Entries(ids, dates, k, |ids|);
      var blk := Block(|pre|, k, entries, cols);
      var all := Layout(keys, ids, dates, cols);
      var pad := PadCount(|pre|, cols);
      assert all == pre + blk;
      LayoutRealItems(init, ids, dates, cols);
      EntriesMeaning(ids, dates, k, |ids|);
      forall p | 0 <= p < |all| && IsReal(all[p])
        ensures all[p].originalIndex < |ids|
        ensures all[p].id == ids[all[p].originalIndex]
        ensures BucketAt(dates, all[p].originalIndex).Some?
        ensures exists s :: (0 <= s < p && all[s].Separator?
           && all[s].yearMonth == BucketAt(dates, all[p].originalIndex).value
           && forall r :: s < r < p ==> IsReal(all[r]))
      {
        if p < |pre| {
          assert all[p] == pre[p];
          var s :| 0 <= s < p && pre[s].Separator?
            && pre[s].yearMonth == BucketAt(dates, pre[p].originalIndex).value
            && forall r :: s < r < p ==> IsReal(pre[r]);
          assert all[s] == pre[s];
          forall r | s < r < p ensures IsReal(all[r]) {
            assert all[r] == pre[r];
          }
        } else {
          var j := p - |pre|;
          assert all[p] == blk[j];
          BlockRealCell(|pre|, k, entries, cols, j);
          var s := |pre| + pad;
          assert all[s] == blk[pad];
          forall r | s < r < p ensures IsReal(all[r]) {
            assert all[r] == blk[r - |pre|];
          }
          assert 0 <= s < p && all[s].Separator?
            && all[s].yearMonth == BucketAt(dates, all[p].originalIndex).value;
        }
      }
    }
  }

  /** A real cell of a layout shows a record whose bucket is one of the layout's keys. */
  lemma RealCellBucketListed(keys: seq<YearMonth>, ids: seq<string>, dates: seq<DateField>, cols: nat, p: nat)
    requires cols >= 1
    requires p < |Layout(keys, ids, dates, cols)| && IsReal(Layout(keys, ids, dates, cols)[p])
    ensures BucketAt(dates, Layout(keys, ids, dates, cols)[p].originalIndex).Some?
    ensures BucketAt(dates, Layout(keys, ids, dates, cols)[p].originalIndex).value in keys
  {
    var items := Layout(keys, ids, dates, cols);
    LayoutRealItems(keys, ids, dates, cols);
    LayoutSeparators(keys, ids, dates, cols);
    var s :| 0 <= s < p && items[s].Separator?
      && items[s].yearMonth == BucketAt(dates, items[p].originalIndex).value
      && forall r :: s < r < p ==> IsReal(items[r]);
  }

  lemma {:induction false} LayoutOrderKept(keys: seq<YearMonth>, ids: seq<string>, dates: seq<DateField>, cols: nat)
    requires cols >= 1
    requires Sorting.SortedBy(keys, KeyAfter)
    ensures OriginalOrderKept(Layout(keys, ids, dates, cols), dates)
    decreases |keys|
  {
    if keys != [] {
      var init, k := keys[..|keys| - 1], keys[|keys| - 1];
      var pre := Layout(init, ids, dates, cols);
      var entries := Entries(ids, dates, k, |ids|);
      var blk := Block(|pre|, k, entries, cols);
      var all := Layout(keys, ids, dates, cols);
      assert all == pre + blk;
      assert k !in init by {
        KeyOrdersAreStrictTotal();
        forall i | 0 <= i < |init| ensures init[i] != k {
          assert KeyAfter(keys[i], keys[|keys| - 1]);
        }
      }
      LayoutOrderKept(init, ids, dates, cols);
      EntriesMeaning(ids, dates, k, |ids|);
      forall p, q | 0 <= p < q < |all| && IsReal(all[p]) && IsReal(all[q])
        ensures BucketAt(dates, all[p].originalIndex) == BucketAt(dates, all[q].originalIndex)
          ==> all[p].originalIndex < all[q].originalIndex
      {
        if q < |pre| {
          assert all[p] == pre[p] && all[q] == pre[q];
        } else if p < |pre| {
          assert all[p] == pre[p];
          RealCellBucketListed(init, ids, dates, cols, p);
          assert all[q] == blk[q - |pre|];
          BlockRealCell(|pre|, k, entries, cols, q - |pre|);
          assert BucketAt(dates, all[q].originalIndex) == Some(k);
        } else {
          assert all[p] == blk[p - |pre|] && all[q] == blk[q - |pre|];
          BlockRealCell(|pre|, k, entries, cols, p - |pre|);
          BlockRealCell(|pre|, k, entries, cols, q - |pre|);
        }
      }
    }
  }

  lemma {:induction false} LayoutCoversBuckets(keys: seq<YearMonth>, ids: seq<string>, dates: seq<DateField>, cols: nat)
    requires cols >= 1
    ensures forall i :: 0 <= i < |ids| && BucketAt(dates, i).Some? && BucketAt(dates, i).value in keys ==>
      HasRealCell(Layout(keys, ids, dates, cols), i)
    decreases |keys|
  {
    if keys != [] {
      var init, k := keys[..|keys| - 1], keys[|keys| - 1];
      var pre := Layout(init, ids, dates, cols);
      var entries := Entries(ids, dates, k, |ids|);
      var blk := Block(|pre|, k, entries, cols);
      var all := Layout(keys, ids, dates, cols);
      var pad := PadCount(|pre|, cols);
      assert all == pre + blk;
      assert keys == init + [k];
      LayoutCoversBuckets(init, ids, dates, cols);
      EntriesMeaning(ids, dates, k, |ids|);
      forall i | 0 <= i < |ids| && BucketAt(dates, i).Some? && BucketAt(dates, i).value in keys
        ensures HasRealCell(all, i)
      {
        if BucketAt(dates, i).value == k {
          var j :| 0 <= j < |entries| && entries[j].index == i;
          BlockEntryCell(|pre|, k, entries, cols, j);
          assert all[|pre| + pad + 1 + j] == blk[pad + 1 + j];
        } else {
          assert BucketAt(dates, i).value in init;
          var p :| 0 <= p < |pre| && IsReal(pre[p]) && pre[p].originalIndex == i;
          assert all[p] == pre[p];
        }
      }
    }
  }

  /**
   * What the source promises of `enrichedGalleryItems`, for the bucket
   * order the second pass uses: every bucket with a dated record gets one
   * separator, most recent first, each starting a grid row; gaps before a
   * separator are filled with empty cells; and every dated record appears
   * exactly once, under its own bucket, in its original relative order.
   */
  lemma LayoutShape(keys: seq<YearMonth>, ids: seq<string>, dates: seq<DateField>, cols: nat)
    requires cols >= 1
    requires Sorting.SortedBy(keys, KeyAfter)
    requires forall k :: k in keys <==> Occurs(dates, |ids|, k)
    ensures var items := Layout(keys, ids, dates, cols);
      && Contiguous(items) && RowAligned(items, cols) && PaddingFillsRow(items, cols) && WellFormedCells(items)
      && (forall k :: HasSeparator(items, k) <==> Occurs(dates, |ids|, k))
      && SeparatorsDescending(items)
      && RealItemsPlaced(items, ids, dates)
      && EachDatedRecordOnce(items, ids, dates)
      && OriginalOrderKept(items, dates)
  {
    var items := Layout(keys, ids, dates, cols);
    LayoutContiguous(keys, ids, dates, cols);
    LayoutRowAligned(keys, ids, dates, cols);
    LayoutPaddingFillsRow(keys, ids, dates, cols);
    LayoutWellFormed(keys, ids, dates, cols);
    LayoutSeparators(keys, ids, dates, cols);
    LayoutDescending(keys, ids, dates, cols);
    LayoutRealItems(keys, ids, dates, cols);
    LayoutOrderKept(keys, ids, dates, cols);
    LayoutCoversBuckets(keys, ids, dates, cols);
    forall i | 0 <= i < |ids| && BucketAt(dates, i).Some? ensures HasRealCell(items, i) {
      assert Occurs(dates, |ids|, BucketAt(dates, i).value);
    }
  }

  /**
   * The enriched list is determined by the records and the column count:
   * any two bucket orders meeting `Enrich`'s guarantees give the same list.
   */
  lemma LayoutDeterminedByInputs(keys1: seq<YearMonth>, keys2: seq<YearMonth>, ids: seq<string>, dates: seq<DateField>, cols: nat)
    requires cols >= 1
    requires Sorting.SortedBy(keys1, KeyAfter) && Sorting.SortedBy(keys2, KeyAfter)
    requires forall k :: k in keys1 <==> Occurs(dates, |ids|, k)
    requires forall k :: k in keys2 <==> Occurs(dates, |ids|, k)
    ensures Layout(keys1, ids, dates, cols) == Layout(keys2, ids, dates, cols)
  {
    KeyOrdersAreStrictTotal();
    Sorting.SortedUnique(keys1, keys2, KeyAfter);
  }
}
