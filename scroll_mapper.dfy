/**
 * `getYearMonthFromScrollPosition`: which bucket a scroll offset of the
 * virtual grid shows, estimated as the separator closest to the first
 * cell of the row at that offset.
 */
module ScrollMapping {
  import opened Options
  import opened Calendar
  import opened Enrichment

  type Positive = n: nat | 1 <= n witness 1

  /** The `rowHeight` and `columnCount` props of the grid `gridRef` points at. */
  datatype Grid = Grid(rowHeight: nat, columnCount: Positive)

  /** `Math.abs(a - b)`. */
  function Distance(a: nat, b: nat): nat {
    if a <= b then b - a else a - b
  }

  /** The index of the first cell of the row at `scrollTop`. */
  function EstimatedIndex(scrollTop: nat, grid: Grid): nat
    requires grid.rowHeight > 0
  {
    (scrollTop / grid.rowHeight) * grid.columnCount
  }

  /** Some separator among the first `n` cells. */
  ghost predicate AnySeparator(items: seq<GalleryItem>, n: nat)
    requires n <= |items|
  {
    exists p :: 0 <= p < n && items[p].Separator?
  }

  /**
   * Among the first `n` cells, `p` is the separator whose index is closest
   * to `target`, the earliest of those equally close.
   */
  ghost predicate Nearest(items: seq<GalleryItem>, n: nat, target: nat, p: nat)
    requires n <= |items|
  {
    && p < n && items[p].Separator?
    && (forall q :: 0 <= q < p && items[q].Separator? ==>
          Distance(items[p].actualIndex, target) < Distance(items[q].actualIndex, target))
    && (forall q :: p < q < n && items[q].Separator? ==>
          Distance(items[p].actualIndex, target) <= Distance(items[q].actualIndex, target))
  }

  /**
   * No grid, an empty list or a list without separators gives no bucket;
   * a zero row height makes the source's estimate infinite or NaN, which no
   * distance is below, so it gives none either.  Otherwise the bucket of
   * the nearest separator.
   */
  method YearMonthFromScroll(scrollTop: nat, grid: Option<Grid>, items: seq<GalleryItem>)
    returns (r: Option<YearMonth>)
    ensures grid.None? || grid.value.rowHeight == 0 || !AnySeparator(items, |items|) ==> r == None
    ensures grid.Some? && grid.value.rowHeight > 0 && AnySeparator(items, |items|) ==>
      exists p: nat :: Nearest(items, |items|, EstimatedIndex(scrollTop, grid.value), p) && r == Some(items[p].yearMonth)
  {
    if grid.None? || |items| == 0 {
      return None;
    }
    var rowHeight := grid.value.rowHeight;
    var columnCount := grid.value.columnCount;
    if rowHeight == 0 {
      return None;
    }
    var rowIndex := scrollTop / rowHeight;
    var estimatedItemIndex := rowIndex * columnCount;
    var bestYearMonth: Option<YearMonth> := None;
    // Stands for `Infinity` while `bestYearMonth` is `None`.
    var closestDistance := 0;
    ghost var bestPos := 0;
    for i := 0 to |items|
      invariant bestYearMonth.None? <==> !AnySeparator(items, i)
      invariant bestYearMonth.Some? ==>
        && Nearest(items, i, estimatedItemIndex, bestPos)
        && bestYearMonth == Some(items[bestPos].yearMonth)
        && closestDistance == Distance(items[bestPos].actualIndex, estimatedItemIndex)
    {
      var item := items[i];
      if item.Separator? {
        var distance := Distance(item.actualIndex, estimatedItemIndex);
        if bestYearMonth.None? || distance < closestDistance {
          closestDistance := distance;
          bestYearMonth := Some(item.yearMonth);
          bestPos := i;
        }
      }
    }
    r := bestYearMonth;
  }

  /** The nearest separator is unique. */
  lemma NearestUnique(items: seq<GalleryItem>, n: nat, target: nat, p: nat, q: nat)
    requires n <= |items|
    requires Nearest(items, n, target, p) && Nearest(items, n, target, q)
    ensures p == q
  {
  }

  /**
   * In a list whose cells record their own positions, a separator standing
   * exactly at the estimated index is the nearest one.
   */
  lemma ExactHit(items: seq<GalleryItem>, target: nat)
    requires Contiguous(items)
    requires target < |items| && items[target].Separator?
    ensures Nearest(items, |items|, target, target)
  {
  }

  /**
   * On an enriched list with at least one cell there is always a nearest
   * separator, so the estimate yields a bucket whenever the grid is
   * present with a non-zero row height.
   */
  lemma EnrichedListHasSeparator(items: seq<GalleryItem>)
    requires WellFormedCells(items) && |items| > 0
    ensures AnySeparator(items, |items|)
  {
    assert items[0].Separator?;
  }
}
