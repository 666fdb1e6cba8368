/**
 * The `separatorIndices` memo of `useMediaDates`: for each bucket, the
 * position of its separator in the enriched list.
 */
module SeparatorLocation {
  import opened Calendar
  import opened Enrichment
  import Sorting

  /** `p` holds a separator for `k` and no later position does. */
  ghost predicate LastSeparatorAt(items: seq<GalleryItem>, k: YearMonth, p: nat) {
    && p < |items| && items[p].Separator? && items[p].yearMonth == k
    && forall q :: p < q < |items| && items[q].Separator? ==> items[q].yearMonth != k
  }

  /**
   * One pass over the list, recording each separator's position under its
   * bucket; a later separator of the same bucket overwrites an earlier one.
   */
  method LocateSeparators(items: seq<GalleryItem>) returns (indices: map<YearMonth, nat>)
    ensures forall k :: k in indices <==> HasSeparator(items, k)
    ensures forall k :: k in indices ==> LastSeparatorAt(items, k, indices[k])
  {
    indices := map[];
    var index := 0;
    while index < |items|
      invariant index <= |items|
      invariant forall k :: k in indices <==> HasSeparator(items[..index], k)
      invariant forall k :: k in indices ==> LastSeparatorAt(items[..index], k, indices[k])
    {
      var item := items[index];
      assert items[..index + 1] == items[..index] + [item];
      if item.Separator? {
        indices := indices[item.yearMonth := index];
      }
      index := index + 1;
    }
    assert items[..index] == items;
  }

  /**
   * In a list whose separators are in strictly descending key order (as
   * `Enrich` produces), a bucket has a single separator, so the recorded
   * position is the only one.
   */
  lemma OnlySeparator(items: seq<GalleryItem>, k: YearMonth, p: nat, q: nat)
    requires SeparatorsDescending(items)
    requires p < |items| && items[p].Separator? && items[p].yearMonth == k
    requires q < |items| && items[q].Separator? && items[q].yearMonth == k
    ensures p == q
  {
    KeyOrdersAreStrictTotal();
    assert !KeyAfter(k, k);
  }

  /**
   * On an enriched list, the located position of a bucket's separator is
   * the position that separator records as its own index, and every
   * bucket with a dated record is located.
   */
  lemma LocatedOnEnrichedList(items: seq<GalleryItem>, indices: map<YearMonth, nat>, n: nat, dates: seq<DateField>)
    requires Contiguous(items) && SeparatorsDescending(items)
    requires forall k :: HasSeparator(items, k) <==> Occurs(dates, n, k)
    requires forall k :: k in indices <==> HasSeparator(items, k)
    requires forall k :: k in indices ==> LastSeparatorAt(items, k, indices[k])
    ensures forall k :: k in indices <==> Occurs(dates, n, k)
    ensures forall k, p :: k in indices && 0 <= p < |items| && items[p].Separator? && items[p].yearMonth == k ==>
      indices[k] == p == items[p].actualIndex
  {
    forall k, p | k in indices && 0 <= p < |items| && items[p].Separator? && items[p].yearMonth == k
      ensures indices[k] == p == items[p].actualIndex
    {
      OnlySeparator(items, k, p, indices[k]);
    }
  }
}
