/**
 * Calendar buckets ("year-months"), the string keys the hook builds for
 * them, the order it sorts those keys in, the French month labels, and the
 * shape of one entry of the date list it is given.
 */
module Calendar {
  import opened Options
  import opened Text
  import Sorting

  /**
   * A parsed (year, month) pair.  `split('-')` removes every minus sign
   * before `Number` runs, so the parsed numbers are never negative.
   */
  datatype YearMonth = YearMonth(year: nat, month: nat)

  /** The key `${year}-${month.toString().padStart(2, '0')}`. */
  function Key(ym: YearMonth): string {
    Digits(ym.year) + ['-'] + Pad2(ym.month)
  }

  /** Distinct buckets have distinct keys, so maps keyed by the string are maps keyed by the pair. */
  lemma KeyInjective(a: YearMonth, b: YearMonth)
    ensures Key(a) == Key(b) ==> a == b
  {
    if Key(a) == Key(b) {
      DigitsAreDigits(a.year);
      DigitsAreDigits(b.year);
      SplitAtSeparator(Digits(a.year), Pad2(a.month), Digits(b.year), Pad2(b.month), '-');
      DigitsInjective(a.year, b.year);
      Pad2Injective(a.month, b.month);
    }
  }

  /** The order in which the hook sorts keys: code-unit order of the key strings. */
  predicate KeyBefore(a: YearMonth, b: YearMonth) {
    LexLess(Key(a), Key(b))
  }

  /** The reverse order, used for the most-recent-first listing. */
  predicate KeyAfter(a: YearMonth, b: YearMonth) {
    KeyBefore(b, a)
  }

  lemma KeyOrdersAreStrictTotal()
    ensures Sorting.StrictTotalOrder(KeyBefore)
    ensures Sorting.StrictTotalOrder(KeyAfter)
  {
    forall a: YearMonth ensures !KeyBefore(a, a) {
      LexIrreflexive(Key(a));
    }
    forall a: YearMonth, b: YearMonth, c: YearMonth | KeyBefore(a, b) && KeyBefore(b, c)
      ensures KeyBefore(a, c)
    {
      LexTransitive(Key(a), Key(b), Key(c));
    }
    forall a: YearMonth, b: YearMonth | a != b ensures KeyBefore(a, b) || KeyBefore(b, a) {
      KeyInjective(a, b);
      LexTotal(Key(a), Key(b));
    }
  }

  /** Calendar order on pairs. */
  predicate Earlier(a: YearMonth, b: YearMonth) {
    a.year < b.year || (a.year == b.year && a.month < b.month)
  }

  /** The range in which the key's string order is calendar order. */
  predicate FourDigitYearTwoDigitMonth(ym: YearMonth) {
    1000 <= ym.year <= 9999 && ym.month <= 99
  }

  /**
   * For four-digit years and months below 100, sorting the keys as strings
   * sorts the buckets chronologically.  Outside that range it does not
   * ("999-01" sorts after "1000-01"; "2023-100" sorts before "2023-12").
   */
  lemma KeyBeforeIsEarlier(a: YearMonth, b: YearMonth)
    requires FourDigitYearTwoDigitMonth(a) && FourDigitYearTwoDigitMonth(b)
    ensures KeyBefore(a, b) <==> Earlier(a, b)
  {
    DigitsLength(a.year);
    DigitsLength(b.year);
    var ya, yb := Digits(a.year), Digits(b.year);
    var ma, mb := ['-'] + Pad2(a.month), ['-'] + Pad2(b.month);
    assert Key(a) == ya + ma;
    assert Key(b) == yb + mb;
    LexAppend(ya, ma, yb, mb);
    DigitsOrder(a.year, b.year);
    assert ya == yb ==> a.year == b.year by {
      if ya == yb {
        DigitsInjective(a.year, b.year);
      }
    }
    assert LexLess(ma, mb) == LexLess(Pad2(a.month), Pad2(b.month)) by {
      assert ma[1..] == Pad2(a.month) && mb[1..] == Pad2(b.month);
    }
    Pad2Order(a.month, b.month);
  }

  lemma KeyBeforeCounterexample()
    ensures Earlier(YearMonth(2023, 12), YearMonth(2023, 100))
    ensures KeyBefore(YearMonth(2023, 100), YearMonth(2023, 12))
  {
    assert Digits(2023) == "2023";
    assert Pad2(100) == "100";
    assert Pad2(12) == "12";
    assert Key(YearMonth(2023, 100)) == "2023-100";
    assert Key(YearMonth(2023, 12)) == "2023-12";
    assert LexLess("100", "12");
    assert LexLess("2023-100", "2023-12");
  }

  const MonthNames: seq<string> := [
    "Janvier", "Février", "Mars", "Avril", "Mai", "Juin",
    "Juillet", "Août", "Septembre", "Octobre", "Novembre", "Décembre"
  ]

  /**
   * `formatMonthYearLabel`: the month's French name, a space, the year.  A
   * month outside 1..12 indexes past the table and renders as "undefined".
   */
  function Label(ym: YearMonth): string {
    (if 1 <= ym.month <= 12 then MonthNames[ym.month - 1] else "undefined")
    + [' '] + Digits(ym.year)
  }

  lemma MonthNamesDistinct()
    ensures forall i, j :: 0 <= i < j < 12 ==> MonthNames[i] != MonthNames[j]
    ensures forall i :: 0 <= i < 12 ==> ' ' !in MonthNames[i]
  {
  }

  /** Buckets with a real month get distinct labels. */
  lemma LabelInjective(a: YearMonth, b: YearMonth)
    requires 1 <= a.month <= 12 && 1 <= b.month <= 12
    ensures Label(a) == Label(b) ==> a == b
  {
    if Label(a) == Label(b) {
      MonthNamesDistinct();
      DigitsAreDigits(a.year);
      DigitsAreDigits(b.year);
      SplitAtSeparator(MonthNames[a.month - 1], Digits(a.year), MonthNames[b.month - 1], Digits(b.year), ' ');
      DigitsInjective(a.year, b.year);
    }
  }

  /**
   * One entry of `mediaDates`: `Missing` is `null`/`undefined`; `Given`
   * holds the string and what `split('-').map(Number)` made of it (`None`
   * when the year or the month came out NaN).
   */
  datatype DateField = Missing | Given(text: string, parsed: Option<YearMonth>)

  /** JavaScript truthiness of the entry: present and not the empty string. */
  predicate Truthy(f: DateField) {
    f.Given? && f.text != ""
  }

  /** `mediaDates[i]`; reading past the end yields `undefined`. */
  function FieldAt(dates: seq<DateField>, i: nat): DateField {
    if i < |dates| then dates[i] else Missing
  }

  /** The bucket of record `i`, when its date is truthy and parses. */
  function BucketAt(dates: seq<DateField>, i: nat): (r: Option<YearMonth>)
    ensures r.Some? <==> Truthy(FieldAt(dates, i)) && FieldAt(dates, i).parsed.Some?
  {
    var f := FieldAt(dates, i);
    if Truthy(f) then f.parsed else None
  }

  /** Record `i` (of the first `n`) falls in bucket `k`. */
  ghost predicate Occurs(dates: seq<DateField>, n: nat, k: YearMonth) {
    exists i :: 0 <= i < n && BucketAt(dates, i) == Some(k)
  }

  lemma OccursStep(dates: seq<DateField>, n: nat, k: YearMonth)
    ensures Occurs(dates, n + 1, k) <==> Occurs(dates, n, k) || BucketAt(dates, n) == Some(k)
  {
    if BucketAt(dates, n) == Some(k) {
      assert 0 <= n < n + 1 && BucketAt(dates, n) == Some(k);
    }
  }
}
