/**
 * The string facts the hook relies on: the decimal rendering of a
 * non-negative integer (`n.toString()`), zero padding to two places
 * (`padStart(2, '0')`) and the code-unit order JavaScript's default sort
 * uses on strings.
 */
module Text {

  function DigitChar(d: nat): (c: char)
    requires d < 10
    ensures '0' <= c <= '9'
  {
    (('0' as int) + d) as char
  }

  /** `n.toString()` for an integer `n >= 0`. */
  function Digits(n: nat): (s: string)
    ensures |s| >= 1
  {
    if n < 10 then [DigitChar(n)] else Digits(n / 10) + [DigitChar(n % 10)]
  }

  predicate AllDigits(s: string) {
    forall i :: 0 <= i < |s| ==> '0' <= s[i] <= '9'
  }

  /** `n.toString().padStart(2, '0')`. */
  function Pad2(n: nat): string {
    if n < 10 then ['0'] + Digits(n) else Digits(n)
  }

  /**
   * Code-unit lexicographic order: the order of `Array.prototype.sort()`
   * without a comparator, and of `localeCompare` on strings made of digits
   * and '-'.
   */
  predicate LexLess(a: string, b: string) {
    if |a| == 0 then |b| > 0
    else if |b| == 0 then false
    else a[0] < b[0] || (a[0] == b[0] && LexLess(a[1..], b[1..]))
  }

  lemma {:induction false} DigitsAreDigits(n: nat)
    ensures AllDigits(Digits(n))
  {
    if n >= 10 {
      DigitsAreDigits(n / 10);
    }
  }

  /** The decimal rendering has no leading zero. */
  lemma {:induction false} LeadingDigitNonZero(n: nat)
    requires n >= 1
    ensures Digits(n)[0] != '0'
  {
    if n >= 10 {
      LeadingDigitNonZero(n / 10);
    }
  }

  lemma {:induction false} DigitsLength(n: nat)
    ensures |Digits(n)| == 1 <==> n < 10
    ensures |Digits(n)| == 2 <==> 10 <= n < 100
    ensures |Digits(n)| == 3 <==> 100 <= n < 1000
    ensures |Digits(n)| == 4 <==> 1000 <= n < 10000
  {
    if n >= 10 {
      DigitsLength(n / 10);
      assert 1000 <= n < 10000 <==> 100 <= n / 10 < 1000;
      assert 100 <= n < 1000 <==> 10 <= n / 10 < 100;
    }
  }

  /** Distinct numbers render differently. */
  lemma {:induction false} DigitsInjective(n: nat, m: nat)
    requires Digits(n) == Digits(m)
    ensures n == m
  {
    DigitsLength(n);
    DigitsLength(m);
    if n >= 10 && m >= 10 {
      var dn, dm := Digits(n / 10), Digits(m / 10);
      assert Digits(n) == dn + [DigitChar(n % 10)];
      assert Digits(m) == dm + [DigitChar(m % 10)];
      assert dn == Digits(n)[..|Digits(n)| - 1];
      assert dm == Digits(m)[..|Digits(m)| - 1];
      DigitsInjective(n / 10, m / 10);
      assert DigitChar(n % 10) == Digits(n)[|Digits(n)| - 1];
      assert n % 10 == m % 10;
    }
  }

  /** Only one-digit numbers are padded with a leading zero. */
  lemma Pad2LeadingZero(n: nat)
    ensures Pad2(n)[0] == '0' <==> n < 10
  {
    if n >= 10 {
      LeadingDigitNonZero(n);
    }
  }

  lemma {:induction false} Pad2Injective(n: nat, m: nat)
    requires Pad2(n) == Pad2(m)
    ensures n == m
  {
    Pad2LeadingZero(n);
    Pad2LeadingZero(m);
    if n < 10 {
      assert Digits(n) == Pad2(n)[1..];
      assert Digits(m) == Pad2(m)[1..];
      DigitsInjective(n, m);
    } else {
      DigitsInjective(n, m);
    }
  }

  lemma {:induction false} LexIrreflexive(a: string)
    ensures !LexLess(a, a)
  {
    if |a| > 0 {
      LexIrreflexive(a[1..]);
    }
  }

  lemma {:induction false} LexTransitive(a: string, b: string, c: string)
    requires LexLess(a, b) && LexLess(b, c)
    ensures LexLess(a, c)
  {
    if |a| > 0 && |b| > 0 && |c| > 0 && a[0] == b[0] && b[0] == c[0] {
      LexTransitive(a[1..], b[1..], c[1..]);
    }
  }

  lemma {:induction false} LexTotal(a: string, b: string)
    requires a != b
    ensures LexLess(a, b) || LexLess(b, a)
  {
    if |a| > 0 && |b| > 0 && a[0] == b[0] {
      assert a == [a[0]] + a[1..];
      assert b == [b[0]] + b[1..];
      LexTotal(a[1..], b[1..]);
    }
  }

  /** Comparing two concatenations whose first parts have equal length. */
  lemma {:induction false} LexAppend(a: string, b: string, c: string, d: string)
    requires |a| == |c|
    ensures LexLess(a + b, c + d) <==> LexLess(a, c) || (a == c && LexLess(b, d))
  {
    if |a| > 0 {
      assert (a + b)[1..] == a[1..] + b;
      assert (c + d)[1..] == c[1..] + d;
      LexAppend(a[1..], b, c[1..], d);
      if a[0] == c[0] {
        assert a == c <==> a[1..] == c[1..] by {
          assert a == [a[0]] + a[1..];
          assert c == [c[0]] + c[1..];
        }
      }
    } else {
      assert a == c;
      assert a + b == b;
      assert c + d == d;
    }
  }

  /** Renderings of the same width compare as the numbers do. */
  lemma {:induction false} DigitsOrder(n: nat, m: nat)
    requires |Digits(n)| == |Digits(m)|
    ensures LexLess(Digits(n), Digits(m)) <==> n < m
  {
    DigitsLength(n);
    DigitsLength(m);
    if n < 10 {
      assert Digits(n)[1..] == [] && Digits(m)[1..] == [];
    } else {
      var dn, dm := Digits(n / 10), Digits(m / 10);
      assert |dn| == |dm|;
      LexAppend(dn, [DigitChar(n % 10)], dm, [DigitChar(m % 10)]);
      DigitsOrder(n / 10, m / 10);
      if dn == dm {
        DigitsInjective(n / 10, m / 10);
      }
      assert LexLess([DigitChar(n % 10)], [DigitChar(m % 10)]) <==> n % 10 < m % 10 by {
        assert [DigitChar(n % 10)][1..] == [];
      }
      assert n == 10 * (n / 10) + n % 10;
      assert m == 10 * (m / 10) + m % 10;
    }
  }

  /** For numbers below 100 the padded renderings compare as the numbers do. */
  lemma Pad2Order(n: nat, m: nat)
    requires n < 100 && m < 100
    ensures LexLess(Pad2(n), Pad2(m)) <==> n < m
  {
    DigitsLength(n);
    DigitsLength(m);
    if n < 10 && m < 10 {
      assert Pad2(n)[1..] == Digits(n) && Pad2(m)[1..] == Digits(m);
      DigitsOrder(n, m);
    } else if n < 10 {
      LeadingDigitNonZero(m);
      assert Pad2(n)[0] == '0';
    } else if m < 10 {
      LeadingDigitNonZero(n);
      assert Pad2(m)[0] == '0';
    } else {
      DigitsOrder(n, m);
    }
  }

  /** Position of the first `c` in `s`, or `|s|` when there is none. */
  function Find(s: string, c: char): (k: nat)
    ensures k <= |s|
  {
    if s == [] then 0 else if s[0] == c then 0 else 1 + Find(s[1..], c)
  }

  lemma {:induction false} FindAfterPrefix(x: string, y: string, c: char)
    requires c !in x
    ensures Find(x + [c] + y, c) == |x|
  {
    if x != [] {
      assert (x + [c] + y)[1..] == x[1..] + [c] + y;
      FindAfterPrefix(x[1..], y, c);
    }
  }

  /**
   * Two strings joined at a separator that neither left part contains split
   * back into the same parts.
   */
  lemma SplitAtSeparator(x: string, y: string, x': string, y': string, sep: char)
    requires sep !in x && sep !in x'
    requires x + [sep] + y == x' + [sep] + y'
    ensures x == x' && y == y'
  {
    var s := x + [sep] + y;
    FindAfterPrefix(x, y, sep);
    FindAfterPrefix(x', y', sep);
    assert x == s[..|x|];
    assert x' == (x' + [sep] + y')[..|x'|];
    assert y == s[|x| + 1..];
    assert y' == (x' + [sep] + y')[|x'| + 1..];
  }
}
