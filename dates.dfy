/**
 * The date strings of the data files: `YYYY-MM` year-months and `YYYY-MM-DD`
 * days, fixed-width and zero-padded, so that comparing them character by
 * character compares the dates.
 */
module Dates {
  import opened Strings

  /** `YYYY-MM`: four digits, a dash, two digits. */
  predicate IsYearMonth(s: string) {
    |s| == 7 && AllDigits(s[..4]) && s[4] == '-' && AllDigits(s[5..])
  }

  /** `YYYY-MM-DD`. */
  predicate IsYearMonthDay(s: string) {
    |s| == 10 && IsYearMonth(s[..7]) && s[7] == '-' && AllDigits(s[8..])
  }

  /** `a` is not later than `b`. */
  predicate NotAfter(a: string, b: string) {
    !CodeUnitLess(b, a)
  }

  /** Two dates that agree up to their last character are ordered by it. */
  lemma NotAfterByLast(a: string, b: string)
    requires |a| == |b| > 0 && a[..|a| - 1] == b[..|b| - 1] && a[|a| - 1] <= b[|b| - 1]
    ensures NotAfter(a, b)
  {
    var k := |a| - 1;
    if a[k] < b[k] {
      CodeUnitLessAt(a, b, k);
      CodeUnitLessAsymmetric(a, b);
    } else {
      assert a == a[..k] + [a[k]] && b == b[..k] + [b[k]];
      CodeUnitLessIrreflexive(a);
    }
  }

  /** The number four digits denote. */
  lemma Value4(s: string)
    requires |s| == 4 && AllDigits(s)
    ensures DigitsValue(s) ==
      1000 * DigitValue(s[0]) + 100 * DigitValue(s[1]) + 10 * DigitValue(s[2]) + DigitValue(s[3])
  {
    var s3, s2, s1 := s[..3], s[..2], s[..1];
    assert s3[..2] == s2 && s2[..1] == s1 && s1[..0] == [];
    assert DigitsValue(s) == DigitsValue(s3) * 10 + DigitValue(s[3]);
    assert DigitsValue(s3) == DigitsValue(s2) * 10 + DigitValue(s[2]);
    assert DigitsValue(s2) == DigitsValue(s1) * 10 + DigitValue(s[1]);
    assert DigitsValue(s1) == DigitValue(s[0]);
  }

  lemma Value2(s: string)
    requires |s| == 2 && AllDigits(s)
    ensures DigitsValue(s) == 10 * DigitValue(s[0]) + DigitValue(s[1])
  {
    var s1 := s[..1];
    assert s1[..0] == [];
    assert DigitsValue(s) == DigitsValue(s1) * 10 + DigitValue(s[1]);
  }

  /** Where two strings of one length first differ, the smaller one has the smaller character. */
  lemma {:induction false} FirstDifference(a: string, b: string) returns (k: nat)
    requires |a| == |b| && CodeUnitLess(a, b)
    ensures k < |a| && a[..k] == b[..k] && a[k] < b[k]
    decreases |a|
  {
    if a[0] != b[0] {
      k := 0;
    } else {
      var k' := FirstDifference(a[1..], b[1..]);
      k := k' + 1;
      assert a[..k] == [a[0]] + a[1..][..k'];
      assert b[..k] == [b[0]] + b[1..][..k'];
    }
  }

  /** The year of a year-month is the number its first four digits denote. */
  function YearOf(s: string): nat
    requires IsYearMonth(s)
  {
    DigitsValue(s[..4])
  }

  /** Character order on year-months never puts a later year first. */
  lemma YearOrder(a: string, b: string)
    requires IsYearMonth(a) && IsYearMonth(b) && CodeUnitLess(a, b)
    ensures YearOf(a) <= YearOf(b)
  {
    var k := FirstDifference(a, b);
    var x, y := a[..4], b[..4];
    if k < 4 {
      Value4(x);
      Value4(y);
      assert forall i :: 0 <= i < k ==> x[i] == a[..k][i] == b[..k][i] == y[i];
      assert x[k] == a[k] && y[k] == b[k];
    } else {
      assert x == a[..k][..4] == b[..k][..4] == y;
    }
  }

  /** `split("-")` on a year-month gives its year and its month. */
  lemma SplitYearMonth(s: string)
    requires IsYearMonth(s)
    ensures Split(s, '-') == [s[..4], s[5..]]
  {
    assert IndexOf(s, '-') == 4 by {
      assert forall k :: 0 <= k < 4 ==> s[k] == s[..4][k];
    }
    var rest := s[5..];
    assert IndexOf(rest, '-') == -1 by {
      assert forall k :: 0 <= k < |rest| ==> IsDigit(rest[k]);
    }
  }
}
