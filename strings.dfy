/**
 * The JavaScript string built-ins the components rely on: the `\s` character
 * class and `trim()`, `startsWith`, ASCII `toLowerCase`, removing whitespace
 * runs, code-unit ordering of strings, and decimal rendering of numbers.
 */
module Strings {
  import opened Js

  /** ECMAScript WhiteSpace and LineTerminator code points: exactly what `\s`
      matches and what `String.prototype.trim` strips. */
  predicate IsSpace(c: char) {
    || c == ' ' || c == '\t' || c == '\n' || c == '\U{B}' || c == '\U{C}' || c == '\r'
    || c == '\U{A0}' || c == '\U{1680}' || ('\U{2000}' <= c <= '\U{200A}')
    || c == '\U{2028}' || c == '\U{2029}' || c == '\U{202F}' || c == '\U{205F}'
    || c == '\U{3000}' || c == '\U{FEFF}'
  }

  predicate NoSpace(s: string) {
    forall i :: 0 <= i < |s| ==> !IsSpace(s[i])
  }

  predicate AllSpace(s: string) {
    forall i :: 0 <= i < |s| ==> IsSpace(s[i])
  }

  /** `String.prototype.trim`: strips whitespace from both ends. What is left
      starts and ends with a non-whitespace character unless it is empty. */
  function Trim(s: string): (r: string)
    ensures r == [] || (!IsSpace(r[0]) && !IsSpace(r[|r| - 1]))
    ensures |r| <= |s|
    decreases |s|
  {
    if s != [] && IsSpace(s[0]) then Trim(s[1..])
    else if s != [] && IsSpace(s[|s| - 1]) then Trim(s[..|s| - 1])
    else s
  }

  /** `s[i..j]` is a slice of `s` with only whitespace outside it. */
  ghost predicate SpaceAround(s: string, i: int, j: int) {
    0 <= i <= j <= |s| && AllSpace(s[..i]) && AllSpace(s[j..])
  }

  /** A leading whitespace character joins the whitespace before the slice. */
  lemma SpaceAroundFront(s: string, i: int, j: int)
    requires s != [] && IsSpace(s[0]) && SpaceAround(s[1..], i, j)
    ensures SpaceAround(s, i + 1, j + 1) && s[1..][i..j] == s[i + 1..j + 1]
  {
    var u := s[1..];
    var front := s[..i + 1];
    forall k | 0 <= k < i + 1 ensures IsSpace(front[k]) {
      if k > 0 { assert front[k] == u[..i][k - 1]; }
    }
    assert s[j + 1..] == u[j..];
    assert forall k :: 0 <= k < j - i ==> u[i..j][k] == s[i + 1..j + 1][k];
  }

  /** A trailing whitespace character joins the whitespace after the slice. */
  lemma SpaceAroundBack(s: string, i: int, j: int)
    requires s != [] && IsSpace(s[|s| - 1]) && SpaceAround(s[..|s| - 1], i, j)
    ensures SpaceAround(s, i, j) && s[..|s| - 1][i..j] == s[i..j]
  {
    var p := s[..|s| - 1];
    assert p[..i] == s[..i];
    var back := s[j..];
    forall k | 0 <= k < |back| ensures IsSpace(back[k]) {
      if j + k < |p| { assert back[k] == p[j..][k]; }
    }
  }

  /** What `trim` leaves is a slice of its input with only whitespace around it. */
  lemma {:induction false} TrimIsSlice(s: string)
    ensures exists i, j :: SpaceAround(s, i, j) && Trim(s) == s[i..j]
    decreases |s|
  {
    if s != [] && IsSpace(s[0]) {
      TrimIsSlice(s[1..]);
      var i, j :| SpaceAround(s[1..], i, j) && Trim(s[1..]) == s[1..][i..j];
      SpaceAroundFront(s, i, j);
    } else if s != [] && IsSpace(s[|s| - 1]) {
      TrimIsSlice(s[..|s| - 1]);
      var i, j :| SpaceAround(s[..|s| - 1], i, j) && Trim(s[..|s| - 1]) == s[..|s| - 1][i..j];
      SpaceAroundBack(s, i, j);
    } else {
      assert Trim(s) == s[0..|s|];
      assert SpaceAround(s, 0, |s|);
    }
  }

  /** A string trims to nothing exactly when it is all whitespace. */
  lemma {:induction false} TrimEmptyIffAllSpace(s: string)
    ensures Trim(s) == [] <==> AllSpace(s)
  {
    var r := Trim(s);
    TrimIsSlice(s);
    var i, j :| SpaceAround(s, i, j) && r == s[i..j];
    if r == [] {
      forall k | 0 <= k < |s| ensures IsSpace(s[k]) {
        if k < i { assert s[..i][k] == s[k]; } else { assert s[j..][k - j] == s[k]; }
      }
    } else {
      assert !IsSpace(s[i]) by { assert r[0] == s[i]; }
    }
  }

  /** A string without whitespace trims to itself. */
  lemma TrimNoSpace(s: string)
    requires NoSpace(s)
    ensures Trim(s) == s
  {
    var r := Trim(s);
    TrimIsSlice(s);
    var i, j :| SpaceAround(s, i, j) && r == s[i..j];
    assert i == 0 && j == |s| by {
      if i > 0 { assert false; }
      if j < |s| { assert false; }
    }
  }

  /** Whitespace appended after a string without whitespace is trimmed away. */
  lemma {:induction false} TrimTrailingSpace(s: string, pad: string)
    requires NoSpace(s) && AllSpace(pad)
    ensures Trim(s + pad) == s
    decreases |pad|
  {
    if pad == [] {
      assert s + pad == s;
      TrimNoSpace(s);
    } else if s == [] {
      assert s + pad == pad;
      TrimEmptyIffAllSpace(pad);
    } else {
      var u := s + pad;
      assert !IsSpace(u[0]) && IsSpace(u[|u| - 1]);
      assert u[..|u| - 1] == s + pad[..|pad| - 1];
      TrimTrailingSpace(s, pad[..|pad| - 1]);
    }
  }

  /** The UTF-16 code units one character takes: two for a character outside
      the Basic Multilingual Plane (a surrogate pair), one otherwise. */
  function CodeUnits(c: char): nat {
    if c as int >= 0x10000 then 2 else 1
  }

  /** `String.prototype.length`: the number of UTF-16 code units, in which a
      character outside the Basic Multilingual Plane counts twice. */
  function Utf16Length(s: string): (r: nat)
    ensures |s| <= r <= 2 * |s|
    ensures r == 0 <==> s == []
  {
    if s == [] then 0 else Utf16Length(s[..|s| - 1]) + CodeUnits(s[|s| - 1])
  }

  /** Every character is in the Basic Multilingual Plane. */
  predicate InBmp(s: string) {
    forall i :: 0 <= i < |s| ==> s[i] as int < 0x10000
  }

  /** `.length` counts the characters exactly when none is a surrogate pair. */
  lemma {:induction false} Utf16LengthBmp(s: string)
    ensures Utf16Length(s) == |s| <==> InBmp(s)
  {
    if s != [] {
      var p := s[..|s| - 1];
      Utf16LengthBmp(p);
      assert InBmp(s) <==> InBmp(p) && s[|s| - 1] as int < 0x10000 by {
        if InBmp(p) && s[|s| - 1] as int < 0x10000 {
          forall i | 0 <= i < |s| ensures s[i] as int < 0x10000 {
            if i < |p| { assert s[i] == p[i]; }
          }
        }
        if InBmp(s) {
          forall i | 0 <= i < |p| ensures p[i] as int < 0x10000 {
            assert p[i] == s[i];
          }
        }
      }
    }
  }

  /** The length of a concatenation is the sum of the lengths. */
  lemma {:induction false} Utf16LengthAppend(a: string, b: string)
    ensures Utf16Length(a + b) == Utf16Length(a) + Utf16Length(b)
    decreases |b|
  {
    if b == [] {
      assert a + b == a;
    } else {
      var c := a + b;
      assert c[..|c| - 1] == a + b[..|b| - 1];
      assert c[|c| - 1] == b[|b| - 1];
      Utf16LengthAppend(a, b[..|b| - 1]);
    }
  }

  /** Trimming never lengthens a string, counted in code units. */
  lemma Utf16LengthTrim(s: string)
    ensures Utf16Length(Trim(s)) <= Utf16Length(s)
  {
    TrimIsSlice(s);
    var i, j :| SpaceAround(s, i, j) && Trim(s) == s[i..j];
    assert s == s[..i] + s[i..j] + s[j..];
    Utf16LengthAppend(s[..i] + s[i..j], s[j..]);
    Utf16LengthAppend(s[..i], s[i..j]);
  }

  /** `indexOf` for one character, -1 when it does not occur. */
  function IndexOf(s: string, c: char): (r: int)
    ensures -1 <= r < |s|
    ensures r == -1 <==> c !in s
    ensures 0 <= r ==> s[r] == c && forall k :: 0 <= k < r ==> s[k] != c
  {
    if s == [] then -1
    else if s[0] == c then 0
    else
      var r := IndexOf(s[1..], c);
      if r == -1 then -1 else r + 1
  }

  /** `String.prototype.startsWith`. */
  predicate StartsWith(s: string, prefix: string) {
    |prefix| <= |s| && s[..|prefix|] == prefix
  }

  /** `String.prototype.endsWith`. */
  predicate EndsWith(s: string, suffix: string) {
    |suffix| <= |s| && s[|s| - |suffix|..] == suffix
  }

  /** Two prefixes of one string are prefixes of each other, the shorter of the longer. */
  lemma PrefixesNest(s: string, p: string, q: string)
    requires StartsWith(s, p) && StartsWith(s, q) && |p| <= |q|
    ensures StartsWith(q, p)
  {
    assert q[..|p|] == s[..|q|][..|p|] == s[..|p|];
  }

  /** `toLowerCase` on one character, over ASCII letters. */
  function ToLowerChar(c: char): (r: char)
    ensures 'A' <= c <= 'Z' ==> 'a' <= r <= 'z' && r as int - c as int == 32
    ensures !('A' <= c <= 'Z') ==> r == c
  {
    if 'A' <= c <= 'Z' then (c as int + 32) as char else c
  }

  function ToUpperChar(c: char): char {
    if 'a' <= c <= 'z' then (c as int - 32) as char else c
  }

  function ToLower(s: string): (r: string)
    ensures |r| == |s| && forall i :: 0 <= i < |s| ==> r[i] == ToLowerChar(s[i])
  {
    if s == [] then [] else [ToLowerChar(s[0])] + ToLower(s[1..])
  }

  function ToUpper(s: string): (r: string)
    ensures |r| == |s| && forall i :: 0 <= i < |s| ==> r[i] == ToUpperChar(s[i])
  {
    if s == [] then [] else [ToUpperChar(s[0])] + ToUpper(s[1..])
  }

  /** `replace(/\s+/g, "")`: every whitespace run is removed, the other
      characters are kept in order. */
  function RemoveSpaces(s: string): (r: string)
    ensures NoSpace(r)
    ensures |r| <= |s|
    ensures NoSpace(s) ==> r == s
  {
    if s == [] then []
    else if IsSpace(s[0]) then RemoveSpaces(s[1..])
    else [s[0]] + RemoveSpaces(s[1..])
  }

  /** Code-unit (lexicographic) order on strings, the order `localeCompare`
      gives on the fixed-width `YYYY-MM` date strings the components sort. */
  predicate CodeUnitLess(a: string, b: string)
    decreases |a|
  {
    if a == [] then b != []
    else if b == [] then false
    else if a[0] != b[0] then a[0] < b[0]
    else CodeUnitLess(a[1..], b[1..])
  }

  lemma {:induction false} CodeUnitLessIrreflexive(a: string)
    ensures !CodeUnitLess(a, a)
    decreases |a|
  {
    if a != [] { CodeUnitLessIrreflexive(a[1..]); }
  }

  lemma {:induction false} CodeUnitLessTransitive(a: string, b: string, c: string)
    requires CodeUnitLess(a, b) && CodeUnitLess(b, c)
    ensures CodeUnitLess(a, c)
    decreases |a|
  {
    if a != [] && b != [] && c != [] && a[0] == b[0] && b[0] == c[0] {
      CodeUnitLessTransitive(a[1..], b[1..], c[1..]);
    }
  }

  lemma {:induction false} CodeUnitLessTotal(a: string, b: string)
    requires a != b
    ensures CodeUnitLess(a, b) || CodeUnitLess(b, a)
    decreases |a|
  {
    if a != [] && b != [] && a[0] == b[0] {
      assert a[1..] != b[1..] by { assert a == [a[0]] + a[1..] && b == [b[0]] + b[1..]; }
      CodeUnitLessTotal(a[1..], b[1..]);
    }
  }

  /** Code-unit order is decided at the first position where the strings differ. */
  lemma {:induction false} CodeUnitLessAt(a: string, b: string, k: nat)
    requires k < |a| && k < |b| && a[..k] == b[..k] && a[k] < b[k]
    ensures CodeUnitLess(a, b)
    decreases k
  {
    if k > 0 {
      assert a[0] == a[..k][0] == b[..k][0] == b[0];
      assert a[1..][..k - 1] == a[..k][1..] == b[..k][1..] == b[1..][..k - 1];
      CodeUnitLessAt(a[1..], b[1..], k - 1);
    }
  }

  lemma CodeUnitLessAsymmetric(a: string, b: string)
    requires CodeUnitLess(a, b)
    ensures !CodeUnitLess(b, a)
  {
    if CodeUnitLess(b, a) {
      CodeUnitLessTransitive(a, b, a);
      CodeUnitLessIrreflexive(a);
    }
  }

  predicate IsDigit(c: char) {
    '0' <= c <= '9'
  }

  function DigitValue(c: char): nat
    requires IsDigit(c)
  {
    c as int - '0' as int
  }

  function DigitChar(d: nat): (c: char)
    requires d < 10
    ensures IsDigit(c) && DigitValue(c) == d
  {
    ('0' as int + d) as char
  }

  predicate AllDigits(s: string) {
    forall i :: 0 <= i < |s| ==> IsDigit(s[i])
  }

  /** The number a run of decimal digits denotes (`parseInt` on it). */
  function DigitsValue(s: string): nat
    requires AllDigits(s)
  {
    if s == [] then 0 else DigitsValue(s[..|s| - 1]) * 10 + DigitValue(s[|s| - 1])
  }

  /** Decimal rendering of a natural number, without leading zeros. */
  function NatToString(n: nat): (r: string)
    ensures r != [] && AllDigits(r) && DigitsValue(r) == n
    ensures |r| > 1 ==> r[0] != '0'
  {
    if n < 10 then [DigitChar(n)]
    else
      var p := NatToString(n / 10);
      var r := p + [DigitChar(n % 10)];
      assert r[..|r| - 1] == p;
      r
  }

  /** The longest run of decimal digits `s` starts with. */
  function LeadingDigits(s: string): (r: string)
    ensures AllDigits(r) && |r| <= |s| && r == s[..|r|]
    ensures |r| < |s| ==> !IsDigit(s[|r|])
  {
    if s != [] && IsDigit(s[0]) then [s[0]] + LeadingDigits(s[1..]) else []
  }

  /** `parseInt(s)` in base 10: leading whitespace and one sign are skipped,
      then the leading digits are read; `None` is `NaN` (no digit follows). */
  function ParseInt(s: string): (r: Option<int>)
    decreases |s|
  {
    if s != [] && IsSpace(s[0]) then ParseInt(s[1..])
    else if s != [] && (s[0] == '-' || s[0] == '+') then
      var d := LeadingDigits(s[1..]);
      if d == [] then None
      else if s[0] == '-' then Some(0 - DigitsValue(d) as int)
      else Some(DigitsValue(d))
    else
      var d := LeadingDigits(s);
      if d == [] then None else Some(DigitsValue(d))
  }

  /** The digits before a non-digit (or the end) are exactly the leading digits. */
  lemma {:induction false} LeadingDigitsOf(digits: string, tail: string)
    requires AllDigits(digits)
    requires tail == [] || !IsDigit(tail[0])
    ensures LeadingDigits(digits + tail) == digits
  {
    if digits == [] {
      assert digits + tail == tail;
    } else {
      assert (digits + tail)[1..] == digits[1..] + tail;
      LeadingDigitsOf(digits[1..], tail);
    }
  }

  /** `parseInt` reads only the leading digits: what follows them does not matter. */
  lemma ParseIntIgnoresTail(digits: string, tail: string)
    requires digits != [] && AllDigits(digits)
    requires tail == [] || !IsDigit(tail[0])
    ensures ParseInt(digits + tail) == Some(DigitsValue(digits))
  {
    LeadingDigitsOf(digits, tail);
    assert (digits + tail)[0] == digits[0];
  }

  /** On a run of digits `parseInt` gives the number the digits denote. */
  lemma ParseIntDigits(s: string)
    requires s != [] && AllDigits(s)
    ensures ParseInt(s) == Some(DigitsValue(s))
  {
    ParseIntIgnoresTail(s, []);
    assert s + [] == s;
  }

  /** `s.split(sep)` for a one-character separator: the pieces between separators. */
  function Split(s: string, sep: char): (r: seq<string>)
    ensures |r| >= 1
    ensures forall i :: 0 <= i < |r| ==> sep !in r[i]
    decreases |s|
  {
    var i := IndexOf(s, sep);
    if i == -1 then [s] else [s[..i]] + Split(s[i + 1..], sep)
  }

  /** Splitting at the only separator gives the two sides. */
  lemma SplitAtOnly(s: string, i: nat, sep: char)
    requires i < |s| && s[i] == sep && sep !in s[..i] && sep !in s[i + 1..]
    ensures Split(s, sep) == [s[..i], s[i + 1..]]
  {
    assert IndexOf(s, sep) == i by {
      assert forall k :: 0 <= k < i ==> s[k] == s[..i][k];
    }
    assert IndexOf(s[i + 1..], sep) == -1;
  }

  /** `pieces.join(sep)`. */
  function Join(pieces: seq<string>, sep: char): string
    requires |pieces| >= 1
  {
    if |pieces| == 1 then pieces[0] else pieces[0] + [sep] + Join(pieces[1..], sep)
  }

  /** Joining a first piece onto at least one more puts a separator between them. */
  lemma JoinCons(head: string, rest: seq<string>, sep: char)
    requires |rest| >= 1
    ensures Join([head] + rest, sep) == head + [sep] + Join(rest, sep)
  {
    assert ([head] + rest)[1..] == rest;
  }

  /** Splitting loses nothing: joining the pieces back gives the input. */
  lemma {:induction false} SplitJoin(s: string, sep: char)
    ensures Join(Split(s, sep), sep) == s
    decreases |s|
  {
    var i := IndexOf(s, sep);
    if i != -1 {
      var rest := Split(s[i + 1..], sep);
      SplitJoin(s[i + 1..], sep);
      JoinCons(s[..i], rest, sep);
      assert s == s[..i] + [sep] + s[i + 1..];
    }
  }
}
