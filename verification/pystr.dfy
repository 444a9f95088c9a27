/** The Python `str` built-ins the downloader relies on, over Dafny's Unicode
    `string` (one `char` per code point, as Python's `len` counts them):
    `str.isspace` on one character, `str.strip()` without argument, the
    substring test `sub in s`, and `str()` of an `int`, together with a
    decimal reader that inverts it. */
module PyStr {
  import opened Optional

  // ------------------------------------------------------------ whitespace

  /** Python's `isspace` on one code point: the characters of bidirectional
      class WS, B or S or of general category Zs. */
  predicate IsSpace(c: char)
  {
    || c == ' '
    || '\t' <= c <= '\r'
    || '\U{1C}' <= c <= '\U{1F}'
    || c == '\U{85}'
    || c == '\U{A0}'
    || c == '\U{1680}'
    || '\U{2000}' <= c <= '\U{200A}'
    || c == '\U{2028}'
    || c == '\U{2029}'
    || c == '\U{202F}'
    || c == '\U{205F}'
    || c == '\U{3000}'
  }

  /** `s` neither starts nor ends with whitespace. */
  predicate NoEdgeSpace(s: string)
  {
    |s| == 0 || (!IsSpace(s[0]) && !IsSpace(s[|s| - 1]))
  }

  /** Every character of `s` is whitespace (vacuously so for ""). */
  predicate AllSpace(s: string)
  {
    forall k :: 0 <= k < |s| ==> IsSpace(s[k])
  }

  /** Cutting `s` down to `s[i..j]` removes only whitespace and leaves none
      at either end: the cut `strip()` must make. */
  ghost predicate StripWindow(s: string, i: int, j: int)
  {
    && 0 <= i <= j <= |s|
    && (forall k :: 0 <= k < i ==> IsSpace(s[k]))
    && (forall k :: j <= k < |s| ==> IsSpace(s[k]))
    && (i < j ==> !IsSpace(s[i]) && !IsSpace(s[j - 1]))
  }

  /** The number of whitespace characters `s` starts with. */
  function LeadingSpaces(s: string): (n: nat)
    ensures n <= |s|
    ensures forall k :: 0 <= k < n ==> IsSpace(s[k])
    ensures n < |s| ==> !IsSpace(s[n])
  {
    if |s| == 0 || !IsSpace(s[0]) then 0 else 1 + LeadingSpaces(s[1..])
  }

  /** The number of whitespace characters `s` ends with. */
  function TrailingSpaces(s: string): (n: nat)
    ensures n <= |s|
    ensures forall k :: |s| - n <= k < |s| ==> IsSpace(s[k])
    ensures n < |s| ==> !IsSpace(s[|s| - 1 - n])
  {
    if |s| == 0 || !IsSpace(s[|s| - 1]) then 0
    else 1 + TrailingSpaces(s[..|s| - 1])
  }

  /** Python's `s.strip()`: `s` without its leading and trailing whitespace. */
  function Strip(s: string): (r: string)
    ensures exists i, j :: StripWindow(s, i, j) && r == s[i..j]
  {
    var i := LeadingSpaces(s);
    var t := s[i..];
    var j := |s| - TrailingSpaces(t);
    assert forall k :: j <= k < |s| ==> s[k] == t[k - i];
    assert i < j ==> s[j - 1] == t[|t| - 1 - TrailingSpaces(t)];
    assert StripWindow(s, i, j);
    s[i..j]
  }

  /** What `strip()` returns has no whitespace at either end. */
  lemma StripNoEdgeSpace(s: string)
    ensures NoEdgeSpace(Strip(s))
  {
    var r := Strip(s);
    var i, j :| StripWindow(s, i, j) && r == s[i..j];
    assert |r| > 0 ==> r[0] == s[i] && r[|r| - 1] == s[j - 1];
  }

  /** A cut that satisfies `StripWindow` is the one `strip()` makes: the
      window is unique, so `StripWindow` is an independent definition of
      `Strip`. */
  lemma StripWindowUnique(s: string, i: int, j: int)
    requires StripWindow(s, i, j)
    ensures Strip(s) == s[i..j]
  {
    var r := Strip(s);
    var i', j' :| StripWindow(s, i', j') && r == s[i'..j'];
    assert (i < j) == (i' < j');
    assert i < j ==> i == i' && j == j';
  }

  /** Stripping a string that has no edge whitespace changes nothing. */
  lemma StripTrimmed(s: string)
    requires NoEdgeSpace(s)
    ensures Strip(s) == s
  {
    assert s[0..|s|] == s;
    assert StripWindow(s, 0, |s|);
    StripWindowUnique(s, 0, |s|);
  }

  /** `strip()` yields the empty string exactly when `s` is all whitespace. */
  lemma StripEmptyIff(s: string)
    ensures Strip(s) == [] <==> AllSpace(s)
  {
    var r := Strip(s);
    var i, j :| StripWindow(s, i, j) && r == s[i..j];
    assert AllSpace(s) ==> i == j;
  }

  // ------------------------------------------------------------ substrings

  /** `sub` occurs in `s` starting at position `i`. */
  ghost predicate OccursAt(s: string, sub: string, i: int)
  {
    0 <= i && i + |sub| <= |s| && s[i..i + |sub|] == sub
  }

  /** `sub` occurs somewhere in `s`: the meaning of Python's `sub in s`. */
  ghost predicate Occurs(s: string, sub: string)
  {
    exists i :: OccursAt(s, sub, i)
  }

  /** Python's `sub in s` on strings, by scanning the suffixes of `s`: it
      succeeds exactly when `sub` occurs at some position of `s`. */
  function Contains(s: string, sub: string): (b: bool)
    ensures b <==> Occurs(s, sub)
  {
    if sub <= s then
      assert OccursAt(s, sub, 0);
      true
    else if |s| > 0 then
      OccursShift(s, sub);
      Contains(s[1..], sub)
    else
      false
  }

  /** When `sub` is not a prefix of `s`, its occurrences in `s` are those in
      `s[1..]`, shifted one place to the right. */
  lemma OccursShift(s: string, sub: string)
    requires |s| > 0 && !(sub <= s)
    ensures Occurs(s, sub) <==> Occurs(s[1..], sub)
  {
    forall i | OccursAt(s, sub, i)
      ensures OccursAt(s[1..], sub, i - 1)
    {
      assert s[1..][i - 1..i - 1 + |sub|] == s[i..i + |sub|];
    }
    forall i | OccursAt(s[1..], sub, i)
      ensures OccursAt(s, sub, i + 1)
    {
      assert s[1..][i..i + |sub|] == s[i + 1..i + 1 + |sub|];
    }
  }

  /** A non-empty `sub` whose first character is absent from `s` cannot
      occur in `s`. */
  lemma FirstCharAbsent(s: string, sub: string)
    requires |sub| > 0 && sub[0] !in s
    ensures !Occurs(s, sub)
  {
    forall i | 0 <= i <= |s|
      ensures !OccursAt(s, sub, i)
    {
      if i + |sub| <= |s| {
        assert s[i..i + |sub|][0] == s[i];
      }
    }
  }

  // ------------------------------------------------------- decimal numbers

  predicate IsDigit(c: char)
  {
    '0' <= c <= '9'
  }

  predicate AllDigits(s: string)
  {
    forall k :: 0 <= k < |s| ==> IsDigit(s[k])
  }

  /** The value of one decimal digit. */
  function DigitValue(c: char): (d: nat)
    requires IsDigit(c)
    ensures d < 10
  {
    c as int - '0' as int
  }

  /** The decimal digit for `d`. */
  function DigitChar(d: nat): (c: char)
    requires d < 10
    ensures IsDigit(c) && DigitValue(c) == d
  {
    ('0' as int + d) as char
  }

  /** A run of decimal digits as `str` writes a non-negative number: at
      least one digit, and no leading zero unless the number is 0. */
  predicate IsNumeral(s: string)
  {
    |s| >= 1 && AllDigits(s) && (s[0] == '0' ==> |s| == 1)
  }

  /** The value of a run of decimal digits, most significant first. */
  function DigitsValue(s: string): nat
    requires AllDigits(s)
  {
    if |s| == 0 then 0
    else 10 * DigitsValue(s[..|s| - 1]) + DigitValue(s[|s| - 1])
  }

  /** The decimal digits of `n`, most significant first: `str(n)` for a
      non-negative `n`. */
  function NatDigits(n: nat): (r: string)
    ensures |r| >= 1 && AllDigits(r)
    ensures r[0] == '0' ==> n == 0
    ensures n == 0 ==> r == "0"
    decreases n
  {
    if n < 10 then [DigitChar(n)] else NatDigits(n / 10) + [DigitChar(n % 10)]
  }

  /** Python's `str(n)` for an `int`: a minus sign before the digits of a
      negative number. */
  function IntToStr(n: int): (r: string)
    ensures |r| >= 1
    ensures n >= 0 ==> AllDigits(r)
    ensures n < 0 ==> r[0] == '-'
    ensures n < 0 ==> |r| >= 2 && r[1] != '0'
    ensures n >= 0 ==> (r[0] == '0' ==> r == "0")
    ensures n < 0 ==> AllDigits(r[1..])
  {
    if n < 0 then "-" + NatDigits(-n) else NatDigits(n)
  }

  /** Reads back what `IntToStr` writes: a numeral, or a minus sign followed
      by a numeral that is not 0. Anything else, a leading zero included, is
      `None`. */
  function ReadInt(s: string): Option<int>
  {
    if |s| >= 2 && s[0] == '-' && IsNumeral(s[1..]) && s[1] != '0' then
      Some(-(DigitsValue(s[1..]) as int))
    else if IsNumeral(s) then Some(DigitsValue(s))
    else None
  }

  /** The digits of `n` read back as `n`. */
  lemma {:induction false} NatDigitsRoundTrip(n: nat)
    ensures DigitsValue(NatDigits(n)) == n
    decreases n
  {
    if n >= 10 {
      var r := NatDigits(n);
      assert r[..|r| - 1] == NatDigits(n / 10);
      NatDigitsRoundTrip(n / 10);
    }
  }

  /** `str(n)` read back is `n`, for every integer. */
  lemma IntToStrRoundTrip(n: int)
    ensures ReadInt(IntToStr(n)) == Some(n)
  {
    if n < 0 {
      NegativeRoundTrip(n);
    } else {
      NatDigitsRoundTrip(n);
    }
  }

  /** A minus sign in front of the digits of `-n` reads back as `n`. */
  lemma NegativeRoundTrip(n: int)
    requires n < 0
    ensures ReadInt(IntToStr(n)) == Some(n)
  {
    var digits := NatDigits(-n);
    var r := "-" + digits;
    assert r[1..] == digits;
    NatDigitsRoundTrip(-n);
    assert ReadInt(r) == Some(n);
  }


  /** A run of digits that does not start with 0 has a positive value. */
  lemma {:induction false} LeadingDigitPositive(s: string)
    requires |s| >= 1 && AllDigits(s) && s[0] != '0'
    ensures DigitsValue(s) > 0
    decreases |s|
  {
    if |s| > 1 {
      LeadingDigitPositive(s[..|s| - 1]);
    }
  }

  /** Writing the value of a numeral gives the numeral back. */
  lemma {:induction false} NumeralRoundTrip(s: string)
    requires IsNumeral(s)
    ensures NatDigits(DigitsValue(s)) == s
    decreases |s|
  {
    var n := DigitsValue(s);
    var last := s[|s| - 1];
    assert DigitChar(DigitValue(last)) == last;
    if |s| > 1 {
      var front := s[..|s| - 1];
      LeadingDigitPositive(front);
      NumeralRoundTrip(front);
      assert n / 10 == DigitsValue(front) && n % 10 == DigitValue(last);
      assert front + [last] == s;
    }
  }

  /** `ReadInt` accepts only what `str` writes: whatever it reads as `n` is
      exactly `str(n)`. */
  lemma ReadIntExact(s: string, n: int)
    requires ReadInt(s) == Some(n)
    ensures IntToStr(n) == s
  {
    if |s| >= 2 && s[0] == '-' && IsNumeral(s[1..]) && s[1] != '0' {
      LeadingDigitPositive(s[1..]);
      NumeralRoundTrip(s[1..]);
      assert s == "-" + s[1..];
    } else {
      NumeralRoundTrip(s);
    }
  }
}
