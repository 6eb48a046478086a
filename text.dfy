/** Character classes, whitespace stripping, Python-style string ordering and
    decimal rendering of small numbers: the string operations the classroom
    engine relies on. */
module Text {

  /** Whitespace as Python's `str.isspace` and the `\s` regex class see it,
      restricted to the Latin-1 range. */
  predicate IsSpace(c: char) {
    ('\t' <= c <= '\r') || ('\U{1c}' <= c <= ' ') || c == '\U{85}' || c == '\U{a0}'
  }

  predicate IsDigit(c: char) {
    '0' <= c <= '9'
  }

  function DigitValue(c: char): (d: nat)
    requires IsDigit(c)
    ensures d < 10
  {
    (c as int) - ('0' as int)
  }

  function DigitChar(d: nat): (c: char)
    requires d < 10
    ensures IsDigit(c) && DigitValue(c) == d
  {
    (('0' as int) + d) as char
  }

  /** ASCII upper-casing, as `str.upper` does on ASCII letters. */
  function UpperChar(c: char): (u: char)
    ensures 'a' <= c <= 'z' ==> 'A' <= u <= 'Z'
    ensures !('a' <= c <= 'z') ==> u == c
  {
    if 'a' <= c <= 'z' then ((c as int) - 32) as char else c
  }

  function Upper(s: string): (u: string)
    ensures |u| == |s|
    ensures forall k :: 0 <= k < |s| ==> u[k] == UpperChar(s[k])
  {
    if s == [] then [] else [UpperChar(s[0])] + Upper(s[1..])
  }

  /** Number of leading whitespace characters. */
  function LeadingSpaces(s: string): (n: nat)
    ensures n <= |s|
    ensures forall k :: 0 <= k < n ==> IsSpace(s[k])
    ensures n < |s| ==> !IsSpace(s[n])
  {
    if s == [] || !IsSpace(s[0]) then 0 else 1 + LeadingSpaces(s[1..])
  }

  /** Leading whitespace followed by something else is counted exactly. */
  lemma {:induction false} LeadingSpacesOf(g: string, rest: string)
    requires forall k :: 0 <= k < |g| ==> IsSpace(g[k])
    requires rest != [] && !IsSpace(rest[0])
    ensures LeadingSpaces(g + rest) == |g|
  {
    if g != [] {
      assert (g + rest)[1..] == g[1..] + rest;
      LeadingSpacesOf(g[1..], rest);
    } else {
      assert g + rest == rest;
    }
  }

  /** Number of trailing whitespace characters. */
  function TrailingSpaces(s: string): (n: nat)
    ensures n <= |s|
    ensures forall k :: |s| - n <= k < |s| ==> IsSpace(s[k])
    ensures n < |s| ==> !IsSpace(s[|s| - 1 - n])
  {
    if s == [] || !IsSpace(s[|s| - 1]) then 0 else 1 + TrailingSpaces(s[..|s| - 1])
  }

  /** Trailing whitespace after something else is counted exactly. */
  lemma {:induction false} TrailingSpacesOf(rest: string, g: string)
    requires forall k :: 0 <= k < |g| ==> IsSpace(g[k])
    requires rest != [] && !IsSpace(rest[|rest| - 1])
    ensures TrailingSpaces(rest + g) == |g|
  {
    if g != [] {
      assert (rest + g)[..|rest + g| - 1] == rest + g[..|g| - 1];
      TrailingSpacesOf(rest, g[..|g| - 1]);
    } else {
      assert rest + g == rest;
    }
  }

  /** Python's `str.strip()`: drop whitespace at both ends. */
  function Strip(s: string): (r: string)
    ensures |r| <= |s|
    ensures r == [] <==> forall k :: 0 <= k < |s| ==> IsSpace(s[k])
    ensures r != [] ==> !IsSpace(r[0]) && !IsSpace(r[|r| - 1])
    ensures r != [] ==> LeadingSpaces(s) + |r| <= |s| && s[LeadingSpaces(s)..LeadingSpaces(s) + |r|] == r
    ensures r != [] ==> forall k :: LeadingSpaces(s) + |r| <= k < |s| ==> IsSpace(s[k])
  {
    var lo := LeadingSpaces(s);
    if lo == |s| then []
    else
      var hi := |s| - TrailingSpaces(s);
      assert lo < hi by {
        assert !IsSpace(s[lo]);
      }
      s[lo..hi]
  }

  /** A string with no whitespace at either end is its own strip. */
  lemma StripUnchanged(s: string)
    requires s != [] && !IsSpace(s[0]) && !IsSpace(s[|s| - 1])
    ensures Strip(s) == s
  {
  }

  /** A string that starts with a non-space character keeps its front. */
  lemma StripKeepsFront(s: string)
    requires s != [] && !IsSpace(s[0])
    ensures Strip(s) != [] && Strip(s) == s[..|Strip(s)|]
  {
  }

  /** Whitespace around a string is what `strip` removes. */
  lemma StripPadded(a: string, core: string, b: string)
    requires forall k :: 0 <= k < |a| ==> IsSpace(a[k])
    requires forall k :: 0 <= k < |b| ==> IsSpace(b[k])
    requires core != [] && !IsSpace(core[0]) && !IsSpace(core[|core| - 1])
    ensures Strip(a + core + b) == core
  {
    var s := a + core + b;
    assert s == a + (core + b);
    LeadingSpacesOf(a, core + b);
    assert s == (a + core) + b;
    TrailingSpacesOf(a + core, b);
    assert s[|a|..|s| - |b|] == core;
  }

  /** A string with something left after `strip` is that text with
      whitespace around it. */
  lemma StripParts(s: string) returns (lead: string, trail: string)
    requires Strip(s) != []
    ensures s == lead + Strip(s) + trail
    ensures forall k :: 0 <= k < |lead| ==> IsSpace(lead[k])
    ensures forall k :: 0 <= k < |trail| ==> IsSpace(trail[k])
  {
    var r := Strip(s);
    var lo := LeadingSpaces(s);
    var hi := lo + |r|;
    assert hi <= |s| && s[lo..hi] == r;
    lead, trail := s[..lo], s[hi..];
    SplitThree(s, lo, hi);
  }

  /** Cutting `s` at `lo` and `hi`, with whitespace before `lo` and from
      `hi` on. */
  lemma SplitThree(s: string, lo: nat, hi: nat)
    requires lo <= hi <= |s|
    requires forall k :: 0 <= k < lo ==> IsSpace(s[k])
    requires forall k :: hi <= k < |s| ==> IsSpace(s[k])
    ensures s == s[..lo] + s[lo..hi] + s[hi..]
    ensures forall k :: 0 <= k < lo ==> IsSpace(s[..lo][k])
    ensures forall k :: 0 <= k < |s| - hi ==> IsSpace(s[hi..][k])
  {
    forall k | 0 <= k < |s| - hi ensures IsSpace(s[hi..][k]) {
      assert s[hi..][k] == s[hi + k];
    }
  }

  /** Stripping twice is stripping once. */
  lemma StripIdempotent(s: string)
    ensures Strip(Strip(s)) == Strip(s)
  {
    if Strip(s) != [] {
      StripUnchanged(Strip(s));
    }
  }

  /** Python's `<` on strings: lexicographic by code point, a proper prefix
      being smaller. */
  predicate StrLt(a: string, b: string) {
    if a == [] then b != []
    else if b == [] then false
    else if a[0] != b[0] then a[0] < b[0]
    else StrLt(a[1..], b[1..])
  }

  lemma {:induction false} StrLtIrreflexive(a: string)
    ensures !StrLt(a, a)
  {
    if a != [] { StrLtIrreflexive(a[1..]); }
  }

  lemma {:induction false} StrLtTransitive(a: string, b: string, c: string)
    requires StrLt(a, b) && StrLt(b, c)
    ensures StrLt(a, c)
  {
    if a != [] && b != [] && c != [] && a[0] == b[0] && b[0] == c[0] {
      StrLtTransitive(a[1..], b[1..], c[1..]);
    }
  }

  lemma {:induction false} StrLtTotal(a: string, b: string)
    ensures a == b || StrLt(a, b) || StrLt(b, a)
  {
    if a != [] && b != [] && a[0] == b[0] {
      StrLtTotal(a[1..], b[1..]);
      if a[1..] == b[1..] {
        assert a == [a[0]] + a[1..] && b == [b[0]] + b[1..];
      }
    }
  }

  /** Python's `str(n)` for a natural number: decimal, no padding. */
  function NatToString(n: nat): (s: string)
    ensures |s| >= 1
    ensures forall k :: 0 <= k < |s| ==> IsDigit(s[k])
    ensures n < 10 <==> |s| == 1
    ensures 10 <= n < 100 <==> |s| == 2
    decreases n
  {
    if n < 10 then [DigitChar(n)] else NatToString(n / 10) + [DigitChar(n % 10)]
  }

  /** Python's `f"{n:02d}"` for 0 <= n < 100. */
  function TwoDigits(n: nat): (s: string)
    requires n < 100
    ensures |s| == 2 && IsDigit(s[0]) && IsDigit(s[1])
    ensures DigitValue(s[0]) * 10 + DigitValue(s[1]) == n
  {
    [DigitChar(n / 10), DigitChar(n % 10)]
  }

  /** Two digit characters are the rendering of the number they spell. */
  lemma DigitsText(a: char, b: char)
    requires IsDigit(a) && IsDigit(b)
    ensures TwoDigits(DigitValue(a) * 10 + DigitValue(b)) == [a, b]
  {
    var n := DigitValue(a) * 10 + DigitValue(b);
    assert n / 10 == DigitValue(a) && n % 10 == DigitValue(b);
    DigitText(a);
    DigitText(b);
  }

  lemma DigitText(c: char)
    requires IsDigit(c)
    ensures DigitChar(DigitValue(c)) == c
  {
  }

  /** Decimal value of a non-empty digit string. */
  function DecimalValue(s: string): nat
    requires forall k :: 0 <= k < |s| ==> IsDigit(s[k])
  {
    if s == [] then 0 else DecimalValue(s[..|s| - 1]) * 10 + DigitValue(s[|s| - 1])
  }

  lemma {:induction false} NatToStringValue(n: nat)
    ensures DecimalValue(NatToString(n)) == n
    decreases n
  {
    if n >= 10 {
      NatToStringValue(n / 10);
      var s := NatToString(n);
      assert s[..|s| - 1] == NatToString(n / 10);
    }
  }

  /** Two-digit numbers render as what TwoDigits gives. */
  lemma TwoDigitsAgree(n: nat)
    requires 10 <= n < 100
    ensures NatToString(n) == TwoDigits(n)
  {
  }

  /** Strings of one length compare as their digits do numerically. */
  lemma {:induction false} DigitStringsOrder(a: string, b: string)
    requires |a| == |b|
    requires forall k :: 0 <= k < |a| ==> IsDigit(a[k])
    requires forall k :: 0 <= k < |b| ==> IsDigit(b[k])
    ensures StrLt(a, b) <==> DecimalValue(a) < DecimalValue(b)
  {
    if a != [] {
      DigitStringsOrder(a[1..], b[1..]);
      DecimalFront(a);
      DecimalFront(b);
      var p := Pow10(|a| - 1);
      DecimalBound(a[1..]);
      DecimalBound(b[1..]);
      if a[0] < b[0] {
        FrontDominates(DigitValue(a[0]), DigitValue(b[0]), p, DecimalValue(a[1..]), DecimalValue(b[1..]));
      } else if b[0] < a[0] {
        FrontDominates(DigitValue(b[0]), DigitValue(a[0]), p, DecimalValue(b[1..]), DecimalValue(a[1..]));
      }
    }
  }

  lemma FrontDominates(da: nat, db: nat, p: nat, ra: nat, rb: nat)
    requires da < db && ra < p
    ensures da * p + ra < db * p + rb
  {
    assert da * p + p <= db * p by {
      assert (da + 1) * p <= db * p;
    }
  }

  function Pow10(k: nat): (p: nat)
    ensures p >= 1
  {
    if k == 0 then 1 else 10 * Pow10(k - 1)
  }

  lemma {:induction false} DecimalBound(s: string)
    requires forall k :: 0 <= k < |s| ==> IsDigit(s[k])
    ensures DecimalValue(s) < Pow10(|s|)
  {
    if s != [] {
      DecimalBound(s[..|s| - 1]);
    }
  }

  lemma ShiftDigit(d0: nat, p: nat, x: nat, last: nat)
    ensures (d0 * p + x) * 10 + last == d0 * (10 * p) + (x * 10 + last)
  {
  }

  /** The leading digit of a numeral weighs 10^(length-1). */
  lemma {:induction false} DecimalFront(s: string)
    requires s != []
    requires forall k :: 0 <= k < |s| ==> IsDigit(s[k])
    ensures DecimalValue(s) == DigitValue(s[0]) * Pow10(|s| - 1) + DecimalValue(s[1..])
  {
    if |s| > 1 {
      var t := s[..|s| - 1];
      DecimalFront(t);
      assert t[1..] == s[1..][..|s[1..]| - 1];
      assert t[0] == s[0];
      var d0, p, last := DigitValue(s[0]), Pow10(|t| - 1), DigitValue(s[|s| - 1]);
      assert DecimalValue(s[1..]) == DecimalValue(t[1..]) * 10 + last;
      assert Pow10(|s| - 1) == 10 * p;
      ShiftDigit(d0, p, DecimalValue(t[1..]), last);
    } else {
      assert s[..0] == [];
    }
  }
}
