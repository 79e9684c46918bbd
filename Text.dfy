/**
 * String primitives the payslip generator relies on: Python's `str.strip()`
 * (with its whitespace set), `str.lower()` restricted to ASCII letters,
 * `str.rfind`, and decimal digit strings for displaying amounts.
 */
module Text {

  /** The characters Python's `str.isspace()` (and so `str.strip()`) treats as
      whitespace (by code point): tab to carriage return, the four ASCII separators, space, NEL,
      no-break space, ogham space mark, the spaces U+2000 to U+200A, line and
      paragraph separators, narrow no-break space, medium mathematical space and
      ideographic space. */
  predicate IsSpace(c: char) {
    var n := c as int;
    (0x09 <= n <= 0x0D) || (0x1C <= n <= 0x20) || n == 0x85 || n == 0xA0 || n == 0x1680
    || (0x2000 <= n <= 0x200A) || n == 0x2028 || n == 0x2029 || n == 0x202F
    || n == 0x205F || n == 0x3000
  }

  predicate IsUpper(c: char) { 'A' <= c <= 'Z' }

  /** ASCII case folding of one character. */
  function LowerChar(c: char): (d: char)
    ensures !IsUpper(d)
    ensures IsUpper(c) ==> d as int == c as int + 32
    ensures !IsUpper(c) ==> d == c
  {
    if IsUpper(c) then (c as int + 32) as char else c
  }

  const Uppercase: string := "ABCDEFGHIJKLMNOPQRSTUVWXYZ"
  const Lowercase: string := "abcdefghijklmnopqrstuvwxyz"

  /** A capital letter lower-cases to the small letter at the same place in the
      alphabet. */
  lemma LowerCharAlphabet(c: char)
    requires IsUpper(c)
    ensures var k := c as int - 'A' as int;
      0 <= k < 26 && Uppercase[k] == c && LowerChar(c) == Lowercase[k]
  {
    var k := c as int - 'A' as int;
    assert forall j :: 0 <= j < 26 ==> Uppercase[j] as int == 'A' as int + j;
    assert forall j :: 0 <= j < 26 ==> Lowercase[j] as int == 'a' as int + j;
  }

  /** `s.lower()`, for the ASCII letters. */
  function Lower(s: string): (r: string)
    ensures |r| == |s|
  {
    if s == [] then [] else [LowerChar(s[0])] + Lower(s[1..])
  }

  /** Lower-casing folds each position on its own. */
  lemma {:induction false} LowerAt(s: string, i: nat)
    requires i < |s|
    ensures Lower(s)[i] == LowerChar(s[i])
  {
    if i > 0 {
      LowerAt(s[1..], i - 1);
    }
  }

  /** Lower-casing is idempotent. */
  lemma LowerIdempotent(s: string)
    ensures Lower(Lower(s)) == Lower(s)
  {
    var l := Lower(s);
    assert |Lower(l)| == |l|;
    forall i | 0 <= i < |l|
      ensures Lower(l)[i] == l[i]
    {
      LowerAt(l, i);
      LowerAt(s, i);
    }
  }

  /** No whitespace character is changed by lower-casing. */
  lemma LowerKeepsSpaces(s: string)
    ensures forall i :: 0 <= i < |s| ==> (IsSpace(Lower(s)[i]) <==> IsSpace(s[i]))
  {
    forall i | 0 <= i < |s|
      ensures IsSpace(Lower(s)[i]) <==> IsSpace(s[i])
    {
      LowerAt(s, i);
      LowerCharKeepsSpace(s[i]);
    }
  }

  /** `s.lstrip()`: drop the leading whitespace. */
  function StripLeading(s: string): (r: string)
    ensures |r| <= |s|
    decreases |s|
  {
    if s != [] && IsSpace(s[0]) then StripLeading(s[1..]) else s
  }

  /** `s.rstrip()`: drop the trailing whitespace. */
  function StripTrailing(s: string): (r: string)
    ensures |r| <= |s|
    decreases |s|
  {
    if s != [] && IsSpace(s[|s| - 1]) then StripTrailing(s[..|s| - 1]) else s
  }

  /** `s.strip()`: remove whitespace from both ends. */
  function Strip(s: string): (r: string)
  {
    StripTrailing(StripLeading(s))
  }

  /** `lstrip` keeps a suffix, cuts only whitespace, and stops at a non-whitespace character. */
  lemma {:induction false} StripLeadingShape(s: string)
    ensures StripLeading(s) == s[|s| - |StripLeading(s)|..]
    ensures StripLeading(s) == [] || !IsSpace(StripLeading(s)[0])
    ensures AllSpace(s[..|s| - |StripLeading(s)|])
    decreases |s|
  {
    if s != [] && IsSpace(s[0]) {
      StripLeadingShape(s[1..]);
      var r := StripLeading(s);
      var n := |s| - |r|;
      assert s[1..][|s[1..]| - |r|..] == s[n..];
      forall k | 0 <= k < n
        ensures IsSpace(s[..n][k])
      {
        if k > 0 {
          assert s[..n][k] == s[1..][..n - 1][k - 1];
        }
      }
    }
  }

  /** `rstrip` keeps a prefix, cuts only whitespace, and stops at a non-whitespace character. */
  lemma {:induction false} StripTrailingShape(s: string)
    ensures StripTrailing(s) == s[..|StripTrailing(s)|]
    ensures StripTrailing(s) == [] || !IsSpace(StripTrailing(s)[|StripTrailing(s)| - 1])
    ensures AllSpace(s[|StripTrailing(s)|..])
    decreases |s|
  {
    if s != [] && IsSpace(s[|s| - 1]) {
      var t := s[..|s| - 1];
      StripTrailingShape(t);
      var r := StripTrailing(s);
      assert t[..|r|] == s[..|r|];
      forall k | 0 <= k < |s| - |r|
        ensures IsSpace(s[|r|..][k])
      {
        if k < |s| - |r| - 1 {
          assert s[|r|..][k] == t[|r|..][k];
        }
      }
    }
  }

  predicate AllSpace(s: string) {
    forall k :: 0 <= k < |s| ==> IsSpace(s[k])
  }

  /** What `Strip` returns: `s` is some whitespace, then the result, then some
      whitespace, and the result has no whitespace at either end. */
  lemma StripShape(s: string)
    ensures var lead := |s| - |StripLeading(s)|;
      lead + |Strip(s)| <= |s|
      && Strip(s) == s[lead..lead + |Strip(s)|]
      && AllSpace(s[..lead]) && AllSpace(s[lead + |Strip(s)|..])
    ensures Strip(s) == [] || (!IsSpace(Strip(s)[0]) && !IsSpace(Strip(s)[|Strip(s)| - 1]))
  {
    var l := StripLeading(s);
    var r := StripTrailing(l);
    StripLeadingShape(s);
    StripTrailingShape(l);
    var lead := |s| - |l|;
    SuffixSlices(s, lead, |r|);
    if r != [] {
      assert r[0] == l[0];
    }
  }

  /** Slicing a suffix again is slicing the whole sequence. */
  lemma SuffixSlices(s: string, lead: nat, k: nat)
    requires lead + k <= |s|
    ensures s[lead..][..k] == s[lead..lead + k]
    ensures s[lead..][k..] == s[lead + k..]
  {
  }

  /** Conversely, whitespace on either side never changes what `Strip` returns. */
  lemma StripPadded(lead: string, core: string, trail: string)
    requires AllSpace(lead) && AllSpace(trail)
    requires core == [] || (!IsSpace(core[0]) && !IsSpace(core[|core| - 1]))
    ensures Strip(lead + core + trail) == core
  {
    var rest := core + trail;
    assert lead + core + trail == lead + rest;
    LeadingPadded(lead, rest);
    if core == [] {
      assert rest == trail;
      AllSpaceStripsLeading(trail);
    } else {
      assert rest[0] == core[0];
      assert StripLeading(rest) == rest;
      TrailingPadded(core, trail);
    }
  }

  lemma AllSpaceStripsLeading(s: string)
    requires AllSpace(s)
    ensures StripLeading(s) == []
  {
    StripLeadingShape(s);
  }

  lemma {:induction false} LeadingPadded(lead: string, rest: string)
    requires AllSpace(lead)
    ensures StripLeading(lead + rest) == StripLeading(rest)
    decreases |lead|
  {
    if lead != [] {
      assert (lead + rest)[1..] == lead[1..] + rest;
      LeadingPadded(lead[1..], rest);
    } else {
      assert lead + rest == rest;
    }
  }

  lemma {:induction false} TrailingPadded(rest: string, trail: string)
    requires AllSpace(trail)
    requires rest == [] || !IsSpace(rest[|rest| - 1])
    ensures StripTrailing(rest + trail) == rest
    decreases |trail|
  {
    if trail != [] {
      assert (rest + trail)[..|rest + trail| - 1] == rest + trail[..|trail| - 1];
      TrailingPadded(rest, trail[..|trail| - 1]);
    } else {
      assert rest + trail == rest;
    }
  }

  /** Lower-casing never turns a whitespace character into a non-whitespace one,
      nor the other way round. */
  lemma LowerCharKeepsSpace(c: char)
    ensures IsSpace(LowerChar(c)) <==> IsSpace(c)
  {
  }

  /** Lower-casing works piece by piece. */
  lemma {:induction false} LowerAppend(a: string, b: string)
    ensures Lower(a + b) == Lower(a) + Lower(b)
  {
    if a != [] {
      assert (a + b)[1..] == a[1..] + b;
      LowerAppend(a[1..], b);
    } else {
      assert a + b == b;
    }
  }

  predicate NoUpper(s: string) {
    forall k :: 0 <= k < |s| ==> !IsUpper(s[k])
  }

  /** A string without capital letters is left as it is by lower-casing. */
  lemma {:induction false} LowerOfNoUpper(s: string)
    requires NoUpper(s)
    ensures Lower(s) == s
  {
    if s != [] {
      assert NoUpper(s[1..]) by {
        forall k | 0 <= k < |s[1..]|
          ensures !IsUpper(s[1..][k])
        {
          assert s[1..][k] == s[k + 1];
        }
      }
      LowerOfNoUpper(s[1..]);
      assert s == [s[0]] + s[1..];
    }
  }

  /** Whitespace contains no capital letters. */
  lemma SpacesHaveNoUpper(s: string)
    requires AllSpace(s)
    ensures NoUpper(s)
  {
    forall k | 0 <= k < |s|
      ensures !IsUpper(s[k])
    {
      assert IsSpace(s[k]);
    }
  }

  /** Lower-casing and stripping commute, since neither affects the other's characters. */
  lemma LowerStripCommute(s: string)
    ensures Strip(Lower(s)) == Lower(Strip(s))
  {
    var x, y := StripSplit(s);
    var r := Strip(s);
    LowerPadded(x, r, y);
    LowerEnds(r);
    StripPadded(x, Lower(r), y);
  }

  /** A string is its stripped core between a whitespace prefix and suffix. */
  lemma StripSplit(s: string) returns (x: string, y: string)
    ensures AllSpace(x) && AllSpace(y)
    ensures s == x + Strip(s) + y
    ensures Strip(s) == [] || (!IsSpace(Strip(s)[0]) && !IsSpace(Strip(s)[|Strip(s)| - 1]))
  {
    StripShape(s);
    var r := Strip(s);
    var lead := |s| - |StripLeading(s)|;
    x, y := s[..lead], s[lead + |r|..];
    assert s == x + r + y;
  }

  /** Lower-casing leaves whitespace padding as it is. */
  lemma LowerPadded(x: string, r: string, y: string)
    requires AllSpace(x) && AllSpace(y)
    ensures Lower(x + r + y) == x + Lower(r) + y
  {
    LowerAppend(x + r, y);
    LowerAppend(x, r);
    SpacesHaveNoUpper(x);
    SpacesHaveNoUpper(y);
    LowerOfNoUpper(x);
    LowerOfNoUpper(y);
  }

  /** Lower-casing keeps a string free of whitespace at its ends. */
  lemma LowerEnds(r: string)
    requires r == [] || (!IsSpace(r[0]) && !IsSpace(r[|r| - 1]))
    ensures Lower(r) == [] || (!IsSpace(Lower(r)[0]) && !IsSpace(Lower(r)[|r| - 1]))
  {
    if r != [] {
      LowerAt(r, 0);
      LowerAt(r, |r| - 1);
      LowerCharKeepsSpace(r[0]);
      LowerCharKeepsSpace(r[|r| - 1]);
    }
  }

  /** `s.rfind(c)`: the position of the last `c` in `s`, or -1 when there is none. */
  function LastIndexOf(s: string, c: char): (r: int)
    ensures -1 <= r < |s|
  {
    if s == [] then -1
    else if s[|s| - 1] == c then |s| - 1
    else LastIndexOf(s[..|s| - 1], c)
  }

  /** `rfind` finds a `c`, the last one, and finds none only when there is none. */
  lemma {:induction false} LastIndexOfSpec(s: string, c: char)
    ensures LastIndexOf(s, c) >= 0 ==> s[LastIndexOf(s, c)] == c
    ensures forall k :: LastIndexOf(s, c) < k < |s| ==> s[k] != c
    ensures LastIndexOf(s, c) == -1 <==> c !in s
  {
    if s != [] && s[|s| - 1] != c {
      var t := s[..|s| - 1];
      LastIndexOfSpec(t, c);
      assert forall k :: 0 <= k < |t| ==> t[k] == s[k];
      assert c in t ==> c in s;
    }
  }

  /** `rfind` on a concatenation: a hit in the right part wins, otherwise the left
      part is searched. */
  lemma {:induction false} LastIndexOfAppend(a: string, b: string, c: char)
    ensures LastIndexOf(a + b, c) ==
      if LastIndexOf(b, c) >= 0 then |a| + LastIndexOf(b, c) else LastIndexOf(a, c)
    decreases |b|
  {
    if b == [] {
      assert a + b == a;
    } else {
      var ab := a + b;
      assert ab[|ab| - 1] == b[|b| - 1];
      if b[|b| - 1] != c {
        assert ab[..|ab| - 1] == a + b[..|b| - 1];
        LastIndexOfAppend(a, b[..|b| - 1], c);
      }
    }
  }

  predicate IsDigit(c: char) { '0' <= c <= '9' }

  predicate AllDigits(s: string) {
    forall k :: 0 <= k < |s| ==> IsDigit(s[k])
  }

  function DigitChar(d: nat): (c: char)
    requires d < 10
    ensures IsDigit(c)
  {
    ('0' as int + d) as char
  }

  function DigitValue(c: char): (d: nat)
    requires IsDigit(c)
    ensures d < 10 && DigitChar(d) == c
  {
    c as int - '0' as int
  }

  /** Python's `str(n)` for a non-negative integer: decimal digits, no leading zero. */
  function NatToString(n: nat): (s: string)
    ensures |s| >= 1 && AllDigits(s)
    ensures s[0] == '0' ==> n == 0 && s == "0"
  {
    if n < 10 then [DigitChar(n)] else NatToString(n / 10) + [DigitChar(n % 10)]
  }

  /** The value of a string of decimal digits. */
  function DigitsValue(s: string): nat
    requires AllDigits(s)
  {
    if s == [] then 0 else DigitsValue(s[..|s| - 1]) * 10 + DigitValue(s[|s| - 1])
  }

  /** Reading back the digits of `n` gives `n`. */
  lemma {:induction false} NatToStringRoundTrip(n: nat)
    ensures DigitsValue(NatToString(n)) == n
  {
    if n >= 10 {
      var s := NatToString(n);
      assert s[..|s| - 1] == NatToString(n / 10);
      NatToStringRoundTrip(n / 10);
    }
  }
}
