/** Character-string helpers the engine is built on: the C string view of a
    NUL-terminated buffer, `strstr`-style substring search, CR/LF stripping,
    and the few Arduino `String` operations the engine uses (`indexOf`,
    `substring`, `toInt`, decimal rendering), each with its assumed semantics
    stated in its contract. */
module Text {

  const CR: char := '\r'
  const LF: char := '\n'
  const NUL: char := '\0'
  const QUOTE: char := '"'

  /** The C `uint16_t` view of an integer: `-1` becomes 65535. */
  function U16(x: int): (r: nat)
    ensures r < 0x1_0000
    ensures 0 <= x < 0x1_0000 ==> r == x
    ensures x == -1 ==> r == 0xFFFF
  {
    x % 0x1_0000
  }

  function Min(a: int, b: int): int { if a <= b then a else b }

  /** `t` occurs in `s` starting at position `i`. */
  predicate OccursAt(s: string, t: string, i: nat) {
    i + |t| <= |s| && s[i..i + |t|] == t
  }

  /** First position at or after `from` where `t` occurs in `s`, or -1.
      This is `String::indexOf(t, from)` and, with `from == 0`, the
      position `strstr` finds. */
  function Find(s: string, t: string, from: nat): (r: int)
    ensures r == -1 || (from <= r && OccursAt(s, t, r))
    ensures r >= 0 ==> forall i :: from <= i < r ==> !OccursAt(s, t, i)
    ensures r == -1 ==> forall i :: from <= i ==> !OccursAt(s, t, i)
    decreases |s| - from
  {
    if from + |t| > |s| then -1
    else if s[from..from + |t|] == t then from
    else Find(s, t, from + 1)
  }

  /** `strstr(s, t) != NULL` for a C string `s`. */
  predicate Contains(s: string, t: string) {
    Find(s, t, 0) >= 0
  }

  lemma ContainsAt(s: string, t: string, i: nat)
    requires OccursAt(s, t, i)
    ensures Contains(s, t)
  {
  }

  lemma ContainsLength(s: string, t: string)
    requires Contains(s, t)
    ensures |t| <= |s|
  {
  }

  /** A text that occurs in `s` has its first character in `s`. */
  lemma ContainsHead(s: string, t: string)
    requires Contains(s, t) && |t| > 0
    ensures t[0] in s
  {
    var r := Find(s, t, 0);
    assert s[r..r + |t|][0] == s[r];
  }

  /** The text a C string function sees in a char array: everything before
      the first NUL (the whole array when it holds none). */
  function CString(b: string): (r: string)
    ensures |r| <= |b| && r == b[..|r|]
    ensures NUL !in r
    ensures |r| < |b| ==> b[|r|] == NUL
  {
    if b == [] then []
    else if b[0] == NUL then []
    else [b[0]] + CString(b[1..])
  }

  /** The three facts above determine the C string completely. */
  lemma CStringUnique(b: string, r: string)
    requires |r| <= |b| && r == b[..|r|]
    requires NUL !in r
    requires |r| < |b| ==> b[|r|] == NUL
    ensures CString(b) == r
  {
  }

  /** The C string of a prefix begins the C string of the whole. */
  lemma CStringPrefix(f: string, rest: string)
    ensures |CString(f)| <= |CString(f + rest)|
    ensures CString(f + rest)[..|CString(f)|] == CString(f)
  {
    if NUL in f {
      var c := CString(f);
      assert |c| < |f| && f[|c|] == NUL;
      CStringUnique(f + rest, c);
    } else {
      CStringNoNul(f);
      CStringOverwrite(f, rest);
    }
  }

  /** Writing a NUL at `i` cuts the C string at `i` at the latest. */
  lemma CStringTerminate(b: string, i: nat)
    requires i < |b|
    ensures CString(b[i := NUL]) == CString(b[..i])
  {
    var c := CString(b[..i]);
    CStringUnique(b[i := NUL], c);
  }

  lemma CStringNoNul(b: string)
    requires NUL !in b
    ensures CString(b) == b
  {
    CStringUnique(b, b);
  }

  /** A C string over a buffer whose first `|f|` slots hold `f` (free of NUL):
      it is `f` followed by the C string of what is left behind it. */
  lemma CStringOverwrite(f: string, rest: string)
    requires NUL !in f
    ensures CString(f + rest) == f + CString(rest)
  {
    var r := f + CString(rest);
    var b := f + rest;
    assert r == b[..|r|];
    CStringUnique(b, r);
  }

  predicate IsLineEnd(c: char) { c == CR || c == LF }

  /** No character of `t` ends a line or a C string. */
  predicate Plain(t: string) {
    forall k :: 0 <= k < |t| ==> !IsLineEnd(t[k]) && t[k] != NUL
  }

  /** The input with every CR and LF removed. */
  function Strip(a: string): (r: string)
    ensures |r| <= |a|
    ensures forall k :: 0 <= k < |r| ==> !IsLineEnd(r[k])
  {
    if a == [] then []
    else (if IsLineEnd(a[0]) then [] else [a[0]]) + Strip(a[1..])
  }

  lemma {:induction false} StripAppend(a: string, b: string)
    ensures Strip(a + b) == Strip(a) + Strip(b)
    decreases |a|
  {
    if a == [] {
      assert a + b == b;
    } else {
      assert (a + b)[1..] == a[1..] + b;
      StripAppend(a[1..], b);
    }
  }

  lemma {:induction false} StripOnlyLineEnds(a: string)
    requires forall k :: 0 <= k < |a| ==> IsLineEnd(a[k])
    ensures Strip(a) == []
    decreases |a|
  {
    if a != [] {
      StripOnlyLineEnds(a[1..]);
    }
  }

  lemma {:induction false} StripKeeps(a: string)
    requires forall k :: 0 <= k < |a| ==> !IsLineEnd(a[k])
    ensures Strip(a) == a
    decreases |a|
  {
    if a != [] {
      StripKeeps(a[1..]);
      assert a == [a[0]] + a[1..];
    }
  }

  lemma {:induction false} StripNoNul(a: string)
    requires NUL !in a
    ensures NUL !in Strip(a)
    decreases |a|
  {
    if a != [] {
      StripNoNul(a[1..]);
    }
  }

  /** `String::substring(left, right)`: the bounds are swapped when given in
      the wrong order, an empty string results when the start lies at or
      past the end, and the end is clipped to the length. */
  function Substring(s: string, left: nat, right: nat): (r: string)
    ensures left <= right && left < |s| ==> r == s[left..Min(right, |s|)]
    ensures left <= right && left >= |s| ==> r == []
    ensures right < left ==> r == Substring(s, right, left)
  {
    var lo := if left <= right then left else right;
    var hi := if left <= right then right else left;
    if lo >= |s| then [] else s[lo..Min(hi, |s|)]
  }

  predicate IsDigit(c: char) { '0' <= c <= '9' }

  function DigitValue(c: char): nat
    requires IsDigit(c)
  {
    (c as int - '0' as int) as nat
  }

  function DigitChar(d: nat): (c: char)
    requires d < 10
    ensures IsDigit(c) && DigitValue(c) == d
  {
    ('0' as int + d) as char
  }

  predicate AllDigits(s: string) {
    forall k :: 0 <= k < |s| ==> IsDigit(s[k])
  }

  /** The leading run of decimal digits of `s`. */
  function LeadingDigits(s: string): (r: string)
    ensures r <= s && AllDigits(r)
    ensures |r| < |s| ==> !IsDigit(s[|r|])
  {
    if s == [] || !IsDigit(s[0]) then []
    else [s[0]] + LeadingDigits(s[1..])
  }

  /** The number a string of decimal digits denotes. */
  function DecimalValue(d: string): nat
    requires AllDigits(d)
  {
    if d == [] then 0
    else 10 * DecimalValue(d[..|d| - 1]) + DigitValue(d[|d| - 1])
  }

  /** `String::toInt` on the inputs the engine gives it: the value of the
      leading decimal digits, zero when there are none. */
  function ToInt(s: string): nat {
    DecimalValue(LeadingDigits(s))
  }

  /** Decimal rendering of a count, as `String(n)` and `"..." + n` produce it. */
  function Decimal(n: nat): (r: string)
    ensures |r| >= 1 && AllDigits(r)
    ensures n < 10 ==> |r| == 1
    ensures n < 100 ==> |r| <= 2
    ensures n < 1000 ==> |r| <= 3
    ensures n < 10000 ==> |r| <= 4
    ensures n < 100000 ==> |r| <= 5
  {
    if n < 10 then [DigitChar(n)]
    else Decimal(n / 10) + [DigitChar(n % 10)]
  }

  /** Rendering a count and reading it back gives the count. */
  lemma {:induction false} DecimalRoundTrip(n: nat)
    ensures DecimalValue(Decimal(n)) == n
  {
    if n >= 10 {
      var d := Decimal(n);
      assert d[..|d| - 1] == Decimal(n / 10);
      DecimalRoundTrip(n / 10);
    }
  }

  lemma {:induction false} LeadingDigitsOfDigits(d: string, tail: string)
    requires AllDigits(d)
    requires tail == [] || !IsDigit(tail[0])
    ensures LeadingDigits(d + tail) == d
    decreases |d|
  {
    if d == [] {
      assert d + tail == tail;
    } else {
      assert (d + tail)[1..] == d[1..] + tail;
      LeadingDigitsOfDigits(d[1..], tail);
      assert d == [d[0]] + d[1..];
    }
  }

  /** `toInt` reads back a rendered count followed by a non-digit. */
  lemma ToIntDecimal(n: nat, tail: string)
    requires tail == [] || !IsDigit(tail[0])
    ensures ToInt(Decimal(n) + tail) == n
  {
    LeadingDigitsOfDigits(Decimal(n), tail);
    DecimalRoundTrip(n);
  }
}
