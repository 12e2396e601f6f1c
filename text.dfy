/**
  The string operations of Python that the flashing tools rely on:
  `str.strip` and `str.rstrip` without arguments, `str.lower` as far as a
  comparison with "auto" sees it, decimal formatting with `{n:0Wd}` and
  `str(n)`, and `str.join` / `str.split` with a one-character separator.
 */
module Text {

  /**
    Python's `str.isspace` for one character: the characters whose Unicode
    bidirectional class is WS, B or S, or whose category is Zs.
   */
  predicate IsSpace(c: char) {
    ('\t' <= c <= '\r') || ('\U{1c}' <= c <= ' ') || c == '\U{85}' || c == '\U{a0}'
    || c == '\U{1680}' || ('\U{2000}' <= c <= '\U{200a}') || c == '\U{2028}' || c == '\U{2029}'
    || c == '\U{202f}' || c == '\U{205f}' || c == '\U{3000}'
  }

  /** `s.lstrip()`: drops the leading whitespace. */
  function LStrip(s: string): string
    decreases |s|
  {
    if s != [] && IsSpace(s[0]) then LStrip(s[1..]) else s
  }

  /** `s.rstrip()`: drops the trailing whitespace. */
  function RStrip(s: string): string
    decreases |s|
  {
    if s != [] && IsSpace(s[|s| - 1]) then RStrip(s[..|s| - 1]) else s
  }

  /** `s.strip()`. */
  function Strip(s: string): string {
    RStrip(LStrip(s))
  }

  /** `lstrip` removes exactly the leading whitespace: a suffix remains that does not start with any. */
  lemma {:induction false} LStripSpec(s: string)
    ensures |LStrip(s)| <= |s| && LStrip(s) == s[|s| - |LStrip(s)|..]
    ensures forall k :: 0 <= k < |s| - |LStrip(s)| ==> IsSpace(s[k])
    ensures LStrip(s) != [] ==> !IsSpace(LStrip(s)[0])
    decreases |s|
  {
    if s != [] && IsSpace(s[0]) {
      LStripSpec(s[1..]);
      assert forall k :: 1 <= k < |s| ==> s[k] == s[1..][k - 1];
    }
  }

  /** `rstrip` removes exactly the trailing whitespace: a prefix remains that does not end with any. */
  lemma {:induction false} RStripSpec(s: string)
    ensures |RStrip(s)| <= |s| && RStrip(s) == s[..|RStrip(s)|]
    ensures forall k :: |RStrip(s)| <= k < |s| ==> IsSpace(s[k])
    ensures RStrip(s) != [] ==> !IsSpace(RStrip(s)[|RStrip(s)| - 1])
    decreases |s|
  {
    if s != [] && IsSpace(s[|s| - 1]) {
      RStripSpec(s[..|s| - 1]);
    }
  }

  /** A string that starts or ends with no whitespace is left alone by the matching strip. */
  lemma StripFixed(s: string)
    ensures (s == [] || !IsSpace(s[0])) ==> LStrip(s) == s
    ensures (s == [] || !IsSpace(s[|s| - 1])) ==> RStrip(s) == s
  {
  }

  /**
    `strip` removes exactly the whitespace at both ends: what it returns is the
    infix of its argument that starts at the first and ends after the last
    non-whitespace character.
   */
  lemma StripInfix(s: string)
    ensures |LStrip(s)| <= |s| && var i := |s| - |LStrip(s)|;
      i + |Strip(s)| <= |s| && Strip(s) == s[i..i + |Strip(s)|]
    ensures forall k :: 0 <= k < |s| - |LStrip(s)| ==> IsSpace(s[k])
    ensures forall k :: |s| - |LStrip(s)| + |Strip(s)| <= k < |s| ==> IsSpace(s[k])
    ensures Strip(s) != [] ==> !IsSpace(Strip(s)[0]) && !IsSpace(Strip(s)[|Strip(s)| - 1])
  {
    var l := LStrip(s);
    LStripSpec(s);
    RStripSpec(l);
    var r := RStrip(l);
    var i := |s| - |l|;
    forall k | i + |r| <= k < |s| ensures IsSpace(s[k]) {
      assert s[k] == l[k - i];
    }
    if r != [] {
      assert r[0] == l[0];
    }
  }

  /** Stripping a stripped string changes nothing. */
  lemma StripIdempotent(s: string)
    ensures Strip(Strip(s)) == Strip(s)
  {
    StripInfix(s);
    StripFixed(Strip(s));
  }

  /** An ASCII upper-case letter mapped to lower case; every other character unchanged. */
  function LowerChar(c: char): char {
    if 'A' <= c <= 'Z' then (c as int + 32) as char else c
  }

  /** The same character, or the same ASCII letter in the other case. */
  predicate SameIgnoringCase(a: char, b: char) {
    a == b
    || ('A' <= a <= 'Z' && b as int == a as int + 32)
    || ('A' <= b <= 'Z' && a as int == b as int + 32)
  }

  /** Lower-casing as far as ASCII goes. */
  function LowerAscii(s: string): (r: string)
    ensures |r| == |s|
  {
    seq(|s|, k requires 0 <= k < |s| => LowerChar(s[k]))
  }

  /** Lowering twice is lowering once. */
  lemma LowerAsciiIdempotent(s: string)
    ensures LowerAscii(LowerAscii(s)) == LowerAscii(s)
  {
    var r := LowerAscii(s);
    forall k | 0 <= k < |s|
      ensures LowerAscii(r)[k] == r[k]
    {
      assert r[k] == LowerChar(s[k]);
    }
  }

  /** Two strings lower to the same text exactly when they differ only in the case of ASCII letters. */
  lemma LowerAsciiCaseless(s: string, t: string)
    ensures LowerAscii(s) == LowerAscii(t)
      <==> |s| == |t| && forall k :: 0 <= k < |s| ==> SameIgnoringCase(s[k], t[k])
  {
    if LowerAscii(s) == LowerAscii(t) {
      forall k | 0 <= k < |s|
        ensures SameIgnoringCase(s[k], t[k])
      {
        assert LowerAscii(s)[k] == LowerAscii(t)[k];
      }
    }
    if |s| == |t| && forall k :: 0 <= k < |s| ==> SameIgnoringCase(s[k], t[k]) {
      forall k | 0 <= k < |s|
        ensures LowerAscii(s)[k] == LowerAscii(t)[k]
      {
        assert SameIgnoringCase(s[k], t[k]);
      }
    }
  }

  /**
    `s.lower() == "auto"`. Python lowers every Unicode letter, but no character
    outside ASCII lowers to one of the letters of "auto", so the comparison only
    ever sees ASCII case.
   */
  predicate IsAuto(s: string) {
    LowerAscii(s) == "auto"
  }

  /** IsAuto is the case-insensitive comparison, letter by letter. */
  lemma IsAutoLetters(s: string)
    ensures IsAuto(s) <==> |s| == 4 && s[0] in "aA" && s[1] in "uU" && s[2] in "tT" && s[3] in "oO"
  {
    var lower := LowerAscii(s);
    if IsAuto(s) {
      assert lower[0] == 'a' && lower[1] == 'u' && lower[2] == 't' && lower[3] == 'o';
    }
    if |s| == 4 && s[0] in "aA" && s[1] in "uU" && s[2] in "tT" && s[3] in "oO" {
      assert lower == "auto";
    }
  }

  predicate IsDigit(c: char) {
    '0' <= c <= '9'
  }

  predicate AllDigits(s: string) {
    forall k :: 0 <= k < |s| ==> IsDigit(s[k])
  }

  function DigitChar(d: nat): (c: char)
    requires d < 10
    ensures IsDigit(c)
  {
    ('0' as int + d) as char
  }

  function DigitValue(c: char): (d: nat)
    requires IsDigit(c)
    ensures d < 10 && DigitChar(d) == c
  {
    c as int - '0' as int
  }

  /** The decimal digits of `n` without leading zeros, as `str(n)` writes them. */
  function Decimal(n: nat): (s: string)
    ensures |s| >= 1 && AllDigits(s)
    decreases n
  {
    if n < 10 then [DigitChar(n)] else Decimal(n / 10) + [DigitChar(n % 10)]
  }

  /** The number that a string of decimal digits denotes (`int(s)` on digits). */
  function DigitsValue(s: string): nat
    requires AllDigits(s)
    decreases |s|
  {
    if s == [] then 0 else 10 * DigitsValue(s[..|s| - 1]) + DigitValue(s[|s| - 1])
  }

  function Repeat(c: char, n: nat): string {
    seq(n, _ => c)
  }

  /** Left-pads digits with zeros to `width`, never truncating. */
  function PadDigits(digits: string, width: nat): (s: string)
    ensures |s| == if |digits| < width then width else |digits|
  {
    if |digits| < width then Repeat('0', width - |digits|) + digits else digits
  }

  /**
    Python's `format(n, "0{width}d")`: the sign, then the digits zero-padded so
    that sign and digits together fill `width`.
   */
  function ZeroPad(n: int, width: nat): string {
    if n < 0 then "-" + PadDigits(Decimal(-n), if width > 0 then width - 1 else 0)
    else PadDigits(Decimal(n), width)
  }

  /** Python's `str(n)` for an integer. */
  function Str(n: int): string {
    ZeroPad(n, 0)
  }

  function Pow10(k: nat): (p: nat)
    ensures p >= 1
  {
    if k == 0 then 1 else 10 * Pow10(k - 1)
  }

  lemma {:induction false} DecimalRoundTrip(n: nat)
    ensures DigitsValue(Decimal(n)) == n
    decreases n
  {
    if n >= 10 {
      var s := Decimal(n);
      assert s[..|s| - 1] == Decimal(n / 10);
      DecimalRoundTrip(n / 10);
    }
  }

  /** A number below 10^k has at most k digits. */
  lemma {:induction false} DecimalLength(n: nat, k: nat)
    requires 1 <= k && n < Pow10(k)
    ensures |Decimal(n)| <= k
    decreases k
  {
    if n >= 10 {
      DecimalLength(n / 10, k - 1);
    }
  }

  lemma {:induction false} LeadingZerosValue(z: nat, s: string)
    requires AllDigits(s)
    ensures AllDigits(Repeat('0', z) + s) && DigitsValue(Repeat('0', z) + s) == DigitsValue(s)
    decreases |s| + z
  {
    var t := Repeat('0', z) + s;
    if s != [] {
      assert t[..|t| - 1] == Repeat('0', z) + s[..|s| - 1];
      LeadingZerosValue(z, s[..|s| - 1]);
    } else if z > 0 {
      assert t[..|t| - 1] == Repeat('0', z - 1) + s;
      LeadingZerosValue(z - 1, s);
    }
  }

  /**
    `{n:0Wd}` of a non-negative number is all digits, as long as the width or
    the number needs, and reads back as the number.
   */
  lemma ZeroPadRoundTrip(n: nat, width: nat)
    ensures AllDigits(ZeroPad(n, width))
    ensures |ZeroPad(n, width)| == if |Decimal(n)| < width then width else |Decimal(n)|
    ensures DigitsValue(ZeroPad(n, width)) == n
  {
    var d := Decimal(n);
    DecimalRoundTrip(n);
    assert ZeroPad(n, width) == PadDigits(d, width);
    if |d| < width {
      assert PadDigits(d, width) == Repeat('0', width - |d|) + d;
      LeadingZerosValue(width - |d|, d);
    }
  }

  /** A number below 10^width fills exactly `width` characters. */
  lemma ZeroPadWidth(n: nat, width: nat)
    requires 1 <= width && n < Pow10(width)
    ensures |ZeroPad(n, width)| == width
  {
    DecimalLength(n, width);
    ZeroPadRoundTrip(n, width);
  }

  /** `sep.join(parts)` for a one-character separator. */
  function Join(parts: seq<string>, sep: char): string
    decreases |parts|
  {
    if |parts| == 0 then "" else if |parts| == 1 then parts[0] else parts[0] + [sep] + Join(parts[1..], sep)
  }

  /** `s.split(sep)` for a one-character separator. */
  function Split(s: string, sep: char): (parts: seq<string>)
    ensures |parts| >= 1
    decreases |s|
  {
    if |s| == 0 then [""]
    else if s[0] == sep then [""] + Split(s[1..], sep)
    else var rest := Split(s[1..], sep); [[s[0]] + rest[0]] + rest[1..]
  }

  lemma {:induction false} SplitPrefix(a: string, sep: char, b: string)
    requires sep !in a
    ensures Split(a + b, sep) == var rest := Split(b, sep); [a + rest[0]] + rest[1..]
    decreases |a|
  {
    if a != [] {
      assert (a + b)[1..] == a[1..] + b;
      assert a[0] in a;
      SplitPrefix(a[1..], sep, b);
      var rest := Split(b, sep);
      assert [a[0]] + (a[1..] + rest[0]) == a + rest[0];
    } else {
      var rest := Split(b, sep);
      assert a + b == b && a + rest[0] == rest[0];
      assert rest == [rest[0]] + rest[1..];
    }
  }

  /** Splitting the joined parts gives the parts back, when no part contains the separator. */
  lemma {:induction false} SplitJoin(parts: seq<string>, sep: char)
    requires |parts| >= 1
    requires forall k :: 0 <= k < |parts| ==> sep !in parts[k]
    ensures Split(Join(parts, sep), sep) == parts
    decreases |parts|
  {
    if |parts| == 1 {
      SplitPrefix(parts[0], sep, "");
      assert parts[0] + "" == parts[0];
    } else {
      var tail := Join(parts[1..], sep);
      SplitJoin(parts[1..], sep);
      assert Join(parts, sep) == parts[0] + ([sep] + tail);
      assert ([sep] + tail)[1..] == tail;
      assert Split([sep] + tail, sep) == [""] + parts[1..];
      SplitPrefix(parts[0], sep, [sep] + tail);
      assert parts[0] + "" == parts[0];
      assert parts == [parts[0]] + parts[1..];
    }
  }
}
