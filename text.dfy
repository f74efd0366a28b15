// Character and string helpers shared by every component: the subset of
// JavaScript's String API the schedule code relies on (trim, toLowerCase,
// includes, split, join, padStart and number formatting/parsing).

module Text {

  import opened Wrappers

  /** The characters String.prototype.trim removes: the ECMAScript WhiteSpace set (tab, vertical
      tab, form feed, no-break space, the byte-order mark and every space separator) and the
      LineTerminator set (line feed, carriage return, line and paragraph separators). */
  predicate IsSpace(c: char) {
    c == '\t' || c == '\U{0B}' || c == '\U{0C}' || c == ' ' || c == '\U{A0}' || c == '\U{FEFF}'
    || c == '\U{1680}' || ('\U{2000}' <= c <= '\U{200A}') || c == '\U{202F}' || c == '\U{205F}'
    || c == '\U{3000}'
    || c == '\n' || c == '\r' || c == '\U{2028}' || c == '\U{2029}'
  }

  function TrimStart(s: string): (r: string)
    ensures |r| <= |s| && r == s[|s| - |r|..]
    ensures r == [] || !IsSpace(r[0])
    ensures forall i :: 0 <= i < |s| - |r| ==> IsSpace(s[i])
  {
    if |s| > 0 && IsSpace(s[0]) then TrimStart(s[1..]) else s
  }

  function TrimEnd(s: string): (r: string)
    ensures |r| <= |s| && r == s[..|r|]
    ensures r == [] || !IsSpace(r[|r| - 1])
    ensures forall i :: |r| <= i < |s| ==> IsSpace(s[i])
  {
    if |s| > 0 && IsSpace(s[|s| - 1]) then TrimEnd(s[..|s| - 1]) else s
  }

  /** String.prototype.trim: the input without its leading and trailing whitespace. */
  function Trim(s: string): (r: string)
    ensures OccursAt(s, r, LeadingSpaces(s))
    ensures forall i :: 0 <= i < LeadingSpaces(s) ==> IsSpace(s[i])
    ensures forall i :: LeadingSpaces(s) + |r| <= i < |s| ==> IsSpace(s[i])
    ensures r == [] || (!IsSpace(r[0]) && !IsSpace(r[|r| - 1]))
  {
    var t := TrimStart(s);
    var r := TrimEnd(t);
    MiddleSlice(s, t, r);
    r
  }

  /** A prefix r of a suffix t of s occurs in s where t starts, and s agrees with t from there on. */
  lemma MiddleSlice(s: string, t: string, r: string)
    requires |t| <= |s| && t == s[|s| - |t|..]
    requires |r| <= |t| && r == t[..|r|]
    ensures OccursAt(s, r, |s| - |t|)
    ensures forall i :: |s| - |t| <= i < |s| ==> s[i] == t[i - (|s| - |t|)]
  {
    assert r == s[|s| - |t|..][..|r|] == s[|s| - |t|..|s| - |t| + |r|];
  }

  /** How many characters trim drops at the front. */
  function LeadingSpaces(s: string): nat
  {
    |s| - |TrimStart(s)|
  }

  /** A string of spaces trims to the empty string. */
  lemma {:induction false} TrimAllSpace(s: string)
    requires forall i :: 0 <= i < |s| ==> IsSpace(s[i])
    ensures Trim(s) == []
  {
    if |s| > 0 {
      TrimAllSpace(s[1..]);
    }
  }

  /** String.prototype.length: the number of UTF-16 code units, two for a character outside the
      Basic Multilingual Plane. */
  function Utf16Length(s: string): (n: nat)
    ensures |s| <= n <= 2 * |s|
  {
    if |s| == 0 then 0 else (if s[0] as int > 0xFFFF then 2 else 1) + Utf16Length(s[1..])
  }

  /** The length in code units is the number of characters exactly when no character lies
      beyond the Basic Multilingual Plane. */
  lemma {:induction false} Utf16LengthBmp(s: string)
    ensures Utf16Length(s) == |s| <==> forall i :: 0 <= i < |s| ==> s[i] as int <= 0xFFFF
  {
    if |s| > 0 {
      Utf16LengthBmp(s[1..]);
      assert forall i :: 1 <= i < |s| ==> s[i] == s[1..][i - 1];
    }
  }

  predicate IsUpper(c: char) { 'A' <= c <= 'Z' }

  /** toLowerCase on one character (ASCII letters only). */
  function LowerChar(c: char): (r: char)
    ensures !IsUpper(r)
    ensures !IsUpper(c) ==> r == c
  {
    if IsUpper(c) then (c as int + 32) as char else c
  }

  function ToLower(s: string): (r: string)
    ensures |r| == |s|
    ensures forall i :: 0 <= i < |r| ==> !IsUpper(r[i])
  {
    seq(|s|, i requires 0 <= i < |s| => LowerChar(s[i]))
  }

  /** Lower-casing twice is lower-casing once. */
  lemma ToLowerIdempotent(s: string)
    ensures ToLower(ToLower(s)) == ToLower(s)
  {
    var t := ToLower(s);
    assert forall i :: 0 <= i < |t| ==> LowerChar(t[i]) == t[i];
  }

  predicate IsLower(c: char) { 'a' <= c <= 'z' }

  /** toUpperCase on one character (ASCII letters only). */
  function UpperChar(c: char): (r: char)
    ensures !IsLower(r)
    ensures !IsLower(c) ==> r == c
  {
    if IsLower(c) then (c as int - 32) as char else c
  }

  function ToUpper(s: string): (r: string)
    ensures |r| == |s|
    ensures forall i :: 0 <= i < |r| ==> !IsLower(r[i])
  {
    seq(|s|, i requires 0 <= i < |s| => UpperChar(s[i]))
  }

  predicate StartsWith(s: string, p: string) {
    |p| <= |s| && s[..|p|] == p
  }

  /** p occurs in s starting at index i. */
  predicate OccursAt(s: string, p: string, i: int) {
    0 <= i <= |s| - |p| && s[i..i + |p|] == p
  }

  /** String.prototype.includes: p occurs somewhere in s. */
  function Contains(s: string, p: string): (r: bool)
    ensures r <==> exists i :: OccursAt(s, p, i)
    decreases |s|
  {
    if StartsWith(s, p) then
      assert OccursAt(s, p, 0);
      true
    else if |s| == 0 then false
    else
      var r := Contains(s[1..], p);
      if r then
        ContainsTail(s, p);
        true
      else
        NotContainsTail(s, p);
        false
  }

  lemma ContainsTail(s: string, p: string)
    requires |s| > 0
    requires exists i :: OccursAt(s[1..], p, i)
    ensures exists i :: OccursAt(s, p, i)
  {
    var i :| OccursAt(s[1..], p, i);
    assert s[i + 1..i + 1 + |p|] == p;
    assert OccursAt(s, p, i + 1);
  }

  lemma NotContainsTail(s: string, p: string)
    requires |s| > 0 && !StartsWith(s, p)
    requires !exists i :: OccursAt(s[1..], p, i)
    ensures !exists i :: OccursAt(s, p, i)
  {
    if exists i :: OccursAt(s, p, i) {
      var i :| OccursAt(s, p, i);
      assert i != 0;
      assert s[1..][i - 1..i - 1 + |p|] == p;
      assert OccursAt(s[1..], p, i - 1);
    }
  }

  /** Every string includes the empty string. */
  lemma ContainsEmpty(s: string)
    ensures Contains(s, "")
  {
    assert OccursAt(s, "", 0);
  }

  predicate IsDigit(c: char) { '0' <= c <= '9' }

  function DigitChar(d: nat): (c: char)
    requires d < 10
    ensures IsDigit(c) && c as int - '0' as int == d
  {
    ('0' as int + d) as char
  }

  /** Decimal rendering of a natural number (JavaScript's String(n) for n >= 0). */
  function NatToString(n: nat): (r: string)
    ensures |r| >= 1
    ensures forall i :: 0 <= i < |r| ==> IsDigit(r[i])
    ensures n >= 10 ==> r[0] != '0'
  {
    if n < 10 then [DigitChar(n)] else NatToString(n / 10) + [DigitChar(n % 10)]
  }

  predicate AllDigits(s: string) {
    forall i :: 0 <= i < |s| ==> IsDigit(s[i])
  }

  /** The value of a string of decimal digits. */
  function DigitsValue(s: string): nat
    requires AllDigits(s)
  {
    if |s| == 0 then 0 else DigitsValue(s[..|s| - 1]) * 10 + (s[|s| - 1] as int - '0' as int)
  }

  /** Parsing the decimal rendering gives the number back. */
  lemma {:induction false} NatToStringRoundTrip(n: nat)
    ensures DigitsValue(NatToString(n)) == n
  {
    if n >= 10 {
      NatToStringRoundTrip(n / 10);
      var s := NatToString(n);
      assert s[..|s| - 1] == NatToString(n / 10);
    }
  }

  /** Leading zeros do not change the value of a digit string. */
  lemma {:induction false} DigitsValueLeadingZero(s: string)
    requires AllDigits(s)
    ensures DigitsValue("0" + s) == DigitsValue(s)
  {
    if |s| > 0 {
      DigitsValueLeadingZero(s[..|s| - 1]);
      assert ("0" + s)[..|s|] == "0" + s[..|s| - 1];
    }
  }

  function Zeros(k: nat): (r: string)
    ensures |r| == k && AllDigits(r)
  {
    if k == 0 then "" else "0" + Zeros(k - 1)
  }

  /** Leading zeros do not change the value of a digit string. */
  lemma {:induction false} DigitsValueZeros(k: nat, s: string)
    requires AllDigits(s)
    ensures DigitsValue(Zeros(k) + s) == DigitsValue(s)
  {
    if k > 0 {
      DigitsValueZeros(k - 1, s);
      var t := Zeros(k - 1) + s;
      assert Zeros(k) + s == "0" + t;
      DigitsValueLeadingZero(t);
      assert DigitsValue("0" + t) == DigitsValue(t) == DigitsValue(s);
    } else {
      assert Zeros(k) + s == s;
    }
  }

  /** String(n).padStart(width, '0'): the decimal digits of n, zero-filled on the left. */
  function PadZeros(n: nat, width: nat): (r: string)
    ensures AllDigits(r) && |r| >= width
    ensures 1 <= width && n < Pow10(width) ==> |r| == width
    ensures DigitsValue(r) == n
  {
    var s := NatToString(n);
    NatToStringRoundTrip(n);
    NatToStringLength(n, width);
    if |s| >= width then s
    else
      DigitsValueZeros(width - |s|, s);
      Zeros(width - |s|) + s
  }

  function Pow10(k: nat): (p: nat)
    ensures p >= 1
  {
    if k == 0 then 1 else 10 * Pow10(k - 1)
  }

  /** A number below 10^k has at most k digits. */
  lemma {:induction false} NatToStringLength(n: nat, k: nat)
    ensures 1 <= k && n < Pow10(k) ==> |NatToString(n)| <= k
  {
    if n >= 10 && k > 0 {
      NatToStringLength(n / 10, k - 1);
    }
  }

  function Pad2(n: nat): (r: string)
    ensures |r| >= 2 && AllDigits(r)
    ensures n < 100 ==> |r| == 2
    ensures DigitsValue(r) == n
  {
    assert Pow10(2) == 100;
    PadZeros(n, 2)
  }

  /** JavaScript's String(i) for any integer. */
  function IntToString(i: int): (r: string)
    ensures |r| >= 1
    ensures (i < 0) == (r[0] == '-')
    ensures forall k :: 0 <= k < |r| ==> IsDigit(r[k]) || r[k] == '-'
  {
    if i < 0 then "-" + NatToString(-i) else NatToString(i)
  }

  /** Different integers have different decimal texts. */
  lemma IntToStringInjective(a: int, b: int)
    ensures IntToString(a) == IntToString(b) <==> a == b
  {
    if IntToString(a) == IntToString(b) {
      if a < 0 {
        assert IntToString(a)[1..] == NatToString(-a);
        assert IntToString(b)[1..] == NatToString(-b);
        NatToStringRoundTrip(-a);
        NatToStringRoundTrip(-b);
      } else {
        NatToStringRoundTrip(a);
        NatToStringRoundTrip(b);
      }
    }
  }

  /** The longest all-digit prefix. */
  function DigitPrefix(s: string): (r: string)
    ensures AllDigits(r) && StartsWith(s, r)
    ensures |r| < |s| ==> !IsDigit(s[|r|])
  {
    if |s| > 0 && IsDigit(s[0]) then [s[0]] + DigitPrefix(s[1..]) else ""
  }

  /** The value of the leading decimal digits, None when there are none: parseInt of a text that
      starts with a digit and has no "0x" prefix. */
  function ParseUnsigned(s: string): (r: Option<nat>)
    ensures r.Some? <==> |s| > 0 && IsDigit(s[0])
  {
    var d := DigitPrefix(s);
    if |d| == 0 then None else Some(DigitsValue(d))
  }

  lemma {:induction false} DigitPrefixAllDigits(s: string)
    requires AllDigits(s)
    ensures DigitPrefix(s) == s
  {
    if |s| > 0 {
      DigitPrefixAllDigits(s[1..]);
      assert [s[0]] + s[1..] == s;
    }
  }

  /** parseInt reads back the decimal rendering of a natural number. */
  lemma ParseNatToString(n: nat)
    ensures ParseInt(NatToString(n)) == Some(n)
  {
    ParseIntDecimal(NatToString(n));
    NatToStringRoundTrip(n);
  }

  /** The value parseInt gives a digit or letter: 0..9 for the digits, 10..35 for a..z and A..Z,
      and 36 (no radix accepts it) for any other character. */
  function DigitOf(c: char): (v: nat)
    ensures v <= 36
    ensures v < 10 <==> IsDigit(c)
  {
    if '0' <= c <= '9' then c as int - '0' as int
    else if 'a' <= c <= 'z' then c as int - 'a' as int + 10
    else if 'A' <= c <= 'Z' then c as int - 'A' as int + 10
    else 36
  }

  /** The longest prefix made of digits of the radix. */
  function RadixPrefix(s: string, radix: nat): (r: string)
    ensures StartsWith(s, r)
    ensures forall i :: 0 <= i < |r| ==> DigitOf(r[i]) < radix
    ensures |r| < |s| ==> DigitOf(s[|r|]) >= radix
  {
    if |s| > 0 && DigitOf(s[0]) < radix then [s[0]] + RadixPrefix(s[1..], radix) else ""
  }

  /** The number the digits spell in the radix, most significant first. */
  function RadixValue(s: string, radix: nat): nat {
    if |s| == 0 then 0 else RadixValue(s[..|s| - 1], radix) * radix + DigitOf(s[|s| - 1])
  }

  /** What follows an optional leading sign. */
  function AfterSign(t: string): string {
    if |t| > 0 && (t[0] == '-' || t[0] == '+') then t[1..] else t
  }

  predicate HexPrefixed(u: string) {
    |u| >= 2 && u[0] == '0' && (u[1] == 'x' || u[1] == 'X')
  }

  /** parseInt(s) without a radix: leading whitespace is skipped and one sign is read; the rest
      is read by Magnitude. None stands for NaN. */
  function ParseInt(s: string): (r: Option<int>)
  {
    ReadSigned(TrimStart(s))
  }

  /** One optional sign, then the magnitude. */
  function ReadSigned(t: string): (r: Option<int>)
  {
    var m := Magnitude(AfterSign(t));
    if m.None? then None
    else if t[0] == '-' then Some(-(m.value as int))
    else Some(m.value)
  }

  /** The unsigned part of parseInt: a "0x" or "0X" prefix selects hexadecimal, otherwise the
      radix is 10, and the longest run of digits of that radix is the value (None if empty). */
  function Magnitude(u: string): (r: Option<nat>)
  {
    var radix := if HexPrefixed(u) then 16 else 10;
    var d := RadixPrefix(if HexPrefixed(u) then u[2..] else u, radix);
    if |d| == 0 then None else Some(RadixValue(d, radix))
  }

  /** Decimal digits only: the radix-10 prefix is the digit prefix. */
  lemma {:induction false} DecimalPrefix(s: string)
    ensures RadixPrefix(s, 10) == DigitPrefix(s)
  {
    if |s| > 0 {
      DecimalPrefix(s[1..]);
    }
  }

  /** Read in radix 10, decimal digits have their usual value. */
  lemma {:induction false} DecimalValue(s: string)
    requires AllDigits(s)
    ensures RadixValue(s, 10) == DigitsValue(s)
  {
    if |s| > 0 {
      DecimalValue(s[..|s| - 1]);
    }
  }

  /** Digits of the radix throughout: the prefix is the whole string. */
  lemma {:induction false} RadixPrefixAll(s: string, radix: nat)
    requires forall i :: 0 <= i < |s| ==> DigitOf(s[i]) < radix
    ensures RadixPrefix(s, radix) == s
  {
    if |s| > 0 {
      RadixPrefixAll(s[1..], radix);
      assert [s[0]] + s[1..] == s;
    }
  }

  /** On a text that starts with a digit and has no "0x" prefix, parseInt agrees with the
      unsigned decimal reading. */
  lemma ParseIntUnsigned(s: string)
    requires |s| > 0 && IsDigit(s[0]) && !HexPrefixed(s)
    ensures ParseInt(s) == Some(ParseUnsigned(s).value)
  {
    assert !IsSpace(s[0]);
    assert TrimStart(s) == s;
    assert AfterSign(s) == s;
    var d := DigitPrefix(s);
    DecimalPrefix(s);
    DecimalValue(d);
    assert Magnitude(s) == Some(DigitsValue(d));
  }

  /** A decimal rendering of n, zero-filled or not, is read back as n. */
  lemma ParseIntDecimal(s: string)
    requires |s| > 0 && AllDigits(s)
    ensures ParseInt(s) == Some(DigitsValue(s))
  {
    assert !HexPrefixed(s) by {
      if |s| >= 2 { assert IsDigit(s[1]); }
    }
    ParseIntUnsigned(s);
    DigitPrefixAllDigits(s);
  }

  /** Leading whitespace is skipped. */
  lemma {:induction false} ParseIntSkipsSpace(w: string, s: string)
    requires forall i :: 0 <= i < |w| ==> IsSpace(w[i])
    ensures ParseInt(w + s) == ParseInt(s)
  {
    TrimStartSkips(w, s);
    assert ParseInt(w + s) == ReadSigned(TrimStart(s));
  }

  lemma {:induction false} TrimStartSkips(w: string, s: string)
    requires forall i :: 0 <= i < |w| ==> IsSpace(w[i])
    ensures TrimStart(w + s) == TrimStart(s)
  {
    var x := w + s;
    if |w| == 0 {
      assert x == s;
    } else {
      assert x[0] == w[0] && IsSpace(w[0]);
      assert TrimStart(x) == TrimStart(x[1..]);
      assert x[1..] == w[1..] + s;
      TrimStartSkips(w[1..], s);
    }
  }

  /** A leading '-' negates the reading of the rest and a leading '+' leaves it as it is. */
  lemma ParseIntSign(s: string)
    requires |s| > 0 && s[0] != '-' && s[0] != '+' && !IsSpace(s[0])
    ensures ParseInt("+" + s) == ParseInt(s)
    ensures ParseInt("-" + s) == (if ParseInt(s).Some? then Some(-ParseInt(s).value) else None)
  {
    var p, m := "+" + s, "-" + s;
    assert p[0] == '+' && p[1..] == s;
    assert m[0] == '-' && m[1..] == s;
    TrimStartNoSpace(s);
    TrimStartNoSpace(p);
    TrimStartNoSpace(m);
    assert AfterSign(s) == s;
  }

  /** Nothing is trimmed from a text that does not start with whitespace. */
  lemma TrimStartNoSpace(s: string)
    requires |s| > 0 && !IsSpace(s[0])
    ensures TrimStart(s) == s
  {
  }

  /** "0x" followed by hexadecimal digits is read in radix 16. */
  lemma ParseIntHex(h: string)
    requires |h| > 0 && forall i :: 0 <= i < |h| ==> DigitOf(h[i]) < 16
    ensures ParseInt("0x" + h) == Some(RadixValue(h, 16))
  {
    var s := "0x" + h;
    assert s[0] == '0';
    TrimStartNoSpace(s);
    assert AfterSign(s) == s;
    MagnitudeHex(h);
  }

  lemma MagnitudeHex(h: string)
    requires |h| > 0 && forall i :: 0 <= i < |h| ==> DigitOf(h[i]) < 16
    ensures Magnitude("0x" + h) == Some(RadixValue(h, 16))
  {
    var s := "0x" + h;
    assert HexPrefixed(s) && s[2..] == h;
    RadixPrefixAll(h, 16);
  }

  /** JavaScript's remainder a % b for b > 0: truncating division, so the result takes the sign
      of a. */
  function TruncRem(a: int, b: int): (r: int)
    requires b > 0
    ensures -b < r < b
    ensures a >= 0 ==> 0 <= r
    ensures a <= 0 ==> r <= 0
  {
    if a >= 0 then a % b else -((-a) % b)
  }

  /** The hour remainder is congruent to the hour modulo 12. */
  lemma TruncRemCongruent(a: int)
    ensures TruncRem(a, 12) % 12 == a % 12
  {
    if a < 0 {
      var q := (-a) / 12;
      assert -a == 12 * q + (-a) % 12;
    }
  }

  /** Array.prototype.join with a separator. */
  function Join(parts: seq<string>, sep: string): string
  {
    if |parts| == 0 then ""
    else if |parts| == 1 then parts[0]
    else parts[0] + sep + Join(parts[1..], sep)
  }

  /** A character that occurs neither in the parts nor in the separator does not occur in the join. */
  lemma {:induction false} JoinAvoids(parts: seq<string>, sep: string, c: char)
    requires c !in sep
    requires forall i :: 0 <= i < |parts| ==> c !in parts[i]
    ensures c !in Join(parts, sep)
  {
    if |parts| > 1 {
      JoinAvoids(parts[1..], sep, c);
    }
  }

  /** String.prototype.split with a one-character separator. */
  function Split(s: string, c: char): (r: seq<string>)
    ensures |r| >= 1
    decreases |s|
  {
    if |s| == 0 then [""]
    else if s[0] == c then [""] + Split(s[1..], c)
    else
      var rest := Split(s[1..], c);
      [[s[0]] + rest[0]] + rest[1..]
  }

  lemma {:induction false} SplitNoSeparator(p: string, c: char)
    requires c !in p
    ensures Split(p, c) == [p]
  {
    if |p| > 0 {
      SplitNoSeparator(p[1..], c);
      assert [p[0]] + p[1..] == p;
    }
  }

  lemma {:induction false} SplitAtSeparator(p: string, c: char, rest: string)
    requires c !in p
    ensures Split(p + [c] + rest, c) == [p] + Split(rest, c)
  {
    if |p| == 0 {
      assert p + [c] + rest == [c] + rest;
      assert ([c] + rest)[1..] == rest;
    } else {
      var s := p + [c] + rest;
      assert s[0] == p[0] && s[1..] == p[1..] + [c] + rest;
      SplitAtSeparator(p[1..], c, rest);
      assert [p[0]] + p[1..] == p;
    }
  }

  /** Splitting a join on a separator that occurs in no part recovers the parts. */
  lemma {:induction false} SplitJoin(parts: seq<string>, c: char)
    requires |parts| >= 1
    requires forall i :: 0 <= i < |parts| ==> c !in parts[i]
    ensures Split(Join(parts, [c]), c) == parts
  {
    if |parts| == 1 {
      SplitNoSeparator(parts[0], c);
    } else {
      SplitJoin(parts[1..], c);
      SplitAtSeparator(parts[0], c, Join(parts[1..], [c]));
      assert parts == [parts[0]] + parts[1..];
    }
  }

  /** Joining the pieces of a split with the same separator gives back the string. */
  lemma {:induction false} JoinSplit(s: string, c: char)
    ensures Join(Split(s, c), [c]) == s
    decreases |s|
  {
    if |s| > 0 {
      JoinSplit(s[1..], c);
      var rest := Split(s[1..], c);
      if s[0] != c {
        var r := [[s[0]] + rest[0]] + rest[1..];
        if |rest| > 1 {
          assert rest == [rest[0]] + rest[1..];
          assert r[1..] == rest[1..];
        }
      } else {
        assert ([""] + rest)[1..] == rest;
      }
    }
  }
}
