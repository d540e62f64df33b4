/**
 * The JavaScript number operations the decoder relies on:
 * `parseInt(s, 16)`, `Number.prototype.toString(16)` and truthiness.
 */
module JsNumber {

  /** A JavaScript number produced by `parseInt`: NaN or an integer
      (negative zero is identified with zero). */
  datatype Num = NaN | Int(value: int) {

    /** JavaScript truthiness: 0 and NaN are falsy. */
    predicate Truthy() {
      Int? && value != 0
    }
  }

  /** A JavaScript floating-point number whose value the model leaves opaque. */
  datatype Float = FloatNaN | Finite(value: real) | Infinity(positive: bool) {

    predicate Truthy() {
      match this
      case FloatNaN => false
      case Finite(v) => v != 0.0
      case Infinity(_) => true
    }
  }

  predicate IsHexDigit(c: char) {
    ('0' <= c <= '9') || ('a' <= c <= 'f') || ('A' <= c <= 'F')
  }

  predicate AllHex(s: string) {
    forall k :: 0 <= k < |s| ==> IsHexDigit(s[k])
  }

  function DigitValue(c: char): (d: nat)
    requires IsHexDigit(c)
    ensures d < 16
  {
    if '0' <= c <= '9' then c as int - '0' as int
    else if 'a' <= c <= 'f' then c as int - 'a' as int + 10
    else c as int - 'A' as int + 10
  }

  /** The lower-case hexadecimal digit for `d`. */
  function DigitChar(d: nat): (c: char)
    requires d < 16
    ensures IsHexDigit(c) && DigitValue(c) == d
    ensures !('A' <= c <= 'Z')
  {
    if d < 10 then ('0' as int + d) as char else ('a' as int + d - 10) as char
  }

  function Pow16(n: nat): (p: nat)
    ensures p >= 1
  {
    if n == 0 then 1 else 16 * Pow16(n - 1)
  }

  /** The value of a string of hexadecimal digits, most significant first. */
  function HexValue(z: string): (v: nat)
    requires AllHex(z)
    ensures v < Pow16(|z|)
  {
    if z == [] then 0 else 16 * HexValue(z[..|z| - 1]) + DigitValue(z[|z| - 1])
  }

  lemma {:induction false} HexValueAppend(x: string, y: string)
    requires AllHex(x) && AllHex(y)
    ensures AllHex(x + y)
    ensures HexValue(x + y) == HexValue(x) * Pow16(|y|) + HexValue(y)
    decreases |y|
  {
    if y == [] {
      assert x + y == x;
    } else {
      var y' := y[..|y| - 1];
      var c := y[|y| - 1];
      assert AllHex(y');
      assert (x + y)[..|x + y| - 1] == x + y';
      assert (x + y)[|x + y| - 1] == c;
      HexValueAppend(x, y');
      Regroup(HexValue(x + y), HexValue(x + y'), HexValue(x), Pow16(|y'|), HexValue(y'),
        DigitValue(c), Pow16(|y|), HexValue(y));
    }
  }

  lemma Regroup(xy: int, xy': int, a: int, p: int, b: int, d: int, q: int, v: int)
    requires xy == 16 * xy' + d && xy' == a * p + b
    requires v == 16 * b + d && q == 16 * p
    ensures xy == a * q + v
  {
  }

  /** StrWhiteSpaceChar of ECMAScript: WhiteSpace and LineTerminator code points. */
  predicate IsStrWhiteSpace(c: char) {
    c == '\t' || c == '\n' || c == '\U{B}' || c == '\U{C}' || c == '\r' || c == ' '
    || c == '\U{A0}' || c == '\U{1680}' || ('\U{2000}' <= c <= '\U{200A}')
    || c == '\U{2028}' || c == '\U{2029}' || c == '\U{202F}' || c == '\U{205F}'
    || c == '\U{3000}' || c == '\U{FEFF}'
  }

  /** The longest prefix of `s` made of hexadecimal digits. */
  function HexDigitPrefix(s: string): (z: string)
    ensures AllHex(z) && z <= s
    ensures |z| < |s| ==> !IsHexDigit(s[|z|])
  {
    if |s| > 0 && IsHexDigit(s[0]) then [s[0]] + HexDigitPrefix(s[1..]) else []
  }

  /** `parseInt(s, 16)`: skip leading white space, then read the rest. */
  function ParseIntHex(s: string): Num
    decreases |s|
  {
    if |s| > 0 && IsStrWhiteSpace(s[0]) then ParseIntHex(s[1..]) else ParseTrimmed(s)
  }

  /** `parseInt` after the white space: an optional sign, an optional `0x`/`0X`
      prefix, then the longest run of hex digits; NaN when that run is empty. */
  function ParseTrimmed(t: string): Num {
    var negative := |t| > 0 && t[0] == '-';
    var u := if |t| > 0 && (t[0] == '-' || t[0] == '+') then t[1..] else t;
    var w := if |u| >= 2 && u[0] == '0' && (u[1] == 'x' || u[1] == 'X') then u[2..] else u;
    var z := HexDigitPrefix(w);
    if z == [] then NaN
    else
      var v: int := HexValue(z);
      Int(if negative then -v else v)
  }

  /** On a non-empty string of hex digits `parseInt(s, 16)` is the value of
      those digits. */
  lemma ParseIntHexDigits(s: string)
    requires AllHex(s) && |s| >= 1
    ensures ParseIntHex(s) == Int(HexValue(s))
  {
    ParseIntHexStops(s, "");
    assert s + "" == s;
  }

  /** Leading white space is skipped. */
  lemma {:induction false} ParseIntHexSpace(w: string, s: string)
    requires forall k :: 0 <= k < |w| ==> IsStrWhiteSpace(w[k])
    ensures ParseIntHex(w + s) == ParseIntHex(s)
    decreases |w|
  {
    if w == [] {
      assert w + s == s;
    } else {
      assert (w + s)[0] == w[0];
      assert (w + s)[1..] == w[1..] + s;
      ParseIntHexSpace(w[1..], s);
    }
  }

  /** Parsing stops at the first character that is not a hex digit; the
      digits before it are the value. (A lone `0` before `x` is a prefix.) */
  lemma ParseIntHexStops(z: string, rest: string)
    requires AllHex(z) && |z| >= 1
    requires rest == [] || !IsHexDigit(rest[0])
    requires !(z == "0" && |rest| > 0 && (rest[0] == 'x' || rest[0] == 'X'))
    ensures ParseIntHex(z + rest) == Int(HexValue(z))
  {
    var t := z + rest;
    assert t[0] == z[0] && IsHexDigit(z[0]);
    assert !(|t| >= 2 && t[0] == '0' && (t[1] == 'x' || t[1] == 'X')) by {
      if |z| >= 2 {
        assert t[1] == z[1] && IsHexDigit(z[1]);
      } else if |t| >= 2 {
        assert z == [z[0]] && t[1] == rest[0];
      }
    }
    HexDigitPrefixOf(z, rest);
  }

  lemma {:induction false} HexDigitPrefixOf(z: string, rest: string)
    requires AllHex(z)
    requires rest == [] || !IsHexDigit(rest[0])
    ensures HexDigitPrefix(z + rest) == z
    decreases |z|
  {
    if z == [] {
      assert z + rest == rest;
    } else {
      assert IsHexDigit(z[0]) && (z + rest)[0] == z[0];
      assert (z + rest)[1..] == z[1..] + rest;
      HexDigitPrefixOf(z[1..], rest);
    }
  }

  /** A sign applies to the digits after it. */
  lemma ParseIntHexSigned(z: string)
    requires AllHex(z) && |z| >= 1
    ensures ParseIntHex("-" + z) == Int(-(HexValue(z) as int))
    ensures ParseIntHex("+" + z) == Int(HexValue(z))
  {
    AllDigitsPrefix(z);
    SignedDigits('-', z);
    SignedDigits('+', z);
  }

  lemma SignedDigits(sign: char, z: string)
    requires sign == '-' || sign == '+'
    requires AllHex(z) && |z| >= 1 && HexDigitPrefix(z) == z
    requires !(|z| >= 2 && z[0] == '0' && (z[1] == 'x' || z[1] == 'X'))
    ensures ParseIntHex([sign] + z) == Int(if sign == '-' then -(HexValue(z) as int) else HexValue(z))
  {
    var t := [sign] + z;
    assert t[0] == sign && t[1..] == z;
    assert ParseIntHex(t) == ParseTrimmed(t);
    var negative := sign == '-';
    assert ParseTrimmed(t) == Int(if negative then -(HexValue(z) as int) else HexValue(z));
  }

  /** A `0x` or `0X` prefix is skipped. */
  lemma ParseIntHexPrefixed(z: string)
    requires AllHex(z) && |z| >= 1
    ensures ParseIntHex("0x" + z) == Int(HexValue(z))
    ensures ParseIntHex("0X" + z) == Int(HexValue(z))
  {
    AllDigitsPrefix(z);
    PrefixedDigits('x', z);
    PrefixedDigits('X', z);
  }

  lemma PrefixedDigits(x: char, z: string)
    requires x == 'x' || x == 'X'
    requires AllHex(z) && |z| >= 1 && HexDigitPrefix(z) == z
    ensures ParseIntHex(['0', x] + z) == Int(HexValue(z))
  {
    var t := ['0', x] + z;
    assert t[0] == '0' && t[1] == x && t[2..] == z;
    assert ParseIntHex(t) == ParseTrimmed(t);
  }

  /** A string of hex digits is its own longest hex-digit prefix, and it
      has no `0x` prefix. */
  lemma AllDigitsPrefix(z: string)
    requires AllHex(z)
    ensures HexDigitPrefix(z) == z
    ensures !(|z| >= 2 && z[0] == '0' && (z[1] == 'x' || z[1] == 'X'))
  {
    HexDigitPrefixOf(z, "");
    assert z + "" == z;
    if |z| >= 2 {
      assert IsHexDigit(z[1]);
    }
  }

  /** Without a digit where the number should start, the result is NaN. */
  lemma ParseIntHexNoDigits(t: string)
    requires t == [] || (!IsHexDigit(t[0]) && !IsStrWhiteSpace(t[0]) && t[0] != '-' && t[0] != '+')
    ensures ParseIntHex(t) == NaN
  {
    if t != [] {
      assert !(|t| >= 2 && t[0] == '0');
    }
  }

  /** The lower-case hexadecimal rendering of `n`, without leading zeros. */
  function HexDigits(n: nat): (s: string)
    ensures |s| >= 1
  {
    if n < 16 then [DigitChar(n)] else HexDigits(n / 16) + [DigitChar(n % 16)]
  }

  /** `HexDigits(n)` is a canonical lower-case spelling of `n`. */
  lemma {:induction false} HexDigitsSpell(n: nat)
    ensures AllHex(HexDigits(n)) && HexValue(HexDigits(n)) == n
    ensures forall k :: 0 <= k < |HexDigits(n)| ==> !('A' <= HexDigits(n)[k] <= 'Z')
    ensures |HexDigits(n)| > 1 ==> HexDigits(n)[0] != '0'
  {
    var s := HexDigits(n);
    if n < 16 {
      assert s[..0] == [];
    } else {
      var p := HexDigits(n / 16);
      HexDigitsSpell(n / 16);
      assert s[..|s| - 1] == p;
      assert s[0] == p[0];
    }
  }

  /** `Number.prototype.toString(16)` on the numbers `parseInt` yields. */
  function ToStringHex(n: Num): string {
    match n
    case NaN => "NaN"
    case Int(v) => if v < 0 then "-" + HexDigits(-v) else HexDigits(v)
  }

  /** `toString(16)` and `parseInt(_, 16)` are inverse on the numbers
      `parseInt` yields, NaN included ("NaN" parses to NaN). */
  lemma ToStringHexParse(n: Num)
    ensures ParseIntHex(ToStringHex(n)) == n
  {
    match n
    case NaN =>
      ParseIntHexNoDigits("NaN");
    case Int(v) =>
      if v < 0 {
        assert ToStringHex(n) == "-" + HexDigits(-v);
        ParseNegative(v);
      } else {
        assert ToStringHex(n) == HexDigits(v);
        ParseNonNegative(v);
      }
  }

  lemma ParseNonNegative(v: nat)
    ensures ParseIntHex(HexDigits(v)) == Int(v)
  {
    HexDigitsSpell(v);
    ParseIntHexDigits(HexDigits(v));
  }

  lemma ParseNegative(v: int)
    requires v < 0
    ensures ParseIntHex("-" + HexDigits(-v)) == Int(v)
  {
    var z := HexDigits(-v);
    DigitsOfHexDigits(-v);
    assert "-" + z == ['-'] + z;
    SignedDigits('-', z);
  }

  lemma DigitsOfHexDigits(n: nat)
    ensures var z := HexDigits(n);
      AllHex(z) && |z| >= 1 && HexValue(z) == n && HexDigitPrefix(z) == z
      && !(|z| >= 2 && z[0] == '0' && (z[1] == 'x' || z[1] == 'X'))
  {
    HexDigitsSpell(n);
    AllDigitsPrefix(HexDigits(n));
  }
}
