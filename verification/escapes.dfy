/// Characters, hexadecimal digits and the `\uXXXX` escape notation used by the
/// Unicode Shortcut converter: ASCII classification, four-digit hexadecimal
/// formatting and parsing, and the UTF-16 surrogate-pair transform of
/// sections 2.1 and 2.2 of RFC 2781.
module Escapes {

  /** One element of a (Jython) string: any code point, lone surrogates included. */
  type CodePoint = c: int | 0 <= c <= 0x10FFFF

  /** A string as the sequence of its code points. */
  type Text = seq<CodePoint>

  const Backslash: CodePoint := '\\' as int
  const LowerU: CodePoint := 'u' as int
  const UpperU: CodePoint := 'U' as int

  predicate IsAscii(c: CodePoint) { c < 0x80 }

  /** ASCII letter or digit; such a character is never the backslash that opens an escape. */
  predicate IsAsciiAlnum(c: CodePoint)
    ensures IsAsciiAlnum(c) ==> IsAscii(c) && c != Backslash
  {
    ('A' as int <= c <= 'Z' as int) || ('a' as int <= c <= 'z' as int) || ('0' as int <= c <= '9' as int)
  }

  /** A character of the class `[0-9A-Fa-f]`. */
  predicate IsHexDigit(c: CodePoint) {
    ('0' as int <= c <= '9' as int) || ('A' as int <= c <= 'F' as int) || ('a' as int <= c <= 'f' as int)
  }

  predicate IsUpperHexDigit(c: CodePoint) {
    ('0' as int <= c <= '9' as int) || ('A' as int <= c <= 'F' as int)
  }

  /** The value of one hexadecimal digit, either case. */
  function HexDigitValue(c: CodePoint): (d: nat)
    requires IsHexDigit(c)
    ensures d < 16
  {
    if c <= '9' as int then c - '0' as int
    else if c <= 'F' as int then c - 'A' as int + 10
    else c - 'a' as int + 10
  }

  /** The upper-case digit for a value below 16, as `%X` writes it. */
  function UpperHexDigit(d: nat): (c: CodePoint)
    requires d < 16
    ensures IsHexDigit(c) && IsUpperHexDigit(c) && HexDigitValue(c) == d
  {
    if d < 10 then '0' as int + d else 'A' as int + d - 10
  }

  /** An upper-case digit is determined by its value. */
  lemma UpperHexDigitUnique(c: CodePoint)
    requires IsUpperHexDigit(c)
    ensures IsHexDigit(c) && UpperHexDigit(HexDigitValue(c)) == c
  {
  }

  predicate AllHexDigits(d: Text) {
    forall i :: 0 <= i < |d| ==> IsHexDigit(d[i])
  }

  /** `int(d, 16)` for a string of exactly four hexadecimal digits. */
  function HexValue4(d: Text): (n: nat)
    requires |d| == 4 && AllHexDigits(d)
    ensures n <= 0xFFFF
  {
    ((HexDigitValue(d[0]) * 16 + HexDigitValue(d[1])) * 16 + HexDigitValue(d[2])) * 16 + HexDigitValue(d[3])
  }

  /** `"%04X" % n`: four upper-case, zero-padded hexadecimal digits. */
  function Hex4(n: nat): (d: Text)
    requires n <= 0xFFFF
    ensures |d| == 4 && AllHexDigits(d) && HexValue4(d) == n
    ensures forall i :: 0 <= i < 4 ==> IsUpperHexDigit(d[i])
  {
    var q1 := n / 16;
    var q2 := q1 / 16;
    var q3 := q2 / 16;
    [UpperHexDigit(q3), UpperHexDigit(q2 % 16), UpperHexDigit(q1 % 16), UpperHexDigit(n % 16)]
  }

  /**
   * The escape pattern `\\[uU][0-9A-Fa-f]{4}`, matched by a whole six-character string.
   * Its only backslash is the first character, so no match can begin inside another.
   */
  predicate IsEscape(v: Text)
    ensures IsEscape(v) ==> |v| == 6 && Backslash !in v[1..]
  {
    |v| == 6 && v[0] == Backslash && (v[1] == LowerU || v[1] == UpperU) && AllHexDigits(v[2..])
  }

  /** An escape as the encoder writes it: lower-case `u` and upper-case digits. */
  predicate IsCanonicalEscape(v: Text) {
    IsEscape(v) && v[1] == LowerU && forall i :: 2 <= i < 6 ==> IsUpperHexDigit(v[i])
  }

  /** The UTF-16 code unit an escape denotes: `int(token_value[2:], 16)`. */
  function EscapeValue(v: Text): (u: nat)
    requires IsEscape(v)
    ensures u <= 0xFFFF
  {
    HexValue4(v[2..])
  }

  /** Every character of an escape is ASCII, and only its first is a backslash. */
  lemma EscapeShape(v: Text)
    requires IsEscape(v)
    ensures forall i :: 0 <= i < 6 ==> IsAscii(v[i])
    ensures forall i :: 1 <= i < 6 ==> v[i] != Backslash
  {
    forall i | 2 <= i < 6
      ensures IsAscii(v[i]) && v[i] != Backslash
    {
      assert v[i] == v[2..][i - 2];
    }
  }

  /** `"\\u%04X" % u`. */
  function FormatEscape(u: nat): (v: Text)
    requires u <= 0xFFFF
    ensures IsCanonicalEscape(v) && EscapeValue(v) == u
  {
    var v := [Backslash, LowerU] + Hex4(u);
    assert v[2..] == Hex4(u);
    v
  }

  /** Splitting `n = q * 16 + r` with `r < 16` is unique. */
  lemma DigitsOf(n: nat, q: nat, r: nat)
    requires r < 16 && n == q * 16 + r
    ensures n / 16 == q && n % 16 == r
  {
  }

  /** `Hex4` writes back the digits a four-digit value was read from. */
  lemma Hex4OfDigits(a: nat, b: nat, c: nat, e: nat)
    requires a < 16 && b < 16 && c < 16 && e < 16
    ensures ((a * 16 + b) * 16 + c) * 16 + e <= 0xFFFF
    ensures Hex4(((a * 16 + b) * 16 + c) * 16 + e)
         == [UpperHexDigit(a), UpperHexDigit(b), UpperHexDigit(c), UpperHexDigit(e)]
  {
    DigitsOf(a * 16 + b, a, b);
    DigitsOf((a * 16 + b) * 16 + c, a * 16 + b, c);
    DigitsOf(((a * 16 + b) * 16 + c) * 16 + e, (a * 16 + b) * 16 + c, e);
  }

  /** The four digits of a canonical escape, as `UpperHexDigit` writes their values. */
  lemma CanonicalDigits(v: Text)
    requires IsCanonicalEscape(v)
    ensures v[2..] == [UpperHexDigit(HexDigitValue(v[2])), UpperHexDigit(HexDigitValue(v[3])),
                       UpperHexDigit(HexDigitValue(v[4])), UpperHexDigit(HexDigitValue(v[5]))]
    ensures EscapeValue(v) ==
      ((HexDigitValue(v[2]) * 16 + HexDigitValue(v[3])) * 16 + HexDigitValue(v[4])) * 16 + HexDigitValue(v[5])
  {
    var d := v[2..];
    assert d[0] == v[2] && d[1] == v[3] && d[2] == v[4] && d[3] == v[5];
    UpperHexDigitUnique(v[2]);
    UpperHexDigitUnique(v[3]);
    UpperHexDigitUnique(v[4]);
    UpperHexDigitUnique(v[5]);
  }

  /** Four-digit upper-case formatting is the only canonical spelling of a code unit. */
  lemma CanonicalEscapeUnique(v: Text)
    requires IsCanonicalEscape(v)
    ensures v == FormatEscape(EscapeValue(v))
  {
    CanonicalDigits(v);
    Hex4OfDigits(HexDigitValue(v[2]), HexDigitValue(v[3]), HexDigitValue(v[4]), HexDigitValue(v[5]));
    assert v == [Backslash, LowerU] + v[2..];
  }

  predicate IsHighSurrogate(u: int) { 0xD800 <= u <= 0xDBFF }
  predicate IsLowSurrogate(u: int) { 0xDC00 <= u <= 0xDFFF }
  predicate IsSurrogate(u: int) { 0xD800 <= u <= 0xDFFF }
  predicate IsNoncharacter(u: int) { u == 0xFFFE || u == 0xFFFF }

  /** Code units the decoder refuses to turn into characters. */
  predicate IsReserved(u: int) { IsSurrogate(u) || IsNoncharacter(u) }

  /** A code point outside the Basic Multilingual Plane. */
  predicate IsSupplementary(c: int) { 0x10000 <= c <= 0x10FFFF }

  /**
   * High half of the surrogate pair of a supplementary code point.
   * The offset is non-negative, so `offset >> 10` is `offset / 0x400`.
   */
  function HighSurrogateOf(c: CodePoint): (h: nat)
    requires IsSupplementary(c)
    ensures IsHighSurrogate(h)
  {
    0xD800 + (c - 0x10000) / 0x400
  }

  /** Low half of the surrogate pair; `offset & 0x3FF` is `offset % 0x400` for a non-negative offset. */
  function LowSurrogateOf(c: CodePoint): (l: nat)
    requires IsSupplementary(c)
    ensures IsLowSurrogate(l)
  {
    0xDC00 + (c - 0x10000) % 0x400
  }

  /** Recombination of a surrogate pair: `0x10000 + ((H - 0xD800) << 10) + (L - 0xDC00)`. */
  function Combine(h: int, l: int): (c: CodePoint)
    requires IsHighSurrogate(h) && IsLowSurrogate(l)
    ensures IsSupplementary(c)
  {
    0x10000 + (h - 0xD800) * 0x400 + (l - 0xDC00)
  }

  /** Splitting a supplementary code point into its surrogates and recombining them gives it back. */
  lemma CombineSplit(c: CodePoint)
    requires IsSupplementary(c)
    ensures Combine(HighSurrogateOf(c), LowSurrogateOf(c)) == c
  {
    var off := c - 0x10000;
    assert off == (off / 0x400) * 0x400 + off % 0x400;
  }

  /** Recombining a high and a low surrogate and splitting the result gives back the pair. */
  lemma SplitCombine(h: int, l: int)
    requires IsHighSurrogate(h) && IsLowSurrogate(l)
    ensures HighSurrogateOf(Combine(h, l)) == h && LowSurrogateOf(Combine(h, l)) == l
  {
    var off := Combine(h, l) - 0x10000;
    assert off == (h - 0xD800) * 0x400 + (l - 0xDC00);
    assert off / 0x400 == h - 0xD800 && off % 0x400 == l - 0xDC00;
  }

  /**
   * `_encode_cp`: one canonical escape for a code point of the Basic Multilingual
   * Plane, or the escapes of its high and low surrogates, high first.
   */
  function EncodeCodePoint(c: CodePoint): (r: Text)
    ensures forall i :: 0 <= i < |r| ==> IsAscii(r[i])
    ensures c <= 0xFFFF ==> IsCanonicalEscape(r) && EscapeValue(r) == c
    ensures IsSupplementary(c) ==>
      |r| == 12 && IsCanonicalEscape(r[..6]) && IsCanonicalEscape(r[6..])
      && IsHighSurrogate(EscapeValue(r[..6])) && IsLowSurrogate(EscapeValue(r[6..]))
      && Combine(EscapeValue(r[..6]), EscapeValue(r[6..])) == c
  {
    if c <= 0xFFFF then
      var r := FormatEscape(c);
      EscapeShape(r);
      r
    else
      var hi, lo := FormatEscape(HighSurrogateOf(c)), FormatEscape(LowSurrogateOf(c));
      EscapeShape(hi);
      EscapeShape(lo);
      CombineSplit(c);
      var r := hi + lo;
      assert r[..6] == hi && r[6..] == lo;
      r
  }
}
