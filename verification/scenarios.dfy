/// Concrete inputs and the outputs the converter produces for them.
module Scenarios {
  import opened Escapes
  import opened Tokenizer
  import opened Encoder
  import opened Decoder
  import opened RoundTrip

  /** A Dafny string literal as a sequence of code points. */
  function Str(s: string): (t: Text)
    ensures |t| == |s| && forall i :: 0 <= i < |s| ==> t[i] == s[i] as int
  {
    seq(|s|, i requires 0 <= i < |s| => s[i] as int)
  }

  /** The escape written for the code unit whose hexadecimal digits are `a`, `b`, `c`, `e`. */
  lemma FormatOfDigits(a: nat, b: nat, c: nat, e: nat)
    requires a < 16 && b < 16 && c < 16 && e < 16
    ensures ((a * 16 + b) * 16 + c) * 16 + e <= 0xFFFF
    ensures FormatEscape(((a * 16 + b) * 16 + c) * 16 + e)
         == [Backslash, LowerU, UpperHexDigit(a), UpperHexDigit(b), UpperHexDigit(c), UpperHexDigit(e)]
  {
    Hex4OfDigits(a, b, c, e);
  }

  /** An input of fewer than six characters never holds an escape: it is one text token. */
  lemma ShortInputTokens(s: Text)
    requires 0 < |s| < 6
    ensures Tokens(s) == [Txt(s)]
  {
    TokensWithoutEscape(s);
  }

  /** A single text token is encoded as its run. */
  lemma OneRunEncoding(s: Text, everything: bool)
    ensures EncodeTokens([Txt(s)], everything) == EncodeRun(s, everything)
  {
    assert [Txt(s)][1..] == [];
  }

  // ----- Encoding `abc!` and `abc` -----

  /** A run is encoded character by character, front first. */
  lemma EncodeRunCons(c: CodePoint, v: Text, everything: bool)
    ensures EncodeRun([c] + v, everything) == EncodeChar(c, everything) + EncodeRun(v, everything)
  {
    assert ([c] + v)[1..] == v;
  }

  /** An escaped character is written with the four digits of its code point. */
  lemma EscapedCharDigits(u: CodePoint, a: nat, b: nat, c: nat, e: nat, everything: bool)
    requires a < 16 && b < 16 && c < 16 && e < 16 && u == ((a * 16 + b) * 16 + c) * 16 + e
    requires everything || !IsAsciiAlnum(u)
    ensures EncodeChar(u, everything)
         == [Backslash, LowerU, UpperHexDigit(a), UpperHexDigit(b), UpperHexDigit(c), UpperHexDigit(e)]
  {
    FormatOfDigits(a, b, c, e);
  }

  lemma SelectiveRun()
    ensures EncodeRun([97, 98, 99, 33], false) == [97, 98, 99, 92, 117, 48, 48, 50, 49]
  {
    EncodeRunCons(97, [98, 99, 33], false);
    EncodeRunCons(98, [99, 33], false);
    EncodeRunCons(99, [33], false);
    EncodeRunCons(33, [], false);
    EscapedCharDigits(33, 0, 0, 2, 1, false);
    assert [97] + [98, 99, 33] == [97, 98, 99, 33] && [98] + [99, 33] == [98, 99, 33];
    assert [99] + [33] == [99, 33] && [33] + [] == [33];
  }

  /** Under the selective policy only the punctuation is escaped. */
  lemma SelectivePolicyExample()
    ensures SmartEncoding(Str("abc!")) == Str("abc\\u0021")
  {
    var s: Text := [97, 98, 99, 33];
    assert Str("abc!") == s;
    assert Str("abc\\u0021") == [97, 98, 99, 92, 117, 48, 48, 50, 49];
    ShortInputTokens(s);
    assert !EncodesEverything([Txt(s)]) by {
      assert [Txt(s)][0].value[3] == 33;
    }
    OneRunEncoding(s, false);
    SelectiveRun();
  }

  lemma TotalRun()
    ensures EncodeRun([97, 98, 99], true)
         == EncodeChar(97, true) + EncodeChar(98, true) + EncodeChar(99, true)
  {
    EncodeRunCons(97, [98, 99], true);
    EncodeRunCons(98, [99], true);
    EncodeRunCons(99, [], true);
    assert [97] + [98, 99] == [97, 98, 99] && [98] + [99] == [98, 99] && [99] + [] == [99];
  }

  lemma TotalEscapes()
    ensures EncodeChar(97, true) == Str("\\u0061")
    ensures EncodeChar(98, true) == Str("\\u0062")
    ensures EncodeChar(99, true) == Str("\\u0063")
  {
    EscapedCharDigits(97, 0, 0, 6, 1, true);
    EscapedCharDigits(98, 0, 0, 6, 2, true);
    EscapedCharDigits(99, 0, 0, 6, 3, true);
  }

  /** An all-alphanumeric input is escaped character by character. */
  lemma TotalPolicyExample()
    ensures SmartEncoding(Str("abc")) == Str("\\u0061") + Str("\\u0062") + Str("\\u0063")
  {
    var s: Text := [97, 98, 99];
    assert Str("abc") == s;
    ShortInputTokens(s);
    assert EncodesEverything([Txt(s)]);
    OneRunEncoding(s, true);
    TotalRun();
    TotalEscapes();
  }

  // ----- Escapes already present -----

  /** A single escape is one escape token. */
  lemma OneEscapeTokens(e: Text)
    requires IsEscape(e)
    ensures Tokens(e) == [Esc(e)]
  {
    TokensEscapeFirst(e, []);
    assert e + [] == e;
  }

  /** An input that is already one escape comes back unchanged. */
  lemma EscapePassthroughExample()
    ensures SmartEncoding(Str("\\u0041")) == Str("\\u0041")
  {
    var s: Text := [92, 117, 48, 48, 52, 49];
    assert Str("\\u0041") == s;
    assert s[2..] == [48, 48, 52, 49];
    OneEscapeTokens(s);
    EscapesOnlyUnchanged(s);
  }

  // ----- U+1D11E -----

  lemma SupplementaryEscapes()
    ensures EncodeCodePoint(0x1D11E) == [92, 117, 68, 56, 51, 52, 92, 117, 68, 68, 49, 69]
  {
    assert HighSurrogateOf(0x1D11E) == 0xD834;
    assert LowSurrogateOf(0x1D11E) == 0xDD1E;
    FormatOfDigits(13, 8, 3, 4);
    FormatOfDigits(13, 13, 1, 14);
  }

  /** A character that is not an ASCII letter or digit is escaped whatever the policy. */
  lemma EscapedUnderEitherPolicy(c: CodePoint, everything: bool)
    requires !IsAsciiAlnum(c)
    ensures EncodeChar(c, everything) == EncodeCodePoint(c)
  {
  }

  lemma SupplementaryRun()
    ensures EncodeRun([0x1D11E], false) == [92, 117, 68, 56, 51, 52, 92, 117, 68, 68, 49, 69]
  {
    var s: Text := [0x1D11E];
    assert s[1..] == [] && EncodeRun([], false) == [];
    assert EncodeRun(s, false) == EncodeChar(s[0], false) + EncodeRun(s[1..], false);
    EscapedUnderEitherPolicy(s[0], false);
    SupplementaryEscapes();
  }

  /** U+1D11E is written as its surrogate pair, high half first. */
  lemma SupplementaryExample()
    ensures SmartEncoding([0x1D11E]) == Str("\\uD834\\uDD1E")
  {
    var s: Text := [0x1D11E];
    assert Str("\\uD834\\uDD1E") == [92, 117, 68, 56, 51, 52, 92, 117, 68, 68, 49, 69];
    ShortInputTokens(s);
    assert !EncodesEverything([Txt(s)]) by {
      assert [Txt(s)][0].value[0] == 0x1D11E;
    }
    OneRunEncoding(s, false);
    SupplementaryRun();
  }

  /** Decoding that pair gives back the one character. */
  lemma SupplementaryRoundTrip()
    ensures Decoding(SmartEncoding([0x1D11E])) == [0x1D11E]
  {
    DecodeAfterEncode([0x1D11E]);
  }

  // ----- Surrogates and noncharacters -----

  /** A lone high surrogate is left as it was written. */
  lemma LoneHighSurrogateExample()
    ensures Decoding(Str("\\uD800")) == Str("\\uD800")
  {
    var high: Text := [92, 117, 68, 56, 48, 48];
    assert Str("\\uD800") == high;
    assert high[2..] == [68, 56, 48, 48];
    OneEscapeTokens(high);
    ReservedLeftLiteral(high, []);
    assert [Esc(high)] + [] == [Esc(high)];
  }

  /** The noncharacter U+FFFF is left as it was written. */
  lemma NoncharacterExample()
    ensures Decoding(Str("\\uFFFF")) == Str("\\uFFFF")
  {
    var nonchar: Text := [92, 117, 70, 70, 70, 70];
    assert Str("\\uFFFF") == nonchar;
    assert nonchar[2..] == [70, 70, 70, 70];
    OneEscapeTokens(nonchar);
    ReservedLeftLiteral(nonchar, []);
    assert [Esc(nonchar)] + [] == [Esc(nonchar)];
  }

  lemma WrongOrderTokens(low: Text, high: Text)
    requires low == [92, 117, 68, 67, 48, 48] && high == [92, 117, 68, 56, 48, 48]
    ensures IsEscape(low) && IsEscape(high)
    ensures IsLowSurrogate(EscapeValue(low)) && IsHighSurrogate(EscapeValue(high))
    ensures Tokens(low + high) == [Esc(low), Esc(high)]
  {
    assert low[2..] == [68, 67, 48, 48] && high[2..] == [68, 56, 48, 48];
    TokensEscapeFirst(low, high);
    OneEscapeTokens(high);
  }

  /** A lone low surrogate followed by a lone high surrogate decodes to both, as written. */
  lemma WrongOrderDecoded(low: Text, high: Text)
    requires IsEscape(low) && IsEscape(high)
    requires IsLowSurrogate(EscapeValue(low)) && IsHighSurrogate(EscapeValue(high))
    requires Tokens(low + high) == [Esc(low), Esc(high)]
    ensures Decoding(low + high) == low + high
  {
    LowThenHighStaysLiteral(low, high, []);
    ReservedLeftLiteral(high, []);
    assert [Esc(high)] + [] == [Esc(high)] && [Esc(low), Esc(high)] + [] == [Esc(low), Esc(high)];
    assert DecodeTokens([]) == [];
  }

  /** A low surrogate followed by a high surrogate stays literal text. */
  lemma WrongOrderExample()
    ensures Decoding(Str("\\uDC00\\uD800")) == Str("\\uDC00\\uD800")
  {
    var low: Text := [92, 117, 68, 67, 48, 48];
    var high: Text := [92, 117, 68, 56, 48, 48];
    assert Str("\\uDC00\\uD800") == low + high;
    WrongOrderTokens(low, high);
    WrongOrderDecoded(low, high);
  }

  // ----- Escapes already in the input, decoded after encoding -----

  /** A surrogate pair already written as escapes is copied by the encoder and recombined by the decoder. */
  lemma EscapedPairInInputExample()
    ensures Decoding(SmartEncoding(Str("\\uD834\\uDD1E"))) == [0x1D11E]
  {
    var high: Text := [92, 117, 68, 56, 51, 52];
    var low: Text := [92, 117, 68, 68, 49, 69];
    var s := high + low;
    assert Str("\\uD834\\uDD1E") == s;
    FormatOfDigits(13, 8, 3, 4);
    FormatOfDigits(13, 13, 1, 14);
    assert s == high + (low + []);
    TwoEscapesTokens(high, low, []);
    assert Tokens([]) == [] && [Esc(high), Esc(low)] + [] == [Esc(high), Esc(low)];
    EscapesOnlyUnchanged(s);
    DecodeSurrogateEscapes(high, low, []);
    assert Decoding([]) == [];
  }

  /** A text token followed by an escape token: the run's encoding, then the escape. */
  lemma TextThenEscapeEncoding(v: Text, e: Text, everything: bool)
    ensures EncodeTokens([Txt(v), Esc(e)], everything) == EncodeRun(v, everything) + e
  {
    var ts := [Txt(v), Esc(e)];
    assert ts[1..] == [Esc(e)] && [Esc(e)][1..] == [];
    assert EncodeTokens(ts[1..], everything) == e + [];
    assert EncodeTokens(ts, everything) == EncodeRun(v, everything) + (e + []);
    assert e + [] == e;
  }

  /** A character other than a backslash in front of an escape is a text token of its own. */
  lemma CharThenEscapeTokens(c: CodePoint, e: Text)
    requires c != Backslash && IsEscape(e)
    ensures Tokens([c] + e) == [Txt([c]), Esc(e)]
  {
    OneEscapeTokens(e);
    TokensPlainFirst(c, e);
  }

  /** `\uD800` and `\uDC00` are the escapes of the first high and the first low surrogate. */
  lemma FirstSurrogateEscapes(high: Text, low: Text)
    requires high == [92, 117, 68, 56, 48, 48] && low == [92, 117, 68, 67, 48, 48]
    ensures IsEscape(high) && IsEscape(low) && EscapeValue(high) == 0xD800 && EscapeValue(low) == 0xDC00
  {
    FormatOfDigits(13, 8, 0, 0);
    FormatOfDigits(13, 12, 0, 0);
  }

  /** A lone high surrogate is written as its escape. */
  lemma LoneHighSurrogateRun()
    ensures EncodeRun([0xD800], false) == [92, 117, 68, 56, 48, 48]
  {
    EncodeRunCons(0xD800, [], false);
    assert [0xD800] + [] == [0xD800] && EncodeRun([], false) == [];
    EscapedCharDigits(0xD800, 13, 8, 0, 0, false);
  }

  /** The encoding of a lone high surrogate followed by a low-surrogate escape. */
  lemma SurrogateBeforeEscapeEncoded(high: Text, low: Text)
    requires high == [92, 117, 68, 56, 48, 48] && low == [92, 117, 68, 67, 48, 48]
    ensures IsEscape(high) && IsEscape(low) && EscapeValue(high) == 0xD800 && EscapeValue(low) == 0xDC00
    ensures SmartEncoding([0xD800] + low) == high + (low + [])
  {
    FirstSurrogateEscapes(high, low);
    CharThenEscapeTokens(0xD800, low);
    var ts := [Txt([0xD800]), Esc(low)];
    assert !EncodesEverything(ts) by {
      assert ts[0].value[0] == 0xD800;
    }
    TextThenEscapeEncoding([0xD800], low, false);
    LoneHighSurrogateRun();
    assert low + [] == low;
  }

  /** A lone high surrogate is escaped, and its escape then pairs with a low-surrogate escape after it. */
  lemma SurrogateJoinsEscapeExample()
    ensures Decoding(SmartEncoding([0xD800] + Str("\\uDC00"))) == [0x10000]
  {
    var high: Text := [92, 117, 68, 56, 48, 48];
    var low: Text := [92, 117, 68, 67, 48, 48];
    assert Str("\\uDC00") == low;
    SurrogateBeforeEscapeEncoded(high, low);
    DecodeSurrogateEscapes(high, low, []);
    assert Decoding([]) == [];
  }

  /** The empty input is a fixed point of both directions. */
  lemma EmptyExample()
    ensures SmartEncoding([]) == [] && Decoding([]) == []
  {
    assert Tokens([]) == [];
  }
}
