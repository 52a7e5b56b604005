/// Encoding and decoding together: what `smart_encode` writes, `decode_all` reads back.
module RoundTrip {
  import opened Escapes
  import opened Tokenizer
  import opened Encoder
  import opened Decoder

  /** A text run placed in front of a token list decodes to itself, followed by the rest. */
  lemma DecodePrepend(run: Text, ts: seq<Token>)
    requires EscapesValid(ts)
    ensures EscapesValid(Prepend(run, ts))
    ensures DecodeTokens(Prepend(run, ts)) == run + DecodeTokens(ts)
  {
    if run != [] {
      var p := Prepend(run, ts);
      var rest := if ts != [] && ts[0].Txt? then ts[1..] else ts;
      var head := if ts != [] && ts[0].Txt? then ts[0].value else [];
      assert run + head == if head == [] then run else run + head;
      assert p == [Txt(run + head)] + rest;
      EscapesValidSuffix(ts, |ts| - |rest|);
      assert EscapesValid(p) by {
        forall t | t in p ensures t.Esc? ==> IsEscape(t.value) {
          assert t == p[0] || t in rest;
        }
      }
      assert p[1..] == rest;
      assert DecodeTokens(p) == (run + head) + DecodeTokens(rest);
      assert DecodeTokens(ts) == head + DecodeTokens(rest) by {
        if ts != [] && ts[0].Txt? {
          assert ts[1..] == rest;
        }
      }
    }
  }

  /** One non-reserved character, encoded under either policy, decodes back to itself. */
  lemma DecodeEncodedChar(c: CodePoint, everything: bool, x: Text)
    requires !IsReserved(c)
    ensures Decoding(EncodeChar(c, everything) + x) == [c] + Decoding(x)
  {
    if !everything && IsAsciiAlnum(c) {
      DecodeKeptChar(c, x);
    } else if c <= 0xFFFF {
      DecodeEscapedChar(c, x);
    } else {
      DecodeEscapedPair(c, x);
    }
  }

  /** A character kept as itself joins the text run in front of what follows. */
  lemma DecodeKeptChar(c: CodePoint, x: Text)
    requires IsAsciiAlnum(c)
    ensures Decoding([c] + x) == [c] + Decoding(x)
  {
    TokensEscapesValid(x);
    TokensPlainFirst(c, x);
    DecodePrepend([c], Tokens(x));
  }

  /** A character of the Basic Multilingual Plane, written as one escape, is decoded back. */
  lemma DecodeEscapedChar(c: CodePoint, x: Text)
    requires !IsReserved(c) && c <= 0xFFFF
    ensures Decoding(EncodeCodePoint(c) + x) == [c] + Decoding(x)
  {
    TokensEscapesValid(x);
    var e := EncodeCodePoint(c);
    TokensEscapeFirst(e, x);
    PlainEscapeDecoded(e, Tokens(x));
  }

  /** A supplementary character, written as its two surrogate escapes, is recombined. */
  lemma DecodeEscapedPair(c: CodePoint, x: Text)
    requires IsSupplementary(c)
    ensures Decoding(EncodeCodePoint(c) + x) == [c] + Decoding(x)
  {
    DecodeSurrogatesOf(EncodeCodePoint(c), c, x);
  }

  /** Twelve characters holding the escapes of a surrogate pair of `c` decode to `c`. */
  lemma DecodeSurrogatesOf(e: Text, c: CodePoint, x: Text)
    requires |e| == 12 && IsEscape(e[..6]) && IsEscape(e[6..])
    requires IsHighSurrogate(EscapeValue(e[..6])) && IsLowSurrogate(EscapeValue(e[6..]))
    requires Combine(EscapeValue(e[..6]), EscapeValue(e[6..])) == c
    ensures Decoding(e + x) == [c] + Decoding(x)
  {
    var high, low := e[..6], e[6..];
    assert e + x == high + (low + x) by {
      assert e == high + low;
    }
    DecodeSurrogateEscapes(high, low, x);
  }

  /** Two escapes in front of some text are two tokens in front of that text's tokens. */
  lemma TwoEscapesTokens(high: Text, low: Text, x: Text)
    requires IsEscape(high) && IsEscape(low)
    ensures Tokens(high + (low + x)) == [Esc(high), Esc(low)] + Tokens(x)
  {
    TokensEscapeFirst(high, low + x);
    TokensEscapeFirst(low, x);
    assert [Esc(high)] + ([Esc(low)] + Tokens(x)) == [Esc(high), Esc(low)] + Tokens(x);
  }

  /** A high-surrogate escape and a low-surrogate escape in front of some text decode to their combination. */
  lemma DecodeSurrogateEscapes(high: Text, low: Text, x: Text)
    requires IsEscape(high) && IsEscape(low)
    requires IsHighSurrogate(EscapeValue(high)) && IsLowSurrogate(EscapeValue(low))
    ensures Decoding(high + (low + x)) == [Combine(EscapeValue(high), EscapeValue(low))] + Decoding(x)
  {
    TokensEscapesValid(x);
    TwoEscapesTokens(high, low, x);
    PairRecombined(high, low, Tokens(x));
  }

  /** A run of non-reserved characters, encoded, decodes back to the run. */
  lemma {:induction false} DecodeEncodedRun(v: Text, everything: bool, x: Text)
    requires forall i :: 0 <= i < |v| ==> !IsReserved(v[i])
    ensures Decoding(EncodeRun(v, everything) + x) == v + Decoding(x)
    decreases |v|
  {
    if v != [] {
      var e, rest := EncodeChar(v[0], everything), EncodeRun(v[1..], everything);
      DecodeEncodedChar(v[0], everything, rest + x);
      DecodeEncodedRun(v[1..], everything, x);
      DecodeChain(EncodeRun(v, everything), e, rest, x, [v[0]], v[1..]);
      assert [v[0]] + v[1..] == v;
    } else {
      assert EncodeRun(v, everything) + x == x;
    }
  }

  /**
   * Decoding an encoding piece by piece: when `e` decodes to `u` in front of the rest,
   * and the rest decodes to `w` in front of `x`, then `e + rest` decodes to `u + w`.
   */
  lemma DecodeChain(a: Text, e: Text, rest: Text, x: Text, u: Text, w: Text)
    requires a == e + rest
    requires Decoding(e + (rest + x)) == u + Decoding(rest + x)
    requires Decoding(rest + x) == w + Decoding(x)
    ensures Decoding(a + x) == (u + w) + Decoding(x)
  {
    AppendAssoc(e, rest, x);
    AppendAssoc(u, w, Decoding(x));
  }

  /**
   * The round trip: for text with no escape in it and no surrogate or noncharacter,
   * decoding the encoder's output gives back exactly the original text.
   */
  lemma DecodeAfterEncode(s: Text)
    requires EscapeFree(s)
    requires forall i :: 0 <= i < |s| ==> !IsReserved(s[i])
    ensures Decoding(SmartEncoding(s)) == s
  {
    TokensWithoutEscape(s);
    var everything := EncodesEverything(Tokens(s));
    assert Tokens([]) == [] && Decoding([]) == [];
    if s != [] {
      calc {
        SmartEncoding(s);
        EncodeTokens([Txt(s)], everything);
        { assert [Txt(s)][1..] == []; }
        EncodeRun(s, everything) + [];
      }
      DecodeEncodedRun(s, everything, []);
    }
  }
}
