/// `decode_all`: turning escapes back into characters with one token of lookahead,
/// recombining surrogate pairs and leaving surrogates and noncharacters as written.
module Decoder {
  import opened Escapes
  import opened Tokenizer

  /** The code unit written by the escape token at position `i`. */
  function CodeUnitAt(ts: seq<Token>, i: nat): nat
    requires EscapesValid(ts) && i < |ts| && ts[i].Esc?
  {
    assert ts[i] in ts;
    EscapeValue(ts[i].value)
  }

  /**
   * A high-surrogate escape immediately followed by a low-surrogate escape. The low
   * half of a pair is never itself the high half of another, so pairs never overlap.
   */
  predicate PairAt(ts: seq<Token>)
    requires EscapesValid(ts)
    ensures PairAt(ts) ==> |ts| >= 2 && ts[1].Esc? && !IsHighSurrogate(CodeUnitAt(ts, 1))
  {
    |ts| >= 2 && ts[0].Esc? && ts[1].Esc?
    && IsHighSurrogate(CodeUnitAt(ts, 0)) && IsLowSurrogate(CodeUnitAt(ts, 1))
  }

  /** The decoding of a token list, left to right. */
  function DecodeTokens(ts: seq<Token>): Text
    requires EscapesValid(ts)
    decreases |ts|
  {
    if ts == [] then []
    else
      assert ts[0] in ts;
      assert EscapesValid(ts[1..]) by {
        forall t | t in ts[1..] ensures t in ts { }
      }
      match ts[0]
      case Txt(v) => v + DecodeTokens(ts[1..])
      case Esc(v) =>
        var unit := EscapeValue(v);
        if PairAt(ts) then
          assert EscapesValid(ts[2..]) by {
            forall t | t in ts[2..] ensures t in ts { }
          }
          [Combine(unit, EscapeValue(ts[1].value))] + DecodeTokens(ts[2..])
        else if IsReserved(unit) then v + DecodeTokens(ts[1..])
        else [unit] + DecodeTokens(ts[1..])
  }

  /** What `decode_all` returns for `s`. */
  function Decoding(s: Text): Text
  {
    TokensEscapesValid(s);
    DecodeTokens(Tokens(s))
  }

  lemma TokensEscapesValid(s: Text)
    ensures EscapesValid(Tokens(s))
  {
    TokensWellFormed(s);
  }

  lemma EscapesValidSuffix(ts: seq<Token>, k: nat)
    requires EscapesValid(ts) && k <= |ts|
    ensures EscapesValid(ts[k..])
  {
    forall t | t in ts[k..] ensures t in ts { }
  }

  // ----- Properties of the decoding -----

  /**
   * A text token is copied through unchanged and in place: the tokens before it
   * decode as if the input ended there, the tokens after it as if it started there.
   */
  lemma {:induction false} TextCopiedInPlace(ts1: seq<Token>, v: Text, ts2: seq<Token>)
    requires EscapesValid(ts1) && EscapesValid(ts2)
    ensures EscapesValid(ts1 + [Txt(v)] + ts2)
    ensures DecodeTokens(ts1 + [Txt(v)] + ts2) == DecodeTokens(ts1) + v + DecodeTokens(ts2)
    decreases |ts1|
  {
    var ts := ts1 + [Txt(v)] + ts2;
    forall t | t in ts ensures t.Esc? ==> IsEscape(t.value) {
      assert t in ts1 || t == Txt(v) || t in ts2;
    }
    if ts1 == [] {
      assert ts == [Txt(v)] + ts2;
      assert ts[1..] == ts2;
    } else {
      var rest := ts1[1..] + [Txt(v)] + ts2;
      assert ts[1..] == rest && ts[0] == ts1[0];
      EscapesValidSuffix(ts1, 1);
      TextCopiedInPlace(ts1[1..], v, ts2);
      EscapesValidSuffix(ts, 1);
      if ts1[0].Txt? {
        assert DecodeTokens(ts1) == ts1[0].value + DecodeTokens(ts1[1..]);
        AppendAssoc(ts1[0].value, DecodeTokens(ts1[1..]) + v, DecodeTokens(ts2));
        AppendAssoc(ts1[0].value, DecodeTokens(ts1[1..]), v);
      } else if PairAt(ts1) {
        assert ts[1] == ts1[1] && PairAt(ts);
        assert ts[2..] == ts1[2..] + [Txt(v)] + ts2;
        EscapesValidSuffix(ts1, 2);
        TextCopiedInPlace(ts1[2..], v, ts2);
        var c := Combine(EscapeValue(ts1[0].value), EscapeValue(ts1[1].value));
        assert DecodeTokens(ts1) == [c] + DecodeTokens(ts1[2..]);
        AppendAssoc([c], DecodeTokens(ts1[2..]) + v, DecodeTokens(ts2));
        AppendAssoc([c], DecodeTokens(ts1[2..]), v);
      } else {
        assert !PairAt(ts) by {
          if |ts1| == 1 {
            assert ts[1] == Txt(v);
          } else {
            assert ts[1] == ts1[1];
          }
        }
        var u := EscapeValue(ts1[0].value);
        var e := if IsReserved(u) then ts1[0].value else [u];
        assert DecodeTokens(ts1) == e + DecodeTokens(ts1[1..]);
        assert DecodeTokens(ts) == e + DecodeTokens(rest);
        AppendAssoc(e, DecodeTokens(ts1[1..]) + v, DecodeTokens(ts2));
        AppendAssoc(e, DecodeTokens(ts1[1..]), v);
      }
    }
  }

  /**
   * A high-surrogate escape followed by a low-surrogate escape becomes the one
   * supplementary code point they encode, and both tokens are consumed.
   */
  lemma PairRecombined(h: Text, l: Text, rest: seq<Token>)
    requires IsEscape(h) && IsEscape(l) && EscapesValid(rest)
    requires IsHighSurrogate(EscapeValue(h)) && IsLowSurrogate(EscapeValue(l))
    ensures EscapesValid([Esc(h), Esc(l)] + rest)
    ensures var c := Combine(EscapeValue(h), EscapeValue(l));
      IsSupplementary(c)
      && DecodeTokens([Esc(h), Esc(l)] + rest) == [c] + DecodeTokens(rest)
  {
    var ts := [Esc(h), Esc(l)] + rest;
    forall t | t in ts ensures t.Esc? ==> IsEscape(t.value) {
      assert t == Esc(h) || t == Esc(l) || t in rest;
    }
    assert ts[2..] == rest;
    assert PairAt(ts);
  }

  /** `rest` starts with a low-surrogate escape, the second half a pair needs. */
  predicate StartsWithLowSurrogate(rest: seq<Token>)
    requires EscapesValid(rest)
  {
    rest != [] && rest[0].Esc? && IsLowSurrogate(CodeUnitAt(rest, 0))
  }

  /**
   * An escape that is not the start of a pair and whose code unit is a surrogate
   * or a noncharacter is emitted as its own literal text, case preserved.
   */
  lemma ReservedLeftLiteral(v: Text, rest: seq<Token>)
    requires IsEscape(v) && EscapesValid(rest)
    requires IsReserved(EscapeValue(v))
    requires !(IsHighSurrogate(EscapeValue(v)) && StartsWithLowSurrogate(rest))
    ensures EscapesValid([Esc(v)] + rest)
    ensures DecodeTokens([Esc(v)] + rest) == v + DecodeTokens(rest)
  {
    var ts := [Esc(v)] + rest;
    forall t | t in ts ensures t.Esc? ==> IsEscape(t.value) {
      assert t == Esc(v) || t in rest;
    }
    assert ts[1..] == rest;
    if |ts| >= 2 {
      assert ts[1] == rest[0] && rest[0] in rest;
    }
  }

  /** Any other escape becomes the character it denotes. */
  lemma PlainEscapeDecoded(v: Text, rest: seq<Token>)
    requires IsEscape(v) && EscapesValid(rest)
    requires !IsReserved(EscapeValue(v))
    ensures EscapesValid([Esc(v)] + rest)
    ensures DecodeTokens([Esc(v)] + rest) == [EscapeValue(v)] + DecodeTokens(rest)
  {
    var ts := [Esc(v)] + rest;
    forall t | t in ts ensures t.Esc? ==> IsEscape(t.value) {
      assert t == Esc(v) || t in rest;
    }
    assert ts[1..] == rest;
  }

  /**
   * A low-surrogate escape followed by a high-surrogate escape is never recombined:
   * the low half stays literal and the high half is decoded as if it came first.
   */
  lemma LowThenHighStaysLiteral(l: Text, h: Text, rest: seq<Token>)
    requires IsEscape(l) && IsEscape(h) && EscapesValid(rest)
    requires IsLowSurrogate(EscapeValue(l)) && IsHighSurrogate(EscapeValue(h))
    ensures EscapesValid([Esc(h)] + rest) && EscapesValid([Esc(l), Esc(h)] + rest)
    ensures DecodeTokens([Esc(l), Esc(h)] + rest) == l + DecodeTokens([Esc(h)] + rest)
  {
    var tail := [Esc(h)] + rest;
    forall t | t in tail ensures t.Esc? ==> IsEscape(t.value) {
      assert t == Esc(h) || t in rest;
    }
    ReservedLeftLiteral(l, tail);
    assert [Esc(l)] + tail == [Esc(l), Esc(h)] + rest;
  }

  /**
   * The decoder never manufactures a surrogate or a noncharacter: every character of
   * the output that is not from a text token is a valid, non-reserved code point.
   */
  lemma {:induction false} DecodedCharactersValid(ts: seq<Token>)
    requires EscapesValid(ts)
    ensures forall k :: 0 <= k < |DecodeTokens(ts)| ==>
      DecodeTokens(ts)[k] in TextOf(ts) || !IsReserved(DecodeTokens(ts)[k])
    decreases |ts|
  {
    if ts != [] {
      assert ts[0] in ts;
      EscapesValidSuffix(ts, 1);
      DecodedCharactersValid(ts[1..]);
      var head := if ts[0].Txt? then ts[0].value else [];
      assert TextOf(ts) == head + TextOf(ts[1..]);
      var out := DecodeTokens(ts);
      if ts[0].Txt? {
        assert out == ts[0].value + DecodeTokens(ts[1..]);
        SuffixCharacters(ts[0].value, DecodeTokens(ts[1..]), head, TextOf(ts[1..]));
      } else if PairAt(ts) {
        EscapesValidSuffix(ts, 2);
        DecodedCharactersValid(ts[2..]);
        var c := Combine(EscapeValue(ts[0].value), EscapeValue(ts[1].value));
        assert ts[1] in ts && ts[1].Esc?;
        assert TextOf(ts[1..]) == TextOf(ts[2..]) by {
          assert ts[1..][1..] == ts[2..];
        }
        assert out == [c] + DecodeTokens(ts[2..]);
        SuffixCharacters([c], DecodeTokens(ts[2..]), [], TextOf(ts[2..]));
      } else {
        var v := ts[0].value;
        var u := EscapeValue(v);
        var e := if IsReserved(u) then v else [u];
        EscapeShape(v);
        assert forall k :: 0 <= k < |e| ==> !IsReserved(e[k]);
        assert out == e + DecodeTokens(ts[1..]);
        SuffixCharacters(e, DecodeTokens(ts[1..]), [], TextOf(ts[1..]));
      }
    }
  }

  /** Combining the character property of an output's head and tail. */
  lemma SuffixCharacters(e: Text, rest: Text, text: Text, textRest: Text)
    requires forall k :: 0 <= k < |e| ==> e[k] in text || !IsReserved(e[k])
    requires forall k :: 0 <= k < |rest| ==> rest[k] in textRest || !IsReserved(rest[k])
    ensures forall k :: 0 <= k < |e + rest| ==> (e + rest)[k] in text + textRest || !IsReserved((e + rest)[k])
  {
    forall k | 0 <= k < |e + rest|
      ensures (e + rest)[k] in text + textRest || !IsReserved((e + rest)[k])
    {
      if k < |e| {
        assert (e + rest)[k] == e[k];
      } else {
        assert (e + rest)[k] == rest[k - |e|];
      }
    }
  }

  /** A token list made of escapes only has no text characters. */
  lemma {:induction false} EscapesOnlyNoText(ts: seq<Token>)
    requires forall t :: t in ts ==> t.Esc?
    ensures TextOf(ts) == []
    decreases |ts|
  {
    if ts != [] {
      assert ts[0] in ts;
      forall t | t in ts[1..] ensures t.Esc? {
        assert t in ts;
      }
      EscapesOnlyNoText(ts[1..]);
    }
  }

  /**
   * Decoding escapes only never yields a surrogate or a noncharacter: each one is
   * recombined, decoded to a valid code point, or kept as its ASCII escape text.
   */
  lemma EscapesDecodeToValid(ts: seq<Token>)
    requires EscapesValid(ts) && forall t :: t in ts ==> t.Esc?
    ensures forall k :: 0 <= k < |DecodeTokens(ts)| ==> !IsReserved(DecodeTokens(ts)[k])
  {
    DecodedCharactersValid(ts);
    EscapesOnlyNoText(ts);
  }

  /** Text without escapes decodes to itself. */
  lemma DecodingWithoutEscape(s: Text)
    requires EscapeFree(s)
    ensures Decoding(s) == s
  {
    TokensWithoutEscape(s);
    if s != [] {
      assert DecodeTokens([Txt(s)]) == s + DecodeTokens([]);
    }
  }

  // ----- The imperative decoder -----

  /**
   * The loop invariant of `decode_all`: `r` is the decoding of the tokens before `k`,
   * so that the decoding of the tokens from `k` on completes it.
   */
  predicate DecodedUpTo(ts: seq<Token>, k: nat, r: Text)
    requires EscapesValid(ts) && k <= |ts|
  {
    EscapesValidSuffix(ts, k);
    r + DecodeTokens(ts[k..]) == DecodeTokens(ts)
  }

  /** A text token moves onto the result unchanged. */
  lemma DecodeTextStep(ts: seq<Token>, k: nat, r: Text)
    requires EscapesValid(ts) && k < |ts| && DecodedUpTo(ts, k, r)
    requires ts[k].Txt?
    ensures DecodedUpTo(ts, k + 1, r + ts[k].value)
  {
    var rest := ts[k..];
    EscapesValidSuffix(ts, k);
    EscapesValidSuffix(ts, k + 1);
    assert rest[0] == ts[k] && rest[1..] == ts[k + 1..];
    var tail := DecodeTokens(ts[k + 1..]);
    assert DecodeTokens(rest) == ts[k].value + tail;
    assert (r + ts[k].value) + tail == r + (ts[k].value + tail);
  }

  /** A surrogate pair at `k` moves onto the result as the one code point it encodes. */
  lemma DecodePairStep(ts: seq<Token>, k: nat, r: Text)
    requires EscapesValid(ts) && k + 1 < |ts| && DecodedUpTo(ts, k, r)
    requires ts[k].Esc? && ts[k + 1].Esc?
    requires IsHighSurrogate(CodeUnitAt(ts, k)) && IsLowSurrogate(CodeUnitAt(ts, k + 1))
    ensures DecodedUpTo(ts, k + 2, r + [Combine(CodeUnitAt(ts, k), CodeUnitAt(ts, k + 1))])
  {
    var rest := ts[k..];
    EscapesValidSuffix(ts, k);
    EscapesValidSuffix(ts, k + 2);
    assert rest[0] == ts[k] && rest[1] == ts[k + 1] && rest[2..] == ts[k + 2..];
    assert PairAt(rest);
    var c := Combine(CodeUnitAt(ts, k), CodeUnitAt(ts, k + 1));
    var tail := DecodeTokens(ts[k + 2..]);
    assert DecodeTokens(rest) == [c] + tail;
    assert (r + [c]) + tail == r + ([c] + tail);
  }

  /** An escape at `k` that does not open a pair moves onto the result as its piece. */
  lemma DecodeEscapeStep(ts: seq<Token>, k: nat, r: Text)
    requires EscapesValid(ts) && k < |ts| && DecodedUpTo(ts, k, r)
    requires ts[k].Esc?
    requires !(IsHighSurrogate(CodeUnitAt(ts, k)) && k + 1 < |ts| && ts[k + 1].Esc?
               && IsLowSurrogate(CodeUnitAt(ts, k + 1)))
    ensures var u := CodeUnitAt(ts, k);
      DecodedUpTo(ts, k + 1, r + if IsReserved(u) then ts[k].value else [u])
  {
    var rest := ts[k..];
    EscapesValidSuffix(ts, k);
    EscapesValidSuffix(ts, k + 1);
    assert rest[0] == ts[k] && rest[1..] == ts[k + 1..];
    assert !PairAt(rest) by {
      if |rest| >= 2 {
        assert rest[1] == ts[k + 1];
      }
    }
    var u := CodeUnitAt(ts, k);
    var piece, tail := if IsReserved(u) then ts[k].value else [u], DecodeTokens(ts[k + 1..]);
    assert DecodeTokens(rest) == piece + tail;
    assert (r + piece) + tail == r + (piece + tail);
  }

  /** `decode_all`: walks the tokens, consuming one token, or two for a surrogate pair. */
  method DecodeAll(s: Text) returns (r: Text)
    ensures r == Decoding(s)
  {
    var tokens := Tokenize(s);
    TokensEscapesValid(s);
    r := [];
    var tokenIndex := 0;
    assert tokens[0..] == tokens;
    while tokenIndex < |tokens|
      invariant 0 <= tokenIndex <= |tokens|
      invariant DecodedUpTo(tokens, tokenIndex, r)
      decreases |tokens| - tokenIndex
    {
      var token := tokens[tokenIndex];
      assert token in tokens;
      if token.Esc? {
        var highCodeUnit := CodeUnitAt(tokens, tokenIndex);
        if tokenIndex + 1 < |tokens| && tokens[tokenIndex + 1].Esc? {
          if IsHighSurrogate(highCodeUnit) {
            var lowCodeUnit := CodeUnitAt(tokens, tokenIndex + 1);
            if IsLowSurrogate(lowCodeUnit) {
              DecodePairStep(tokens, tokenIndex, r);
              r := r + [Combine(highCodeUnit, lowCodeUnit)];
              tokenIndex := tokenIndex + 2;
              continue;
            }
          }
        }
        DecodeEscapeStep(tokens, tokenIndex, r);
        if IsReserved(highCodeUnit) {
          r := r + token.value;
          tokenIndex := tokenIndex + 1;
          continue;
        }
        r := r + [highCodeUnit];
        tokenIndex := tokenIndex + 1;
      } else {
        DecodeTextStep(tokens, tokenIndex, r);
        r := r + token.value;
        tokenIndex := tokenIndex + 1;
      }
    }
    assert tokens[tokenIndex..] == [];
  }
}
