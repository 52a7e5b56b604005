/// `smart_encode`: escaping text runs with `_encode_cp` under a policy chosen from
/// the whole input, while escapes already present are copied through verbatim.
module Encoder {
  import opened Escapes
  import opened Tokenizer

  /**
   * The first pass: the total policy applies when every character of every text
   * token is an ASCII letter or digit (in particular when there is no text token).
   */
  predicate EncodesEverything(ts: seq<Token>)
    ensures (forall i :: 0 <= i < |ts| ==> ts[i].Esc?) ==> EncodesEverything(ts)
  {
    forall i, j :: 0 <= i < |ts| && ts[i].Txt? && 0 <= j < |ts[i].value| ==> IsAsciiAlnum(ts[i].value[j])
  }

  /** One text character: kept when the policy is selective and it is alphanumeric, escaped otherwise. */
  function EncodeChar(c: CodePoint, everything: bool): (r: Text)
    ensures forall i :: 0 <= i < |r| ==> IsAscii(r[i])
    ensures |r| > 0 && (r[0] == Backslash <==> everything || !IsAsciiAlnum(c))
  {
    if !everything && IsAsciiAlnum(c) then [c] else EncodeCodePoint(c)
  }

  /** A text run, character by character. */
  function EncodeRun(v: Text, everything: bool): (r: Text)
    ensures |r| >= |v|
  {
    if v == [] then [] else EncodeChar(v[0], everything) + EncodeRun(v[1..], everything)
  }

  /** What one token contributes to the output: an escape verbatim, a text run encoded. */
  function EncodeToken(t: Token, everything: bool): Text {
    match t
    case Esc(v) => v
    case Txt(v) => EncodeRun(v, everything)
  }

  /** The second pass over the tokens: escapes verbatim, text runs encoded. */
  function EncodeTokens(ts: seq<Token>, everything: bool): (r: Text)
    ensures |r| >= |Concat(ts)|
  {
    if ts == [] then [] else EncodeToken(ts[0], everything) + EncodeTokens(ts[1..], everything)
  }

  /** What `smart_encode` returns for `s`; encoding never makes the text shorter. */
  function SmartEncoding(s: Text): (r: Text)
    ensures |r| >= |s|
  {
    TokensLossless(s);
    var ts := Tokens(s);
    EncodeTokens(ts, EncodesEverything(ts))
  }

  /** The ASCII letters and digits of `v`, in order. */
  function AlnumOf(v: Text): Text {
    if v == [] then []
    else (if IsAsciiAlnum(v[0]) then [v[0]] else []) + AlnumOf(v[1..])
  }

  /** The text characters that survive encoding unescaped under a policy. */
  function KeptText(v: Text, everything: bool): Text {
    if everything then [] else AlnumOf(v)
  }

  // ----- Structure of the encoding -----

  lemma {:induction false} EncodeRunAppend(a: Text, b: Text, p: bool)
    ensures EncodeRun(a + b, p) == EncodeRun(a, p) + EncodeRun(b, p)
  {
    if a == [] {
      assert a + b == b;
    } else {
      assert (a + b)[0] == a[0] && (a + b)[1..] == a[1..] + b;
      EncodeRunAppend(a[1..], b, p);
      AppendAssoc(EncodeChar(a[0], p), EncodeRun(a[1..], p), EncodeRun(b, p));
    }
  }

  lemma EncodeRunSnoc(v: Text, j: nat, p: bool)
    requires j < |v|
    ensures EncodeRun(v[..j + 1], p) == EncodeRun(v[..j], p) + EncodeChar(v[j], p)
  {
    assert v[..j + 1] == v[..j] + [v[j]];
    EncodeRunAppend(v[..j], [v[j]], p);
    assert EncodeRun([v[j]], p) == EncodeChar(v[j], p) + EncodeRun([], p);
  }

  lemma {:induction false} EncodeTokensAppend(ts1: seq<Token>, ts2: seq<Token>, p: bool)
    ensures EncodeTokens(ts1 + ts2, p) == EncodeTokens(ts1, p) + EncodeTokens(ts2, p)
  {
    if ts1 == [] {
      assert ts1 + ts2 == ts2;
    } else {
      assert (ts1 + ts2)[0] == ts1[0] && (ts1 + ts2)[1..] == ts1[1..] + ts2;
      EncodeTokensAppend(ts1[1..], ts2, p);
      AppendAssoc(EncodeToken(ts1[0], p), EncodeTokens(ts1[1..], p), EncodeTokens(ts2, p));
    }
  }

  lemma EncodeTokensSnoc(ts: seq<Token>, i: nat, p: bool)
    requires i < |ts|
    ensures EncodeTokens(ts[..i + 1], p) == EncodeTokens(ts[..i], p) + EncodeToken(ts[i], p)
  {
    assert ts[..i + 1] == ts[..i] + [ts[i]];
    EncodeTokensAppend(ts[..i], [ts[i]], p);
    assert EncodeTokens([ts[i]], p) == EncodeToken(ts[i], p) + EncodeTokens([], p);
  }

  /** An escape token is copied to the output verbatim and in place, whatever surrounds it. */
  lemma EscapeCopiedInPlace(ts1: seq<Token>, v: Text, ts2: seq<Token>, p: bool)
    ensures EncodeTokens(ts1 + [Esc(v)] + ts2, p) == EncodeTokens(ts1, p) + v + EncodeTokens(ts2, p)
  {
    EncodeTokensAppend(ts1 + [Esc(v)], ts2, p);
    EncodeTokensAppend(ts1, [Esc(v)], p);
    assert EncodeTokens([Esc(v)], p) == v + EncodeTokens([], p);
  }

  // ----- The policy -----

  /** The policy looks only at the characters of the text tokens, never at escapes. */
  lemma {:induction false} PolicyReadsOnlyText(ts: seq<Token>)
    ensures EncodesEverything(ts) <==> forall k :: 0 <= k < |TextOf(ts)| ==> IsAsciiAlnum(TextOf(ts)[k])
  {
    if ts != [] {
      PolicyReadsOnlyText(ts[1..]);
      var head := if ts[0].Txt? then ts[0].value else [];
      assert TextOf(ts) == head + TextOf(ts[1..]);
      if EncodesEverything(ts) {
        forall k | 0 <= k < |TextOf(ts)|
          ensures IsAsciiAlnum(TextOf(ts)[k])
        {
          if k < |head| {
            assert TextOf(ts)[k] == ts[0].value[k];
          } else {
            assert TextOf(ts)[k] == TextOf(ts[1..])[k - |head|];
            assert EncodesEverything(ts[1..]) by {
              forall i, j | 0 <= i < |ts[1..]| && ts[1..][i].Txt? && 0 <= j < |ts[1..][i].value|
                ensures IsAsciiAlnum(ts[1..][i].value[j])
              {
                assert ts[1..][i] == ts[i + 1];
              }
            }
          }
        }
      } else {
        var i, j :| 0 <= i < |ts| && ts[i].Txt? && 0 <= j < |ts[i].value| && !IsAsciiAlnum(ts[i].value[j]);
        if i == 0 {
          assert TextOf(ts)[j] == ts[0].value[j];
        } else {
          assert ts[1..][i - 1] == ts[i];
          assert !EncodesEverything(ts[1..]);
          var k :| 0 <= k < |TextOf(ts[1..])| && !IsAsciiAlnum(TextOf(ts[1..])[k]);
          assert TextOf(ts)[|head| + k] == TextOf(ts[1..])[k];
        }
      }
    }
  }

  // ----- What the output looks like -----

  lemma {:induction false} EncodeRunAscii(v: Text, p: bool)
    ensures forall k :: 0 <= k < |EncodeRun(v, p)| ==> IsAscii(EncodeRun(v, p)[k])
  {
    if v != [] {
      EncodeRunAscii(v[1..], p);
      var e, rest := EncodeChar(v[0], p), EncodeRun(v[1..], p);
      forall k | 0 <= k < |e + rest|
        ensures IsAscii((e + rest)[k])
      {
        if k >= |e| {
          assert (e + rest)[k] == rest[k - |e|];
        }
      }
    }
  }

  lemma {:induction false} EncodeTokensAscii(ts: seq<Token>, p: bool)
    requires EscapesValid(ts)
    ensures forall k :: 0 <= k < |EncodeTokens(ts, p)| ==> IsAscii(EncodeTokens(ts, p)[k])
  {
    if ts != [] {
      assert ts[0] in ts;
      assert EscapesValid(ts[1..]) by {
        forall t | t in ts[1..] ensures t in ts { }
      }
      EncodeTokensAscii(ts[1..], p);
      var e, rest := EncodeToken(ts[0], p), EncodeTokens(ts[1..], p);
      if ts[0].Esc? {
        EscapeShape(ts[0].value);
      } else {
        EncodeRunAscii(ts[0].value, p);
      }
      assert EncodeTokens(ts, p) == e + rest;
      forall k | 0 <= k < |e + rest|
        ensures IsAscii((e + rest)[k])
      {
        if k >= |e| {
          assert (e + rest)[k] == rest[k - |e|];
        }
      }
    }
  }

  /** The output of `smart_encode` is pure ASCII. */
  lemma SmartEncodingAscii(s: Text)
    ensures forall k :: 0 <= k < |SmartEncoding(s)| ==> IsAscii(SmartEncoding(s)[k])
  {
    TokensWellFormed(s);
    EncodeTokensAscii(Tokens(s), EncodesEverything(Tokens(s)));
  }

  lemma {:induction false} EncodeAllEscapes(ts: seq<Token>, p: bool)
    requires forall t :: t in ts ==> t.Esc?
    ensures EncodeTokens(ts, p) == Concat(ts)
  {
    if ts != [] {
      assert ts[0] in ts;
      assert forall t :: t in ts[1..] ==> t in ts;
      EncodeAllEscapes(ts[1..], p);
    }
  }

  /** Input made only of escapes, the empty input included, comes back unchanged. */
  lemma EscapesOnlyUnchanged(s: Text)
    requires forall t :: t in Tokens(s) ==> t.Esc?
    ensures SmartEncoding(s) == s
  {
    EncodeAllEscapes(Tokens(s), EncodesEverything(Tokens(s)));
    TokensLossless(s);
  }

  /** One encoded character, followed by anything, adds only its kept character to the text tokens. */
  lemma EncodeCharText(c: CodePoint, p: bool, x: Text)
    ensures TextOf(Tokens(EncodeChar(c, p) + x)) == KeptText([c], p) + TextOf(Tokens(x))
  {
    AlnumOfOne(c);
    if !p && IsAsciiAlnum(c) {
      PlainCharText(c, x);
    } else {
      EscapedCodePointText(c, x);
    }
  }

  lemma AlnumOfOne(c: CodePoint)
    ensures AlnumOf([c]) == if IsAsciiAlnum(c) then [c] else []
  {
    assert AlnumOf([c]) == (if IsAsciiAlnum(c) then [c] else []) + AlnumOf([]);
  }

  /** A character other than a backslash, followed by anything, joins the text. */
  lemma PlainCharText(c: CodePoint, x: Text)
    requires c != Backslash
    ensures TextOf(Tokens([c] + x)) == [c] + TextOf(Tokens(x))
  {
    TokensPlainFirst(c, x);
    TextOfPrepend([c], Tokens(x));
  }

  /** The escapes of a code point, followed by anything, add no text characters. */
  lemma EscapedCodePointText(c: CodePoint, x: Text)
    ensures TextOf(Tokens(EncodeCodePoint(c) + x)) == TextOf(Tokens(x))
  {
    var e := EncodeCodePoint(c);
    if c <= 0xFFFF {
      TokensEscapeFirst(e, x);
      assert TextOf([Esc(e)] + Tokens(x)) == TextOf(([Esc(e)] + Tokens(x))[1..]);
      assert ([Esc(e)] + Tokens(x))[1..] == Tokens(x);
    } else {
      TwoEscapesText(e[..6], e[6..], x);
      assert e == e[..6] + e[6..];
    }
  }

  lemma TwoEscapesText(e1: Text, e2: Text, x: Text)
    requires IsEscape(e1) && IsEscape(e2)
    ensures TextOf(Tokens(e1 + e2 + x)) == TextOf(Tokens(x))
  {
    AppendAssoc(e1, e2, x);
    TokensEscapeFirst(e1, e2 + x);
    TokensEscapeFirst(e2, x);
    var ts := [Esc(e1)] + ([Esc(e2)] + Tokens(x));
    assert ts[1..] == [Esc(e2)] + Tokens(x);
    assert ([Esc(e2)] + Tokens(x))[1..] == Tokens(x);
  }

  lemma {:induction false} AlnumOfAppend(a: Text, b: Text)
    ensures AlnumOf(a + b) == AlnumOf(a) + AlnumOf(b)
  {
    if a == [] {
      assert a + b == b;
    } else {
      assert (a + b)[0] == a[0] && (a + b)[1..] == a[1..] + b;
      AlnumOfAppend(a[1..], b);
      AppendAssoc((if IsAsciiAlnum(a[0]) then [a[0]] else []), AlnumOf(a[1..]), AlnumOf(b));
    }
  }

  lemma {:induction false} EncodeRunText(v: Text, p: bool, x: Text)
    ensures TextOf(Tokens(EncodeRun(v, p) + x)) == KeptText(v, p) + TextOf(Tokens(x))
  {
    if v == [] {
      assert EncodeRun(v, p) + x == x;
    } else {
      var e, rest := EncodeChar(v[0], p), EncodeRun(v[1..], p);
      AppendAssoc(e, rest, x);
      EncodeCharText(v[0], p, rest + x);
      EncodeRunText(v[1..], p, x);
      assert v == [v[0]] + v[1..];
      AlnumOfAppend([v[0]], v[1..]);
      AppendAssoc(KeptText([v[0]], p), KeptText(v[1..], p), TextOf(Tokens(x)));
    }
  }

  lemma {:induction false} EncodeTokensText(ts: seq<Token>, p: bool, x: Text)
    requires EscapesValid(ts)
    ensures TextOf(Tokens(EncodeTokens(ts, p) + x)) == KeptText(TextOf(ts), p) + TextOf(Tokens(x))
  {
    if ts == [] {
      assert EncodeTokens(ts, p) + x == x;
    } else {
      assert ts[0] in ts;
      assert EscapesValid(ts[1..]) by {
        forall t | t in ts[1..] ensures t in ts { }
      }
      var e, rest := EncodeToken(ts[0], p), EncodeTokens(ts[1..], p);
      assert EncodeTokens(ts, p) == e + rest;
      AppendAssoc(e, rest, x);
      EncodeTokensText(ts[1..], p, x);
      var head := if ts[0].Txt? then ts[0].value else [];
      assert TextOf(ts) == head + TextOf(ts[1..]);
      AlnumOfAppend(head, TextOf(ts[1..]));
      AppendAssoc(KeptText(head, p), KeptText(TextOf(ts[1..]), p), TextOf(Tokens(x)));
      if ts[0].Esc? {
        TokensEscapeFirst(ts[0].value, rest + x);
      } else {
        EncodeRunText(ts[0].value, p, rest + x);
      }
    }
  }

  /** A well-formed tokenization without text characters holds escapes only. */
  lemma {:induction false} NoTextMeansEscapesOnly(ts: seq<Token>)
    requires WellFormed(ts) && TextOf(ts) == []
    ensures forall t :: t in ts ==> t.Esc?
  {
    if ts != [] {
      assert ts[0] in ts;
      WellFormedTail(ts);
      NoTextMeansEscapesOnly(ts[1..]);
    }
  }

  /**
   * The policy rule, read off the output's own tokenization: under the total policy
   * the output is made of escapes only; under the selective policy its text is
   * exactly the ASCII letters and digits of the input's text, in their order.
   */
  lemma SmartEncodingPolicy(s: Text)
    ensures var out := SmartEncoding(s);
      if EncodesEverything(Tokens(s)) then forall t :: t in Tokens(out) ==> t.Esc?
      else TextOf(Tokens(out)) == AlnumOf(TextOf(Tokens(s)))
  {
    var ts := Tokens(s);
    var p := EncodesEverything(ts);
    var out := SmartEncoding(s);
    TokensWellFormed(s);
    EncodeTokensText(ts, p, []);
    assert out + [] == out;
    if p {
      TokensWellFormed(out);
      NoTextMeansEscapesOnly(Tokens(out));
    }
  }

  // ----- The imperative encoder -----

  /** `smart_encode`: a first pass that looks for a non-alphanumeric text character, then the encoding pass. */
  method SmartEncode(s: Text) returns (r: Text)
    ensures r == SmartEncoding(s)
  {
    var tokens := Tokenize(s);

    var hasNonAlnum := false;
    var i := 0;
    while i < |tokens|
      invariant 0 <= i <= |tokens|
      invariant !hasNonAlnum
      invariant forall k, j :: 0 <= k < i && tokens[k].Txt? && 0 <= j < |tokens[k].value| ==> IsAsciiAlnum(tokens[k].value[j])
    {
      if tokens[i].Txt? {
        var value := tokens[i].value;
        var j := 0;
        while j < |value|
          invariant 0 <= j <= |value|
          invariant !hasNonAlnum
          invariant forall k :: 0 <= k < j ==> IsAsciiAlnum(value[k])
        {
          if !IsAsciiAlnum(value[j]) {
            hasNonAlnum := true;
            break;
          }
          j := j + 1;
        }
        if hasNonAlnum {
          break;
        }
      }
      i := i + 1;
    }
    var encodeAllAlnum := !hasNonAlnum;
    assert encodeAllAlnum == EncodesEverything(tokens);

    r := [];
    i := 0;
    while i < |tokens|
      invariant 0 <= i <= |tokens|
      invariant r == EncodeTokens(tokens[..i], encodeAllAlnum)
    {
      var t := tokens[i];
      ghost var before := r;
      if t.Esc? {
        r := r + t.value;
      } else if encodeAllAlnum {
        var j := 0;
        while j < |t.value|
          invariant 0 <= j <= |t.value|
          invariant r == before + EncodeRun(t.value[..j], encodeAllAlnum)
        {
          EncodeRunSnoc(t.value, j, encodeAllAlnum);
          AppendAssoc(before, EncodeRun(t.value[..j], encodeAllAlnum), EncodeCodePoint(t.value[j]));
          r := r + EncodeCodePoint(t.value[j]);
          j := j + 1;
        }
        assert t.value[..j] == t.value;
      } else {
        var j := 0;
        while j < |t.value|
          invariant 0 <= j <= |t.value|
          invariant r == before + EncodeRun(t.value[..j], encodeAllAlnum)
        {
          var c := t.value[j];
          EncodeRunSnoc(t.value, j, encodeAllAlnum);
          AppendAssoc(before, EncodeRun(t.value[..j], encodeAllAlnum), EncodeChar(c, encodeAllAlnum));
          if IsAsciiAlnum(c) {
            r := r + [c];
          } else {
            r := r + EncodeCodePoint(c);
          }
          j := j + 1;
        }
        assert t.value[..j] == t.value;
      }
      EncodeTokensSnoc(tokens, i, encodeAllAlnum);
      i := i + 1;
    }
    assert tokens[..i] == tokens;
  }
}
