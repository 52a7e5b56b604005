/// `_tokenize`: splitting a string into literal text runs and `\uXXXX` escapes,
/// as `re.finditer` finds the escapes (leftmost, non-overlapping).
module Tokenizer {
  import opened Escapes

  /** `("TXT", value)` or `("ESC", value)`. */
  datatype Token = Txt(value: Text) | Esc(value: Text)

  /** The escape pattern matches the six characters of `s` starting at `i`. */
  predicate EscapeAt(s: Text, i: nat) {
    i + 6 <= |s| && IsEscape(s[i..i + 6])
  }

  /** No substring of `v` matches the escape pattern. */
  predicate EscapeFree(v: Text) {
    forall j: nat | j < |v| :: !EscapeAt(v, j)
  }

  /** Puts a text run in front of a token list, merging it into a leading text token. */
  function Prepend(run: Text, ts: seq<Token>): seq<Token> {
    if run == [] then ts
    else if ts != [] && ts[0].Txt? then [Txt(run + ts[0].value)] + ts[1..]
    else [Txt(run)] + ts
  }

  /**
   * The tokenization of `s`, read from the front: an escape at position 0 is a token
   * of its own, any other first character joins the text run that follows it.
   */
  function Tokens(s: Text): seq<Token>
    decreases |s|
  {
    if s == [] then []
    else if EscapeAt(s, 0) then [Esc(s[..6])] + Tokens(s[6..])
    else Prepend([s[0]], Tokens(s[1..]))
  }

  /** `"".join` of the token values. */
  function Concat(ts: seq<Token>): Text {
    if ts == [] then [] else ts[0].value + Concat(ts[1..])
  }

  /** The characters of the text tokens, in order. */
  function TextOf(ts: seq<Token>): Text {
    if ts == [] then []
    else (if ts[0].Txt? then ts[0].value else []) + TextOf(ts[1..])
  }

  /** Every escape token holds a six-character match of the escape pattern. */
  predicate EscapesValid(ts: seq<Token>) {
    forall t :: t in ts && t.Esc? ==> IsEscape(t.value)
  }

  /**
   * The shape of a tokenization: valid escape tokens, non-empty text tokens that
   * contain no match, and never two text tokens side by side.
   */
  predicate WellFormed(ts: seq<Token>) {
    EscapesValid(ts)
    && (forall t :: t in ts && t.Txt? ==> t.value != [] && EscapeFree(t.value))
    && (forall i :: 0 <= i < |ts| - 1 ==> !(ts[i].Txt? && ts[i + 1].Txt?))
  }

  /**
   * Regrouping a concatenation. Proved once here, so that the longer proofs that
   * regroup their pieces do not have to rediscover it in their own context.
   */
  lemma AppendAssoc<T>(a: seq<T>, b: seq<T>, c: seq<T>)
    ensures (a + b) + c == a + (b + c)
  {
  }

  /** Growing a run one character at a time and prepending it at once agree. */
  lemma PrependPrepend(run: Text, run2: Text, ts: seq<Token>)
    requires run2 != []
    ensures Prepend(run, Prepend(run2, ts)) == Prepend(run + run2, ts)
  {
    if run == [] {
      assert run + run2 == run2;
    } else if ts != [] && ts[0].Txt? {
      var inner := [Txt(run2 + ts[0].value)] + ts[1..];
      assert inner[0].Txt? && inner[1..] == ts[1..];
      assert run + (run2 + ts[0].value) == (run + run2) + ts[0].value;
    } else {
      var inner := [Txt(run2)] + ts;
      assert inner[0].Txt? && inner[1..] == ts;
    }
  }

  lemma ConcatPrepend(run: Text, ts: seq<Token>)
    ensures Concat(Prepend(run, ts)) == run + Concat(ts)
  {
    if run != [] && ts != [] && ts[0].Txt? {
      var ts' := [Txt(run + ts[0].value)] + ts[1..];
      assert ts'[1..] == ts[1..];
    }
  }

  lemma TextOfPrepend(run: Text, ts: seq<Token>)
    ensures TextOf(Prepend(run, ts)) == run + TextOf(ts)
  {
    if run != [] && ts != [] && ts[0].Txt? {
      var ts' := [Txt(run + ts[0].value)] + ts[1..];
      assert ts'[1..] == ts[1..];
    }
  }

  lemma ConcatAppend(ts1: seq<Token>, ts2: seq<Token>)
    ensures Concat(ts1 + ts2) == Concat(ts1) + Concat(ts2)
  {
    if ts1 == [] {
      assert ts1 + ts2 == ts2;
    } else {
      assert (ts1 + ts2)[0] == ts1[0];
      assert (ts1 + ts2)[1..] == ts1[1..] + ts2;
      ConcatAppend(ts1[1..], ts2);
    }
  }

  lemma EscapeAtShift(s: Text, k: nat, j: nat)
    requires k <= |s|
    ensures EscapeAt(s[k..], j) == EscapeAt(s, k + j)
  {
    if k + j + 6 <= |s| {
      assert s[k..][j..j + 6] == s[k + j..k + j + 6];
    }
  }

  /** Tokenizing loses nothing: the token values concatenate back to the input. */
  lemma {:induction false} TokensLossless(s: Text)
    ensures Concat(Tokens(s)) == s
    decreases |s|
  {
    if s == [] {
    } else if EscapeAt(s, 0) {
      TokensLossless(s[6..]);
      assert Tokens(s)[1..] == Tokens(s[6..]);
      assert s == s[..6] + s[6..];
    } else {
      TokensLossless(s[1..]);
      ConcatPrepend([s[0]], Tokens(s[1..]));
      assert s == [s[0]] + s[1..];
    }
  }

  /** A first character that does not open an escape does not open one in any prefix holding it. */
  lemma NoEscapeInRun(s: Text, w: Text)
    requires s != [] && !EscapeAt(s, 0) && EscapeFree(w)
    requires [s[0]] + w <= s
    ensures EscapeFree([s[0]] + w)
  {
    var v := [s[0]] + w;
    forall j: nat | j < |v|
      ensures !EscapeAt(v, j)
    {
      if j == 0 && 6 <= |v| {
        assert v[..6] == s[..6];
      } else if j > 0 && j + 6 <= |v| {
        assert v[j..j + 6] == w[j - 1..j + 5];
        assert !EscapeAt(w, j - 1);
      }
    }
  }

  /** Putting a valid token in front of a well-formed list keeps it well formed. */
  lemma WellFormedCons(t: Token, ts: seq<Token>)
    requires WellFormed(ts)
    requires t.Esc? ==> IsEscape(t.value)
    requires t.Txt? ==> t.value != [] && EscapeFree(t.value) && (ts == [] || !ts[0].Txt?)
    ensures WellFormed([t] + ts)
  {
    var r := [t] + ts;
    forall x | x in r ensures x == t || x in ts { }
    forall i | 0 <= i < |r| - 1
      ensures !(r[i].Txt? && r[i + 1].Txt?)
    {
      assert r[i + 1] == ts[i];
      if i > 0 {
        assert r[i] == ts[i - 1];
      }
    }
  }

  /** A character that does not open an escape, put in front of a well-formed tokenization of the rest. */
  lemma WellFormedPrependChar(s: Text, rest: seq<Token>)
    requires s != [] && !EscapeAt(s, 0)
    requires WellFormed(rest) && Concat(rest) == s[1..]
    ensures WellFormed(Prepend([s[0]], rest))
  {
    if rest != [] && rest[0].Txt? {
      var w := rest[0].value;
      assert s == [s[0]] + w + Concat(rest[1..]);
      assert rest[0] in rest;
      NoEscapeInRun(s, w);
      WellFormedTail(rest);
      assert rest[1..] == [] || !rest[1..][0].Txt? by {
        if |rest| > 1 {
          assert rest[1..][0] == rest[1];
        }
      }
      WellFormedCons(Txt([s[0]] + w), rest[1..]);
    } else {
      assert !EscapeAt([s[0]], 0);
      WellFormedCons(Txt([s[0]]), rest);
    }
  }

  /** The tokenization is well formed. */
  lemma {:induction false} TokensWellFormed(s: Text)
    ensures WellFormed(Tokens(s))
    decreases |s|
  {
    if s == [] {
    } else if EscapeAt(s, 0) {
      TokensWellFormed(s[6..]);
      WellFormedCons(Esc(s[..6]), Tokens(s[6..]));
    } else {
      TokensWellFormed(s[1..]);
      TokensLossless(s[1..]);
      WellFormedPrependChar(s, Tokens(s[1..]));
    }
  }


  /** Without any match, the whole input is one text token (none when it is empty). */
  lemma {:induction false} TokensWithoutEscape(s: Text)
    requires EscapeFree(s)
    ensures Tokens(s) == if s == [] then [] else [Txt(s)]
    decreases |s|
  {
    if s != [] {
      assert !EscapeAt(s, 0);
      assert Tokens(s) == Prepend([s[0]], Tokens(s[1..]));
      forall j: nat | j < |s[1..]|
        ensures !EscapeAt(s[1..], j)
      {
        EscapeAtShift(s, 1, j);
      }
      TokensWithoutEscape(s[1..]);
      if |s| == 1 {
        assert s[1..] == [];
        assert [s[0]] == s;
      } else {
        assert [s[0]] + s[1..] == s;
      }
    }
  }

  /** A leading escape is a token of its own, whatever follows it. */
  lemma TokensEscapeFirst(e: Text, rest: Text)
    requires IsEscape(e)
    ensures Tokens(e + rest) == [Esc(e)] + Tokens(rest)
  {
    var s := e + rest;
    assert s[..6] == e && s[6..] == rest;
  }

  /** A leading character that is not a backslash starts a text run. */
  lemma TokensPlainFirst(c: CodePoint, rest: Text)
    requires c != Backslash
    ensures Tokens([c] + rest) == Prepend([c], Tokens(rest))
  {
    var s := [c] + rest;
    assert s[1..] == rest;
  }

  /** When no match starts before `k`, the characters before `k` lead the first text run. */
  lemma {:induction false} TokensSkipText(u: Text, k: nat)
    requires k <= |u|
    requires forall j :: 0 <= j < k ==> !EscapeAt(u, j)
    ensures Tokens(u) == Prepend(u[..k], Tokens(u[k..]))
    decreases k
  {
    if k == 0 {
      assert u[k..] == u;
    } else {
      assert !EscapeAt(u, 0);
      assert Tokens(u) == Prepend([u[0]], Tokens(u[1..]));
      if k == 1 {
        assert u[..1] == [u[0]];
      } else {
        forall j | 0 <= j < k - 1
          ensures !EscapeAt(u[1..], j)
        {
          EscapeAtShift(u, 1, j);
        }
        TokensSkipText(u[1..], k - 1);
        assert u[1..][k - 1..] == u[k..];
        PrependPrepend([u[0]], u[1..][..k - 1], Tokens(u[k..]));
        assert [u[0]] + u[1..][..k - 1] == u[..k];
      }
    }
  }

  /** The text between the scan position and the next match, then the match, lead the tokens. */
  lemma TokensAtMatch(s: Text, p: nat, start: nat)
    requires p <= start && EscapeAt(s, start)
    requires forall j :: p <= j < start ==> !EscapeAt(s, j)
    ensures Tokens(s[p..]) ==
      (if start > p then [Txt(s[p..start])] else []) + [Esc(s[start..start + 6])] + Tokens(s[start + 6..])
  {
    var u := s[p..];
    var k := start - p;
    forall j | 0 <= j < k
      ensures !EscapeAt(u, j)
    {
      EscapeAtShift(s, p, j);
    }
    TokensSkipText(u, k);
    assert u[k..] == s[start..];
    assert u[..k] == s[p..start];
    assert s[start..] == s[start..start + 6] + s[start + 6..];
    TokensEscapeFirst(s[start..start + 6], s[start + 6..]);
  }

  /** After the last match, the rest of the input is one text token, if any is left. */
  lemma TokensAfterLastMatch(s: Text, p: nat)
    requires p <= |s|
    requires forall j :: p <= j < |s| ==> !EscapeAt(s, j)
    ensures Tokens(s[p..]) == if p < |s| then [Txt(s[p..])] else []
  {
    var u := s[p..];
    forall j | 0 <= j < |u|
      ensures !EscapeAt(u, j)
    {
      EscapeAtShift(s, p, j);
    }
    TokensSkipText(u, |u|);
    assert u[..|u|] == u && u[|u|..] == [];
  }

  lemma WellFormedTail(ts: seq<Token>)
    requires WellFormed(ts) && ts != []
    ensures WellFormed(ts[1..])
  {
    var tail := ts[1..];
    forall x | x in tail ensures x in ts { }
    forall i | 0 <= i < |tail| - 1
      ensures !(tail[i].Txt? && tail[i + 1].Txt?)
    {
      assert tail[i] == ts[i + 1] && tail[i + 1] == ts[i + 2];
    }
  }

  /**
   * A text token that leads a well-formed tokenization is not the start of a match:
   * a match would lie inside it, or run into the backslash of the escape after it.
   */
  lemma LeadingTextNotEscape(s: Text, ts: seq<Token>)
    requires WellFormed(ts) && Concat(ts) == s && ts != [] && ts[0].Txt?
    ensures !EscapeAt(s, 0)
  {
    var v := ts[0].value;
    assert ts[0] in ts;
    if |v| >= 6 {
      assert v[0..6] == s[..6];
      assert !EscapeAt(v, 0);
    } else if |ts| == 1 {
      assert Concat(ts[1..]) == [];
    } else {
      var w := ts[1].value;
      assert ts[1] in ts && ts[1].Esc?;
      assert Concat(ts[1..]) == w + Concat(ts[2..]);
      assert s == v + (w + Concat(ts[2..]));
      if 6 <= |s| {
        assert s[..6][1..][|v| - 1] == w[0] == Backslash;
      }
    }
  }

  /** Dropping the first character of a leading text run keeps a tokenization well formed. */
  lemma WellFormedDropChar(ts: seq<Token>)
    requires WellFormed(ts) && ts != [] && ts[0].Txt? && |ts[0].value| > 1
    ensures WellFormed([Txt(ts[0].value[1..])] + ts[1..])
    ensures Concat([Txt(ts[0].value[1..])] + ts[1..]) == ts[0].value[1..] + Concat(ts[1..])
  {
    var v, tail := ts[0].value, ts[1..];
    var ts' := [Txt(v[1..])] + tail;
    assert ts'[0] == Txt(v[1..]) && ts'[1..] == tail;
    assert ts[0] in ts;
    assert EscapeFree(v[1..]) by {
      forall j: nat | j < |v[1..]|
        ensures !EscapeAt(v[1..], j)
      {
        EscapeAtShift(v, 1, j);
      }
    }
    forall x | x in ts' ensures x == Txt(v[1..]) || x in ts {
      if x != Txt(v[1..]) {
        assert x in tail;
      }
    }
    forall i | 0 <= i < |ts'| - 1
      ensures !(ts'[i].Txt? && ts'[i + 1].Txt?)
    {
      assert ts'[i + 1] == ts[i + 1];
      if i > 0 {
        assert ts'[i] == ts[i];
      }
    }
  }

  /**
   * Any well-formed token list that concatenates to `s` is `Tokens(s)`: the
   * tokenization is the only one with this shape.
   */
  lemma {:induction false} TokensUnique(s: Text, ts: seq<Token>)
    requires WellFormed(ts) && Concat(ts) == s
    ensures ts == Tokens(s)
    decreases |s|, 1
  {
    if ts == [] {
    } else if ts[0].Esc? {
      var tail := ts[1..];
      assert ts[0] in ts;
      WellFormedTail(ts);
      TokensEscapeFirst(ts[0].value, Concat(tail));
      TokensUnique(Concat(tail), tail);
    } else {
      TokensUniqueText(s, ts);
    }
  }

  /** `TokensUnique` when the list starts with a text token. */
  lemma {:induction false} TokensUniqueText(s: Text, ts: seq<Token>)
    requires WellFormed(ts) && Concat(ts) == s && ts != [] && ts[0].Txt?
    ensures ts == Tokens(s)
    decreases |s|, 0
  {
    var v, tail := ts[0].value, ts[1..];
    assert ts[0] in ts;
    LeadingTextNotEscape(s, ts);
    assert s[0] == v[0] && s[1..] == v[1..] + Concat(tail) by {
      assert s == v + Concat(tail);
    }
    if |v| == 1 {
      WellFormedTail(ts);
      assert v[1..] == [];
      TokensUnique(s[1..], tail);
      assert tail == [] || tail[0].Esc? by {
        if tail != [] {
          assert tail[0] == ts[1];
        }
      }
    } else {
      WellFormedDropChar(ts);
      TokensUnique(s[1..], [Txt(v[1..])] + tail);
    }
    TextRunFirst(s, v, tail);
  }

  /**
   * A leading text run `v` before `tail` is the tokenization of `s` when the
   * tokenization of `s[1..]` is what is left once the run loses its first character.
   */
  lemma TextRunFirst(s: Text, v: Text, tail: seq<Token>)
    requires s != [] && !EscapeAt(s, 0) && v != [] && v[0] == s[0]
    requires |v| == 1 ==> tail == Tokens(s[1..]) && (tail == [] || tail[0].Esc?)
    requires |v| > 1 ==> [Txt(v[1..])] + tail == Tokens(s[1..])
    ensures [Txt(v)] + tail == Tokens(s)
  {
    TokensNonEscapeFirst(s);
    if |v| == 1 {
      PrependBeforeEscape([s[0]], tail);
      assert v == [s[0]];
    } else {
      PrependBeforeText([s[0]], v[1..], tail);
      assert [s[0]] + v[1..] == v;
    }
  }

  lemma TokensNonEscapeFirst(s: Text)
    requires s != [] && !EscapeAt(s, 0)
    ensures Tokens(s) == Prepend([s[0]], Tokens(s[1..]))
  {
  }

  lemma PrependBeforeEscape(run: Text, ts: seq<Token>)
    requires run != [] && (ts == [] || ts[0].Esc?)
    ensures Prepend(run, ts) == [Txt(run)] + ts
  {
  }

  lemma PrependBeforeText(run: Text, w: Text, ts: seq<Token>)
    requires run != []
    ensures Prepend(run, [Txt(w)] + ts) == [Txt(run + w)] + ts
  {
    assert ([Txt(w)] + ts)[1..] == ts;
  }

  /** `start` is where `finditer`, resuming at `from`, finds its next match (`|s|` when none is left). */
  predicate NextMatch(s: Text, from: nat, start: nat) {
    from <= start <= |s|
    && (start < |s| ==> EscapeAt(s, start))
    && forall j :: from <= j < start ==> !EscapeAt(s, j)
  }

  /** `finditer`'s search for the leftmost match at or after `from`. */
  method FindEscape(s: Text, from: nat) returns (start: nat)
    requires from <= |s|
    ensures NextMatch(s, from, start)
  {
    start := from;
    while start < |s| && !EscapeAt(s, start)
      invariant from <= start <= |s|
      invariant forall j :: from <= j < start ==> !EscapeAt(s, j)
    {
      start := start + 1;
    }
  }

  /** `tokens` followed by the tokenization of the input from `p` on is the tokenization of the whole input. */
  predicate TokenizedUpTo(s: Text, p: nat, tokens: seq<Token>)
    requires p <= |s|
  {
    tokens + Tokens(s[p..]) == Tokens(s)
  }

  /** One step of `_tokenize`: emitting the run before a match and the match keeps the tokens on track. */
  lemma TokenizeStep(s: Text, p: nat, start: nat, before: seq<Token>, mid: seq<Token>)
    requires NextMatch(s, p, start) && start < |s|
    requires TokenizedUpTo(s, p, before)
    requires mid == if start > p then before + [Txt(s[p..start])] else before
    ensures TokenizedUpTo(s, start + 6, mid + [Esc(s[start..start + 6])])
  {
    TokensAtMatch(s, p, start);
    var run := if start > p then [Txt(s[p..start])] else [];
    assert mid == before + run;
    var e := [Esc(s[start..start + 6])];
    AppendAssoc(before, run + e, Tokens(s[start + 6..]));
    AppendAssoc(before, run, e);
  }

  /** After the last match, emitting the remaining text completes the tokens. */
  lemma TokenizeFinish(s: Text, p: nat, before: seq<Token>)
    requires NextMatch(s, p, |s|)
    requires TokenizedUpTo(s, p, before)
    ensures before + (if p < |s| then [Txt(s[p..])] else []) == Tokens(s)
  {
    TokensAfterLastMatch(s, p);
  }

  /** `_tokenize`: walks the matches, emitting the text before each one and the match itself. */
  method Tokenize(s: Text) returns (tokens: seq<Token>)
    ensures tokens == Tokens(s)
  {
    tokens := [];
    var scanPosition := 0;
    assert s[0..] == s;
    var start := FindEscape(s, scanPosition);
    while start < |s|
      invariant NextMatch(s, scanPosition, start)
      invariant TokenizedUpTo(s, scanPosition, tokens)
      decreases |s| - scanPosition
    {
      ghost var before := tokens;
      if start > scanPosition {
        tokens := tokens + [Txt(s[scanPosition..start])];
      }
      TokenizeStep(s, scanPosition, start, before, tokens);
      tokens := tokens + [Esc(s[start..start + 6])];
      scanPosition := start + 6;
      start := FindEscape(s, scanPosition);
    }
    TokenizeFinish(s, scanPosition, tokens);
    if scanPosition < |s| {
      tokens := tokens + [Txt(s[scanPosition..])];
    }
  }
}
