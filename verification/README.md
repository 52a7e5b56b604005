# Unicode Shortcut converter — a verified Dafny model

Unicode Shortcut is a Burp Suite extension written in Jython. Its core is a converter between ordinary text and `\uXXXX` escapes, in two directions:

- **Smart encode** (`smart_encode`) turns text into escapes and copies escapes that are already present through verbatim. It looks at the whole input first to choose a policy:
  - if every text character is an ASCII letter or digit, every character is escaped (the total policy);
  - otherwise only the characters that are not ASCII letters or digits are escaped (the selective policy).
  - A supplementary-plane character is written as the escapes of its UTF-16 surrogate pair, high half first (section 2.1 of RFC 2781).
- **Decode all** (`decode_all`) turns escapes back into characters, with one token of lookahead:
  - it recombines a high-surrogate escape followed by a low-surrogate escape into one code point (section 2.2 of RFC 2781);
  - it leaves lone surrogates and the noncharacters U+FFFE and U+FFFF as their literal escape text;
  - it decodes every other escape.

Both directions first split the input with the tokenizer (`_tokenize`). The tokenizer cuts a string into text runs and six-character escape tokens matching `\\[uU][0-9A-Fa-f]{4}`, taken leftmost and non-overlapping.

Strings are modelled as sequences of code points (`Escapes.Text`, integers in `0..0x10FFFF`, lone surrogates included). Jython strings can hold lone surrogates, and the decoder's pass-through cases depend on them.

The modules follow the structure of the source:

| module | file | models |
|---|---|---|
| `Escapes` | `escapes.dfy` | the escape pattern, `int(·, 16)` on four digits, `"%04X"`, the surrogate transform, `_is_ascii_alnum`, `_encode_cp` |
| `Tokenizer` | `tokenizer.dfy` | `_tokenize`: the specification `Tokens` and the imperative `Tokenize`, with `FindEscape` standing for `finditer` |
| `Encoder` | `encoder.dfy` | `smart_encode`: the specification `SmartEncoding` and the two-pass method `SmartEncode` |
| `Decoder` | `decoder.dfy` | `decode_all`: the specification `DecodeTokens`/`Decoding` and the lookahead loop `DecodeAll` |
| `RoundTrip` | `roundtrip.dfy` | decoding what the encoder writes |
| `Scenarios` | `scenarios.dfy` | concrete inputs and outputs |

Each of the three loops of the source (`_tokenize`, `smart_encode`, `decode_all`) is a Dafny `method` with the same loop structure:

- the `finditer` loop;
- the flag loop with its two `break`s, followed by the output loop;
- the `while` loop that advances by one token or two, with `continue`.

Each method is proved to return exactly its pure specification function. The properties are proved about those functions.

## Model

The specification functions `Tokens`, `DecodeTokens` and `Decoding` have no contract of their own; their rows describe the definitions, and the lemmas after each row state what they guarantee.

| member | source | states |
|---|---|---|
| Escapes.IsAsciiAlnum | UnicodeShortcut.py:114-115 | an ASCII letter or digit is an ASCII character and never the backslash that opens an escape |
| Escapes.IsEscape | UnicodeShortcut.py:43 | the pattern `\\[uU][0-9A-Fa-f]{4}` matched by a whole six-character string; its contract: a match holds no backslash after its first character, so no match can begin inside another |
| Escapes.HexValue4 | UnicodeShortcut.py:163 | `int(d, 16)` of four hexadecimal digits, either case, is a 16-bit code unit |
| Escapes.Hex4 | UnicodeShortcut.py:119 | `%04X` gives exactly four upper-case hexadecimal digits whose value is the argument |
| Escapes.FormatEscape | UnicodeShortcut.py:119 | `"\\u%04X" % u` is an escape matching the pattern, with lower-case `u`, upper-case digits and value `u` |
| Escapes.CanonicalEscapeUnique | UnicodeShortcut.py:119 | formatting inverts parsing: every escape with lower-case `u` and upper-case digits is `FormatEscape` of its own value |
| Escapes.EscapeValue | UnicodeShortcut.py:163 | the code unit an escape token denotes, `int(token_value[2:], 16)`, is at most 0xFFFF |
| Escapes.HighSurrogateOf | UnicodeShortcut.py:120-121 | `0xD800 + (offset >> 10)` is a high surrogate |
| Escapes.LowSurrogateOf | UnicodeShortcut.py:122 | `0xDC00 + (offset & 0x3FF)` is a low surrogate |
| Escapes.Combine | UnicodeShortcut.py:169 | the recombination formula yields a code point in 0x10000..0x10FFFF |
| Escapes.CombineSplit | UnicodeShortcut.py:120-122 | splitting a supplementary code point into its high and low surrogates and recombining them with the formula of line 169 gives the code point back |
| Escapes.SplitCombine | UnicodeShortcut.py:169 | recombining a high and a low surrogate and splitting the result as lines 120-122 do gives back the same pair |
| Escapes.EncodeCodePoint | UnicodeShortcut.py:117-123 | ASCII output; for `cp <= 0xFFFF`, one canonical escape of value `cp`; above, two canonical escapes, a high then a low surrogate, that recombine to `cp` |
| Tokenizer.Tokens | UnicodeShortcut.py:101-112 | the token list `_tokenize` returns, read from the front: a match at position 0 is an escape token and scanning resumes after it, any other first character joins the text run that follows; its properties are the `Tokens…` lemmas below |
| Tokenizer.TokensLossless | UnicodeShortcut.py:101-112 | concatenating the token values gives back the input |
| Tokenizer.TokensWellFormed | UnicodeShortcut.py:101-112 | every escape token is six characters matching the pattern; no text token is empty or contains a match; no two text tokens are adjacent |
| Tokenizer.TokensWithoutEscape | UnicodeShortcut.py:110-111 | an input with no match is one text token, or no token when it is empty |
| Tokenizer.TokensUnique | UnicodeShortcut.py:101-112 | any well-formed token list whose values concatenate to `s` is the tokenization of `s`: losslessness and well-formedness characterise it |
| Tokenizer.TokensEscapeFirst | UnicodeShortcut.py:104-108 | a match at the start of the input becomes the first token, and scanning resumes after it |
| Tokenizer.TokensPlainFirst | UnicodeShortcut.py:104-107 | a first character that is not a backslash joins the leading text run |
| Tokenizer.FindEscape | UnicodeShortcut.py:104-105 | `finditer`'s next match: the leftmost position at or after the scan position where the pattern matches, or the end when none does |
| Tokenizer.Tokenize | UnicodeShortcut.py:101-112 | the `finditer` loop returns exactly the tokenization `Tokens(s)` |
| Encoder.EncodesEverything | UnicodeShortcut.py:128-138 | the flag pass: `encode_all_alnum` holds when every character of every text token is an ASCII letter or digit; its contract: a token list without text tokens always gets the total policy |
| Encoder.EncodeChar | UnicodeShortcut.py:145-153 | one text character under the chosen policy; its contract: the output is ASCII and starts with a backslash exactly when the policy escapes the character (total policy, or not an ASCII letter or digit) |
| Encoder.EncodeRun | UnicodeShortcut.py:144-153 | the characters of a text token encoded in order; its contract: encoding never makes a run shorter |
| Encoder.EncodeTokens | UnicodeShortcut.py:141-153 | the output pass: escape tokens verbatim, text tokens encoded; its contract: the output is at least as long as the concatenated token values |
| Encoder.SmartEncoding | UnicodeShortcut.py:125-154 | what `smart_encode` returns, the output pass over the tokens under the policy of the flag pass; its contract: the output is never shorter than the input |
| Encoder.PolicyReadsOnlyText | UnicodeShortcut.py:128-138 | the total policy is chosen if and only if every character of every text token is an ASCII letter or digit; escape tokens are never inspected |
| Encoder.EscapeCopiedInPlace | UnicodeShortcut.py:141-143 | an escape token is copied verbatim, in place, between the encodings of what precedes and follows it |
| Encoder.EscapesOnlyUnchanged | UnicodeShortcut.py:141-143 | an input made only of escapes, or empty, is returned unchanged |
| Encoder.SmartEncodingAscii | UnicodeShortcut.py:140-154 | every character of the output is ASCII |
| Encoder.EncodeTokensText | UnicodeShortcut.py:141-153 | re-tokenizing the output leaves as text exactly the ASCII letters and digits kept by the selective policy, in order, and nothing under the total policy |
| Encoder.SmartEncodingPolicy | UnicodeShortcut.py:128-153 | under the total policy the output is escapes only; under the selective policy its text is exactly the input's ASCII letters and digits, in their original order |
| Encoder.SmartEncode | UnicodeShortcut.py:125-154 | the two-pass method (flag loop with `break`, then output loop) returns exactly `SmartEncoding(s)` |
| Decoder.PairAt | UnicodeShortcut.py:165-168 | the lookahead test: the next two tokens are escapes, a high then a low surrogate; its contract: the low half never opens a pair itself, so pairs cannot overlap |
| Decoder.DecodeTokens | UnicodeShortcut.py:160-188 | the decoding of a token list, left to right: a pair becomes its combined code point, a surrogate or noncharacter escape its own text, any other escape its character, a text token itself; its properties are the lemmas below |
| Decoder.Decoding | UnicodeShortcut.py:156-189 | what `decode_all` returns: `DecodeTokens` of the tokenization of the input |
| Decoder.TextCopiedInPlace | UnicodeShortcut.py:186-188 | a text token is copied unchanged, in place, between the decodings of what precedes and follows it |
| Decoder.PairRecombined | UnicodeShortcut.py:165-175 | a high-surrogate escape followed by a low-surrogate escape becomes the one supplementary code point they encode, and both tokens are consumed |
| Decoder.ReservedLeftLiteral | UnicodeShortcut.py:177-180 | an escape that does not start a pair and denotes a surrogate, U+FFFE or U+FFFF is emitted as its own literal text, case preserved |
| Decoder.PlainEscapeDecoded | UnicodeShortcut.py:181-185 | any other escape becomes the character it denotes |
| Decoder.LowThenHighStaysLiteral | UnicodeShortcut.py:165-180 | a low-surrogate escape followed by a high-surrogate escape is never recombined: the low one is emitted as its own text and decoding resumes at the high one, whatever follows it |
| Decoder.DecodedCharactersValid | UnicodeShortcut.py:165-185 | every output character that does not occur in the text tokens of the input is neither a surrogate nor a noncharacter: the decoder never manufactures one |
| Decoder.EscapesDecodeToValid | UnicodeShortcut.py:165-185 | an input made of escapes only decodes to characters none of which is a surrogate or a noncharacter |
| Decoder.DecodingWithoutEscape | UnicodeShortcut.py:186-188 | input without any match decodes to itself |
| Decoder.DecodeAll | UnicodeShortcut.py:156-189 | the lookahead loop, advancing by one token or two, returns exactly `Decoding(s)` |
| RoundTrip.DecodePrepend | UnicodeShortcut.py:186-188 | a text run merged into the front of a token list decodes to itself followed by the rest |
| RoundTrip.DecodeEncodedChar | UnicodeShortcut.py:144-153 | one character that is not a surrogate or noncharacter, encoded under either policy and followed by any text, decodes back to itself |
| RoundTrip.DecodeKeptChar | UnicodeShortcut.py:150-151 | an ASCII letter or digit kept as itself joins the text in front of what follows and decodes to itself |
| RoundTrip.DecodeEscapedChar | UnicodeShortcut.py:118-119 | a Basic Multilingual Plane character that is not a surrogate or noncharacter, written as one escape, decodes back to itself in front of whatever follows |
| RoundTrip.DecodeEscapedPair | UnicodeShortcut.py:120-123 | a supplementary character, written as its two surrogate escapes, is recombined by the decoder into itself in front of whatever follows |
| RoundTrip.DecodeEncodedRun | UnicodeShortcut.py:144-153 | a run of such characters, encoded, decodes back to the run |
| RoundTrip.DecodeAfterEncode | UnicodeShortcut.py:125-189 | `decode_all(smart_encode(s)) == s` for every `s` with no match of the pattern and no surrogate or noncharacter |
| Scenarios.SelectivePolicyExample | UnicodeShortcut.py:128-154 | `abc!` encodes to `abc\u0021` |
| Scenarios.TotalPolicyExample | UnicodeShortcut.py:145-147 | `abc` encodes to `\u0061\u0062\u0063` |
| Scenarios.EscapePassthroughExample | UnicodeShortcut.py:141-143 | `\u0041` encodes to itself |
| Scenarios.SupplementaryExample | UnicodeShortcut.py:120-123 | U+1D11E encodes to `\uD834\uDD1E` |
| Scenarios.SupplementaryRoundTrip | UnicodeShortcut.py:165-175 | decoding the encoding of U+1D11E gives U+1D11E |
| Scenarios.LoneHighSurrogateExample | UnicodeShortcut.py:177-180 | `\uD800` decodes to itself |
| Scenarios.NoncharacterExample | UnicodeShortcut.py:177-180 | `\uFFFF` decodes to itself |
| Scenarios.WrongOrderExample | UnicodeShortcut.py:165-180 | `\uDC00\uD800` decodes to itself |
| Scenarios.EscapedPairInInputExample | UnicodeShortcut.py:141-175 | `\uD834\uDD1E` in the input is copied by the encoder and decoded to U+1D11E |
| Scenarios.SurrogateJoinsEscapeExample | UnicodeShortcut.py:117-175 | decoding the encoding of a lone U+D800 followed by the text `\uDC00` gives U+10000: the surrogate's escape pairs with the escape after it |
| Scenarios.EmptyExample | UnicodeShortcut.py:110-112 | the empty string encodes and decodes to the empty string |

## Left out

- `BurpExtender` registration and unload (UnicodeShortcut.py:17-36) are host plumbing made of calls into Burp's Java API.
- `dispatchKeyEvent` (UnicodeShortcut.py:45-99) is Swing key-event filtering, focus and selection handling, `replaceRange`, and thread marshalling with `invokeLater`. Its "skip if unchanged" check is caller logic around the two entry points.
- `_show_popup` (UnicodeShortcut.py:191-239) is a Swing dialog with clipboard access and UTF-8 conversion for Burp's editor.
- The `unichr`/`chr` fallback on `NameError` is a Python 2/3 compatibility shim. The model emits the code point directly.
- The `try`/`except` logging around the transformations belongs to the UI layer. The modelled functions are total.
- `"".join(parts)` is modelled as appending each part to the result as it is produced.
- The regular-expression engine is not modelled in general. `finditer` with this fixed-length pattern is modelled as a left-to-right scan for the leftmost match (`FindEscape`), which is what it does for a pattern whose matches all have length six.
- Jython strings are modelled as sequences of code points. A supplementary character is one element, as `ord` and iteration see it in the source.
- RoundTrip.DecodeAfterEncode: requires an input with no match of the escape pattern and no surrogate or noncharacter, and the round trip does not hold in general outside this domain. Escapes already in the input are copied by the encoder and then decoded: a high-surrogate escape followed by a low-surrogate escape is recombined into one character (`EscapedPairInInputExample`), an unpaired surrogate escape or a noncharacter escape stays as written, and any other escape becomes its character. A surrogate or noncharacter in the input comes back as its escape text, unless that escape pairs with a neighbouring one (`SurrogateJoinsEscapeExample`).
