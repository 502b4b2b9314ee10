# optimizeImage, modelled in Dafny

`optimizeImage` (src/image-optimizer.js) turns an image reference into the
URL the page loads, in three steps:

- A missing, falsy or non-string reference becomes the fixed `PLACEHOLDER`
  artwork URL.
- A String that mentions the proxy host `images.weserv.nl` or the local path
  `/lesson-images` anywhere is returned unchanged.
- Any other String is passed through `encodeURIComponent` and placed into
  `https://images.weserv.nl/?url=<encoded>&w=480&q=80`. When the encoder
  throws, the result is the placeholder again.

The model keeps JavaScript's notion of a String: a sequence of UTF-16 code
units, which may hold unpaired surrogates. That is the one input on which
`encodeURIComponent` throws a URIError. The encoder is modelled in full:

- the Encode operation of ECMA-262 (section 19.2.6 for the URI functions,
  section 11.1.4 for CodePointAt);
- UTF-8 as in section 3 of RFC 3629;
- `%XY` triplets with uppercase hex digits, as in section 2.1 of RFC 3986.

The encoder has a partner: a decoder written the way `decodeURIComponent`
reads escapes. Every successful encoding is proved to decode back to the
original String.

Files (one module each):

- `options.dfy`: `Option` and `Prepend`.
- `utf16.dfy`: code units, surrogates, CodePointAt, and `FromString` (the
  UTF-16 text of a Dafny string literal, used for the constants).
- `utf8.dfy`: UTF-8 encoding and decoding of one scalar value.
- `percent.dfy`: hex digits and `%XY` triplets.
- `uri.dfy`: `encodeURIComponent`, both as a function and as the Encode loop,
  plus the decoder.
- `literals.dfy`: facts about short string literals and how they carry over
  to the Strings the literals denote.
- `image_optimizer.dfy`: `optimizeImage` and its properties.
- `sample_calls.dfy`: sample calls of `optimizeImage`, one for each branch, worked through the model.

## Model

| member | source | states |
|---|---|---|
| ImageOptimizer.OptimizeImage | src/image-optimizer.js:4-20 | The result is never empty. It is either the placeholder or a String that names one of the two markers, so a further call passes it through. |
| ImageOptimizerExamples.MissingReferences | src/image-optimizer.js:5-7 | A non-string argument and the empty String both give exactly the placeholder. |
| ImageOptimizer.Includes | src/image-optimizer.js:10 | `String.prototype.includes` as a left-to-right search over start positions. It answers true exactly when `Contains` holds, that is, when the marker occurs at some position, the empty marker included. |
| ImageOptimizer.MentionsMarker | src/image-optimizer.js:10 | The passthrough test, two `includes` searches joined by `||`. It is true exactly when `IsPassthrough` holds. |
| ImageOptimizer.PassthroughIsUnanchored | src/image-optimizer.js:10-11 | Any String holding `images.weserv.nl` or `/lesson-images` at any position, with any text before and after it, is returned unchanged. |
| ImageOptimizer.RewriteTemplate | src/image-optimizer.js:14-16 | For a non-empty String that names neither marker and holds no lone surrogate, encoding succeeds and the result is exactly the proxy prefix, then the encoded String, then `&w=480&q=80`. |
| ImageOptimizer.PlaceholderExactlyOnLoneSurrogate | src/image-optimizer.js:14-18 | For a non-empty String that names neither marker, the result is the placeholder if and only if the String holds an unpaired surrogate, the input on which `encodeURIComponent` throws. |
| ImageOptimizer.ProxyUrlNamesProxyHost | src/image-optimizer.js:9-16 | Every proxy URL contains `images.weserv.nl`, as the comment on the passthrough test relies on. |
| ImageOptimizer.Idempotent | src/image-optimizer.js:9-16 | Applying the function to its own result changes nothing, for every non-empty String on which the first call did not fall back to the placeholder. |
| ImageOptimizer.PlaceholderIsRewritten | src/image-optimizer.js:1-16 | The placeholder names neither marker, so it is not a fixed point: a second call wraps it in a proxy URL. |
| ImageOptimizer.PlaceholderIsNotPassthrough | src/image-optimizer.js:1-11 | The placeholder contains neither `images.weserv.nl` nor `/lesson-images`. |
| ImageOptimizer.NotPassthroughWithout | src/image-optimizer.js:10 | A String with no `v`, and no `/` directly followed by `l`, contains neither marker. |
| ImageOptimizer.ProxyUrlReference | src/image-optimizer.js:16 | The proxy reads the `url` parameter of a proxy URL, up to the next `&`, as exactly the encoded text, provided that text has no `&`. |
| ImageOptimizer.ProxyUrlCarriesReference | src/image-optimizer.js:15-16 | For a rewritten String, the `url` parameter the proxy reads back decodes to the original String. |
| ImageOptimizer.PrefixNamesHost | src/image-optimizer.js:16 | The template prefix has 30 code units, and `images.weserv.nl` sits at positions 8 to 23. |
| ImageOptimizer.SuffixStartsWithAmpersand | src/image-optimizer.js:16 | The template suffix has 11 code units and starts with the `&` that ends the `url` parameter. |
| ImageOptimizer.TakeUntil | src/image-optimizer.js:16 | Reader helper. This does not model source code: it is how the proxy cuts the `url` parameter out of the URL built at line 16. The result is the longest prefix holding no `&`: it is a prefix, it holds no `&`, and when it is shorter than the input, an `&` follows it. |
| ImageOptimizer.TakeUntilStops | src/image-optimizer.js:16 | Reader helper, on the proxy's side of the URL built at line 16: scanning `a + b` stops exactly at the end of `a` when `a` has no `&` and `b` starts with one. |
| UriComponent.EncodeLoop | src/image-optimizer.js:15 | The Encode loop of ECMA-262, run over the code units, computes the recursive definition `Encode`. |
| UriComponent.EncodeUriComponent | src/image-optimizer.js:15 | encodeURIComponent fails exactly on Strings holding an unpaired surrogate. On success its output is a well-formed component that decodes back to the input. |
| UriComponent.UnescapedIsListed | src/image-optimizer.js:15 | The character ranges of `IsUnescaped` admit exactly the characters ECMA-262 lists as uriAlpha, DecimalDigit and uriMark, and nothing outside ASCII. |
| UriComponent.Encode | src/image-optimizer.js:15 | A successful encoding consists only of unescaped code units and uppercase `%XY` triplets, and is at least as long as the input. |
| UriComponent.EncodeFailsIffLoneSurrogate | src/image-optimizer.js:14-18 | Encoding fails if and only if the String holds an unpaired surrogate. |
| UriComponent.DecodeEncode | src/image-optimizer.js:15 | Decoding a successful encoding gives back the original String. |
| UriComponent.EncodedHasNoDelimiters | src/image-optimizer.js:15-16 | An encoded component contains no `&`, `=`, `?`, `#`, `/` or `+`, so it stays a single query-parameter value. |
| UriComponent.EncodeUnescapedIsIdentity | src/image-optimizer.js:15 | A String made only of unescaped code units encodes to itself. |
| UriComponent.EncodeAppend | src/image-optimizer.js:15 | Encoding a concatenation is the concatenation of the two encodings, when the first part does not end in a leading surrogate. It fails if either part fails. |
| UriComponent.EncodeAt | src/image-optimizer.js:15 | Proof helper for `EncodeLoop`: one step of the loop at index `k` agrees with the recursive definition on the suffix starting at `k`. |
| UriComponent.AppendEscapes | src/image-optimizer.js:15 | Appends the triplets of the octets, in order, to the output built so far. |
| UriComponent.DecodeEscapeOfEncoded | src/image-optimizer.js:15 | The triplets written for one code point decode to that code point's UTF-16 code units and use up exactly those triplets. |
| UriComponent.DecodeEscapedStep | src/image-optimizer.js:15 | Decoding moves past the triplets of one code point and emits its code units. |
| UriComponent.DecodeUnescapedStep | src/image-optimizer.js:15 | Proof helper for `DecodeEncode`: decoding copies a code unit other than `%`. |
| UriComponent.EscapedIsEncoded | src/image-optimizer.js:15 | Triplets placed in front of a well-formed encoded component keep it well-formed. |
| UriComponent.LoneSurrogateAfter | src/image-optimizer.js:15 | When the first `n` code units hold no unpaired surrogate and do not end in a leading surrogate, the whole String holds one exactly when the rest after them does. |
| Utf16.CodePointAt | src/image-optimizer.js:15 | Reads one or two code units. The read is flagged unpaired exactly at a trailing surrogate, or at a leading surrogate that is not followed by a trailing one. Otherwise the code units read are the UTF-16 encoding of the scalar value returned. |
| Utf16.EncodeCodePoint | src/image-optimizer.js:15 | A scalar value below U+10000 is one non-surrogate code unit equal to it. Any other is a leading surrogate followed by a trailing one. |
| Utf16.SurrogatePairToCodePoint | src/image-optimizer.js:15 | A leading and a trailing surrogate combine into a supplementary-plane value whose encoding is that same pair. |
| Utf16.EncodeCodePointInjective | src/image-optimizer.js:15 | Distinct scalar values have distinct UTF-16 encodings. |
| Utf16.CodePointAtEncoded | src/image-optimizer.js:15 | CodePointAt at the front of an encoded scalar value returns that value and its length. |
| Utf16.FromStringWellFormed | src/image-optimizer.js:1 | The String a source literal denotes holds no unpaired surrogate. |
| Utf16.FromStringBmp | src/image-optimizer.js:1 | A literal of Basic Multilingual Plane characters denotes one code unit per character, each equal to it. |
| Utf8.Encode | src/image-optimizer.js:15 | A scalar value takes one to four octets: one exactly for ASCII. The first octet announces the length, and every later octet is a continuation octet. |
| Utf8.Decode | src/image-optimizer.js:15 | Any value the decoder accepts is a scalar value whose encoding is exactly the octets given. |
| Utf8.DecodeEncode | src/image-optimizer.js:15 | Decoding the encoding of any scalar value gives it back. |
| Utf8.LeadingOnes | src/image-optimizer.js:15 | Zero leading ones exactly for ASCII octets, and one exactly for continuation octets. |
| Percent.EscapeOctet | src/image-optimizer.js:15 | An octet becomes `%` and two uppercase hex digits, which parse back to that octet. |
| Percent.EscapeOctets | src/image-optimizer.js:15 | Three code units for each octet. |
| Percent.EscapeOctetsAppend | src/image-optimizer.js:15 | The triplets of `bs + [b]` are the triplets of `bs` followed by the triplet of `b`. |
| Percent.ParseEscapeOctets | src/image-optimizer.js:15 | Parsing the triplets of a sequence of octets gives back those octets, whatever follows them. |
| Percent.HexDigit | src/image-optimizer.js:15 | A digit value becomes an uppercase hex digit that reads back as the same value. |
| ImageOptimizerExamples.LocalImagePassesThrough | src/image-optimizer.js:10-11 | `/lesson-images/foo.png` is returned unchanged. |
| ImageOptimizerExamples.ProxiedImagePassesThrough | src/image-optimizer.js:10-11 | `https://images.weserv.nl/?url=x` is returned unchanged. |
| ImageOptimizerExamples.RemoteUrlEncoded | src/image-optimizer.js:15 | `https://example.com/a.jpg` encodes to `https%3A%2F%2Fexample.com%2Fa.jpg`. |
| ImageOptimizerExamples.RemoteUrlIsRewritten | src/image-optimizer.js:14-16 | `https://example.com/a.jpg` becomes `https://images.weserv.nl/?url=https%3A%2F%2Fexample.com%2Fa.jpg&w=480&q=80`. |
| ImageOptimizerExamples.ColonIsEscaped | src/image-optimizer.js:15 | `:` encodes to `%3A`. |
| ImageOptimizerExamples.SlashIsEscaped | src/image-optimizer.js:15 | `/` encodes to `%2F`. |
| ImageOptimizerExamples.AsciiEscape | src/image-optimizer.js:15 | An ASCII code unit outside the unescaped set encodes to a single triplet. |

## Left out

- The fetch and the resizing done by images.weserv.nl are external service behaviour, not part of this code. `ProxiedReference` states only how the proxy reads the `url` parameter back, so that the round trip can be stated.
- JavaScript truthiness is collapsed into two cases. `undefined`, `null`, `0`, `false`, `NaN`, objects and every other non-string value are `NonString`; the empty String is the only falsy String. All of these give the placeholder.
- Exceptions are modelled as `None`, and only the URIError `encodeURIComponent` raises at an unpaired surrogate is modelled. String length is unbounded in the model. An engine throws a RangeError when the encoded String or the template would exceed its maximum String length (at most 2^53 − 1 code units by section 6.1.4 of ECMA-262, far fewer in practice). The `catch` then returns the placeholder, and that path is not modelled.
- ImageOptimizer.PlaceholderExactlyOnLoneSurrogate: the "only if" half holds only for Strings short enough that the proxy URL stays within the engine's maximum String length. Past that limit the program returns the placeholder, but the model returns the proxy URL.
- ImageOptimizer.RewriteTemplate: like the lemma above, it assumes unbounded String length. A String whose proxy URL exceeds the engine's maximum String length gets the placeholder in the program, not the template.
- No URL parsing or host checking. The source only tests for substrings, and so does the model (`Contains`).
- The decoder in `uri.dfy` does not appear in the source. It is there as the inverse the encoder is checked against.
- The constants are written as Dafny string literals and converted by `FromString`, which gives the UTF-16 code units that the JavaScript literal denotes.
- ImageOptimizer.Idempotent: requires that the first call did not fall back to the placeholder, because the placeholder is not a fixed point (`PlaceholderIsRewritten`).
