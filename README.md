# A verified model of the zikuani-boilerplate OAuth client

`src/client.js` is a small OAuth-style client. Its `/` route shows a link to the
provider's `/authorize` endpoint. Its `/callback` route exchanges the returned
authorization code at the provider's `/token` endpoint and shows the claims of the
access token. This project models the part of that file that is logic rather than
HTTP plumbing. The model is written as pure Dafny functions and lemmas, one module
per concern:

- `Jwt`: `parseJwt`, the claims decoder. It picks the second dot-separated
  segment of the token (`split('.')[1]`). It maps the base64url alphabet onto the
  base64 alphabet. It decodes with `atob`, turns every byte into a `%hh` escape and
  decodes the escapes with `decodeURIComponent`. It then hands the text to
  `JSON.parse`. Any exception becomes `null`, modelled as `None`. `JSON.parse` is
  a parameter `string -> Option<J>`, where `None` is its `SyntaxError`.
- `Base64`: what `atob` does, the WHATWG "forgiving-base64 decode" (Infra
  standard). It also holds the encoders of sections 4 and 5 of RFC 4648, which
  serve as the reference.
- `Utf8`: UTF-8 as defined by RFC 3629. The decoder rejects overlong forms,
  surrogates and code points above U+10FFFF.
- `UriCodec`: percent escapes (section 2.1 of RFC 3986) and `decodeURIComponent`.
  The latter follows the Decode operation of the ECMAScript specification.
- `QueryString`: Node's `querystring.stringify` and `querystring.escape` for
  string values, plus a reference reader of the `key=value&...` string it builds.
- `JsStrings`: the JavaScript string operations the code uses, such as `split`,
  `join`, `replace` with a global one-character pattern, `slice(-2)`, `String(n)`
  and `n.toString(16)`.
- `OAuthClient`: the authorize-link parameters, the token-request form body and
  the `/callback` guard. The configuration comes in as a `Config` record, and the
  draw of `Math.floor(Math.random() * 10000)` comes in as a `StateDraw` in
  0..9999.

The headline results:

- `parseJwt` equals a reference pipeline: segment, then base64url, then UTF-8,
  then JSON (`Jwt.ParseJwtMeetsSpec`). The `%hh` and `decodeURIComponent` detour is
  exactly UTF-8 decoding (`UriCodec.DecodeEscapes`).
- A token whose payload is the unpadded base64url of the UTF-8 form of some text
  yields exactly what `JSON.parse` makes of that text, for any header without a dot
  (as every base64url header is) and any signature (`Jwt.ClaimsRoundTrip`).
- Every failing stage gives `null`.
- The authorize query and the token body read back field by field as the intended
  properties.

Points where the code departs from what an OAuth client usually does are modelled as written:

- `state` is `String(Math.floor(Math.random() * 10000))`, so it has at most 10000
  values. It is not a large random token.
- The authorize query sends `grant_type=code`, not the `response_type=code` that
  section 4.1.1 of RFC 6749 names.
- The token request never carries `scope`.
- The `/` route renders a link. It does not issue a redirect.
- The `state` that comes back to `/callback` is never checked
  (`OAuthClient.CallbackIgnoresState`).

## Model

| member | source | states |
|---|---|---|
| `JsStrings.Split` | src/client.js:17 | `split('.')` yields one more piece than there are dots |
| `JsStrings.SplitPiecesOmitSep` | src/client.js:17 | no piece of `split('.')` contains a dot |
| `JsStrings.JoinSplit` | src/client.js:17 | joining the pieces of the split with the separator gives back the token |
| `JsStrings.ReplaceAll` | src/client.js:18 | a global one-character `replace` keeps the length and changes exactly the matching positions |
| `JsStrings.SliceLast` | src/client.js:23 | `slice(-n)` is the last `n` characters (all of them when shorter, and all of them for `slice(-0)`), and what precedes it is the rest of the string |
| `JsStrings.HexString` | src/client.js:23 | `toString(16)` has one digit exactly below 16, that digit being the value itself, and for a byte of at least 16 it is its two lower-case hex digits |
| `JsStrings.DecimalString` | src/client.js:43 | `String(n)` is a non-empty string of decimal digits |
| `JsStrings.DecimalRoundTrip` | src/client.js:43 | `String(n)` reads back as `n`, has no superfluous leading zero, and has at most four digits below 10000 |
| `Base64.StdChar` | src/client.js:20 | each base64 character is read back by `atob` as its own index |
| `Base64.DecodeSextets` | src/client.js:20 | the bit buffer yields three bytes per four characters, two for a final three and one for a final two |
| `Base64.ForgivingDecode` | src/client.js:20 | a successful `atob` gives three bytes for every four characters left after removing whitespace and trailing padding |
| `Base64.DecodeEncodeSextets` | src/client.js:20 | decoding the sextets of an encoding gives back the bytes |
| `Base64.DecodeUnpadded` | src/client.js:20 | `atob` of an unpadded base64 encoding gives back the bytes (the code adds no `=`) |
| `Base64.DecodePadded` | src/client.js:20 | `atob` of a padded base64 encoding gives back the bytes |
| `Base64.UrlCharsRejected` | src/client.js:18-20 | `atob` throws on any `-` or `_`, which is why they are remapped first |
| `Base64.BadLengthRejected` | src/client.js:20 | `atob` throws when the cleaned length is one more than a multiple of four |
| `Utf8.CodePoint` | src/client.js:19 | a decoded sequence has the length its lead byte announces and only continuation bytes after it |
| `Utf8.Decode` | src/client.js:19 | a successful UTF-8 decode has no more characters than bytes |
| `Utf8.CodePointOfEncodeChar` | src/client.js:19 | the UTF-8 form of each character is one well-formed sequence that decodes to it |
| `Utf8.EncodeCharOfCodePoint` | src/client.js:19 | every well-formed sequence is the UTF-8 form of its character (no overlong forms) |
| `Utf8.DecodeEncode` | src/client.js:19 | decoding the UTF-8 form of any text gives back the text |
| `Utf8.EncodeDecode` | src/client.js:19 | whatever decodes re-encodes to the same bytes, so decoding is exactly the inverse of encoding |
| `Utf8.LoneContinuationRejected` | src/client.js:19 | bytes that start with a continuation byte do not decode |
| `Utf8.OverlongRejected` | src/client.js:19 | no overlong form decodes, whatever follows: lead `C0` or `C1`, `E0` below `E0 A0`, `F0` below `F0 90` |
| `Utf8.SurrogateRejected` | src/client.js:19 | no encoded surrogate `ED A0`..`ED BF` decodes, whatever follows |
| `Utf8.OutOfRangeRejected` | src/client.js:19 | no sequence for a value above U+10FFFF decodes, whatever follows: `F4 90` or more, or a lead from `F5` on |
| `UriCodec.Escape` | src/client.js:23 | an escape is `%` followed by two hex digits whose values are the byte's high and low nibbles |
| `UriCodec.EscapeAll` | src/client.js:21-25 | the escaped string is three characters per byte |
| `UriCodec.ContinuationOfEscapes` | src/client.js:19-25 | reading escapes back yields the escaped bytes, and fails exactly when too few are left |
| `UriCodec.DecodeEscapes` | src/client.js:19-26 | `decodeURIComponent` of a string made only of escapes equals UTF-8 decoding of the escaped bytes, failure included |
| `UriCodec.DecodeUriComponent` | src/client.js:19-26 | `decodeURIComponent` copies a string without `%` unchanged and never lengthens its input; on escapes its result is fixed by `UriCodec.DecodeEscapes` and `UriCodec.EscapedCharDecodes` |
| `UriCodec.EscapedCharDecodes` | src/client.js:37 | the escapes of one character's UTF-8 form decode to that character, whatever follows |
| `Jwt.PayloadSegment` | src/client.js:17 | `split('.')[1]` is `undefined` exactly when the token has no dot, and otherwise holds no dot |
| `Jwt.ParseJwt` | src/client.js:14-33 | `null` exactly when a stage of the `try` body throws, the parsed value otherwise; `Jwt.ParseJwtMeetsSpec` fixes that value |
| `Jwt.UrlToStd` | src/client.js:18 | every `-` becomes `+` and every `_` becomes `/`, other characters stay, the length is kept, no `-` or `_` remains, and a string without them is unchanged |
| `Jwt.HexEscapeByte` | src/client.js:23 | `'%' + ('00' + c.toString(16)).slice(-2)` is always `%` followed by the byte's two lower-case zero-padded hex digits |
| `Jwt.HexEscapeBinary` | src/client.js:21-25 | the `map`/`join` over the binary string is the concatenation of those escapes |
| `Jwt.HexEscapeRoundTrip` | src/client.js:21-25 | the escaped string has three characters per byte and reads back as the bytes |
| `Jwt.ParseJwtMeetsSpec` | src/client.js:14-33 | `parseJwt` equals the reference pipeline (segment, base64url, UTF-8, JSON), with `null` whenever a stage fails |
| `Jwt.NotAStringIsNull` | src/client.js:17-32 | a token that is not a string (an absent `access_token`) gives `null` |
| `Jwt.NoDotIsNull` | src/client.js:17-32 | a token without a dot gives `null` through a `TypeError`, not an escaping exception |
| `Jwt.PayloadSegmentOf` | src/client.js:17 | the segment decoded is the one between the first and second dots |
| `Jwt.OnlyPayloadSegmentMatters` | src/client.js:17 | two tokens with the same payload segment give the same result |
| `Jwt.HeaderAndSignatureIgnored` | src/client.js:17 | for a dot-free payload segment, changing the dot-free header, the signature or any further segments never changes the result |
| `Jwt.UrlToStdOfUrlEncoding` | src/client.js:18 | the remap turns the base64url encoding of any bytes into their unpadded base64 encoding |
| `Jwt.NoDotInUrlEncoding` | src/client.js:17 | a base64url payload contains no dot, so it stays one segment |
| `Jwt.ClaimsRoundTrip` | src/client.js:14-33 | a token whose payload is the base64url of UTF-8 text yields `JSON.parse` of that text, for any header without a dot (as every base64url header is) and any signature |
| `Jwt.MalformedBase64IsNull` | src/client.js:18-32 | a payload that is not forgiving-base64 after the remap gives `null` (an `InvalidCharacterError` absorbed) |
| `Jwt.InvalidUtf8IsNull` | src/client.js:19-32 | payload bytes that are not UTF-8 give `null` (a `URIError` absorbed) |
| `Jwt.NotJsonIsNull` | src/client.js:28-32 | payload text that is not JSON gives `null` (a `SyntaxError` absorbed) |
| `QueryString.Escape` | src/client.js:37 | `querystring.escape` never emits the separators `&` and `=`, nor `+` |
| `QueryString.Stringify` | src/client.js:37-45 | `querystring.stringify`, as in the authorize query and again in the token body: each property of a non-empty list becomes exactly one `&`-separated piece of the result; `QueryString.ReadStringify` reads the pieces back as the properties |
| `QueryString.DecodeEscape` | src/client.js:37 | `decodeURIComponent` undoes `querystring.escape` for every string |
| `QueryString.LookupSound` | src/client.js:37-45 | the value found for a key belongs to a property of that name, and no value is found only when no property has that name |
| `QueryString.ReadStringify` | src/client.js:37-45 | a stringified non-empty property list reads back as exactly those properties, in order |
| `OAuthClient.AuthorizeParamsCarry` | src/client.js:37-44 | the authorize query carries `grant_type` `code` and no `response_type`, the configured `client_id`, `user_id` and `redirect_uri`, `scope` `zk-firma-digital` and the seed, plus a `state` of 1 to 4 digits without a leading zero whose value is the draw |
| `OAuthClient.AuthorizeParams` | src/client.js:37-45 | the properties of the authorize query, in the order of the object literal; what they carry is stated by `OAuthClient.AuthorizeParamsCarry` |
| `OAuthClient.AuthorizeUrl` | src/client.js:37-45 | the corrected authorize link; `OAuthClient.AuthorizeUrlCarries` states that it is the endpoint followed by a query reading back as the seven properties |
| `OAuthClient.AuthorizeUrlCarries` | src/client.js:37-45 | the link is the authorize endpoint followed by a query that reads back as exactly the seven properties |
| `OAuthClient.TokenParamsCarry` | src/client.js:62-68 | the token body passes `code` through unchanged and carries `grant_type` `authorization_code` and the configured `client_id`, `client_secret` and `redirect_uri`, but no `scope` or `state` |
| `OAuthClient.TokenParams` | src/client.js:62-68 | the properties of the token body; what they carry is stated by `OAuthClient.TokenParamsCarry` |
| `OAuthClient.TokenBodyCarries` | src/client.js:62-68 | the form body reads back as exactly those five properties |
| `OAuthClient.CallbackGuard` | src/client.js:54-68 | a callback is rejected with 400 exactly when `code` is absent or empty, and otherwise posts the body carrying that code to `/token` |
| `OAuthClient.CallbackIgnoresState` | src/client.js:54-68 | the returned `state` never affects what the callback does |
| `OAuthClient.Callback` | src/client.js:52-68 | the `/callback` route up to the token request; `OAuthClient.CallbackGuard` states when it answers 400 and what it posts otherwise |
| `OAuthClient.AuthorizeRouteThrows` | src/client.js:44 | with only the module's own names in scope, the `/` route throws `ReferenceError` for `voteScope` on every request |
| `OAuthClient.AuthorizeUrlAsWritten` | src/client.js:35-45 | the `/` route as written, which looks `voteScope` up among the bindings in scope; `OAuthClient.AuthorizeRouteThrows` states that it throws `ReferenceError` on every request |
| `OAuthClient.AuthorizeRouteWithSeed` | src/client.js:37-45 | once `voteScope` is bound, the route builds exactly the corrected link with that value as the seed |

## Findings

| source | as written | input that shows it | evidently intended | confidence | as-written member | corrected member |
|---|---|---|---|---|---|---|
| src/client.js:44 | `nullifier_seed: voteScope` reads an identifier that nothing in the file declares, so evaluating the parameter object throws `ReferenceError` | any `GET /` | send a declared nullifier seed | high; not executed | `OAuthClient.AuthorizeUrlAsWritten`, with `OAuthClient.AuthorizeRouteThrows` | `OAuthClient.AuthorizeUrl`, with `OAuthClient.AuthorizeParamsCarry` and `OAuthClient.AuthorizeUrlCarries` |

## Left out

- Express routing, the HTML pages sent with `res.send`, `app.listen` and the
  `console` logging (src/client.js:35-50, 76-96): server, UI and logging only.
- The axios POST to `/token` and the mapping of its failures to a 500: network I/O.
  Only the request the callback would send is modelled (`OAuthClient.Callback`).
  Handling the token response and rendering `JSON.stringify(parseJwt(access_token))`
  is not part of the model.
- `Math.random()`: floating point. Its `Math.floor(... * 10000)` is a parameter in
  0..9999.
- Reading `process.env` and its development defaults (src/client.js:8-12): the
  settings come in as a `Config` record.
- `JSON.parse` is a parameter, not a parser. A payload whose text is `null` makes
  the real `parseJwt` return `null` without any error. The model returns that
  parsed value, not `None`.
- JavaScript strings are sequences of UTF-16 code units. The model uses Unicode
  scalar values, so it cannot represent a string holding a lone surrogate at all.
  That leaves out what `querystring.escape` does with one (a `URIError` when it is
  the last code unit, otherwise a four-byte escape that swallows the next code
  unit), and every token holding one: `parseJwt` would make `atob` fail on one in
  the payload segment and would ignore one in the header or the signature, but the
  model has no such tokens.
- The `code` query value is a string or absent. Express's parser can also produce
  an array or an object, which is not modelled.
- `QueryString.ReadFields` is a reference reader used to state what the query
  carries. It is not a model of Node's `querystring.parse`, which also maps `+`
  to a space; `querystring.escape` never emits `+`.
- src/client_passport.js: a script of two `fetch` calls with fixed inputs and no
  logic beyond I/O.
- The provider's passport, QR and polling flows and the credential payload encoder
  are not implemented in src/client.js, so they are not part of this model.
