/** `parseJwt` of src/client.js: the claims of a compact JWT (section 3 of RFC 7519,
    compact serialization of section 7.1 of RFC 7515), decoded without checking the
    signature, with every failure turned into `null`. */
module Jwt {
  import opened Wrappers
  import opened Bytes
  import opened JsStrings
  import Base64
  import Utf8
  import UriCodec

  /** The exceptions the pipeline can throw before the `catch` absorbs them. */
  datatype JsError =
    | TypeError              // `token.split` on a non-string, or `.replace` on `undefined`
    | InvalidCharacterError  // `atob` on data that is not forgiving-base64
    | URIError               // `decodeURIComponent` on octets that are not UTF-8
    | SyntaxError            // `JSON.parse` on text that is not JSON

  /** `token.split('.')[1]`: the second dot-separated segment, or `None` (`undefined`)
      when the token has no dot. */
  function PayloadSegment(token: string): (r: Option<string>)
    ensures r.None? <==> '.' !in token
    ensures r.Some? ==> '.' !in r.value
  {
    var parts := Split(token, '.');
    SplitPiecesOmitSep(token, '.');
    if |parts| > 1 then Some(parts[1]) else None
  }

  /** `.replace(/-/g, '+').replace(/_/g, '/')`: the base64url alphabet mapped onto
      the base64 alphabet, every other character kept in place. */
  function UrlToStd(s: string): (r: string)
    ensures |r| == |s|
    ensures forall i :: 0 <= i < |s| ==>
      r[i] == (if s[i] == '-' then '+' else if s[i] == '_' then '/' else s[i])
    ensures '-' !in r && '_' !in r
    ensures '-' !in s && '_' !in s ==> r == s
  {
    ReplaceAll(ReplaceAll(s, '-', '+'), '_', '/')
  }

  /** `'%' + ('00' + c.charCodeAt(0).toString(16)).slice(-2)` for one character of
      the binary string: always `%` and exactly two lower-case hexadecimal digits. */
  function HexEscapeByte(b: Byte): (e: string)
    ensures e == UriCodec.Escape(b, false)
  {
    "%" + SliceLast("00" + HexString(b), 2)
  }

  /** `.split('').map(...).join('')` over the binary string `atob` returned. */
  function HexEscapeBinary(bs: seq<Byte>): (s: string)
    ensures s == UriCodec.EscapeAll(bs, false)
  {
    if bs == [] then [] else HexEscapeByte(bs[0]) + HexEscapeBinary(bs[1..])
  }

  /** The body of the `try` block: the parsed claims or the exception thrown.
      `token` is `None` when `access_token` is not a string (for instance absent
      from the token response); `jsonParse` stands for `JSON.parse`, `None` being
      its `SyntaxError`. */
  function Claims<J>(token: Option<string>, jsonParse: string -> Option<J>): Result<J, JsError>
  {
    if token.None? then Err(TypeError)
    else match PayloadSegment(token.value)
      case None => Err(TypeError)
      case Some(base64Url) => SegmentClaims(base64Url, jsonParse)
  }

  /** The steps of the `try` block after the segment has been picked. */
  function SegmentClaims<J>(base64Url: string, jsonParse: string -> Option<J>): Result<J, JsError>
  {
    var base64 := UrlToStd(base64Url);
    match Base64.ForgivingDecode(base64)
    case None => Err(InvalidCharacterError)
    case Some(binary) =>
      match UriCodec.DecodeUriComponent(HexEscapeBinary(binary))
      case None => Err(URIError)
      case Some(jsonPayload) =>
        match jsonParse(jsonPayload)
        case None => Err(SyntaxError)
        case Some(claims) => Ok(claims)
  }

  /** `parseJwt(token)`: the claims, or `None` (`null`) when anything in the
      pipeline threw. It never throws itself. */
  function ParseJwt<J>(token: Option<string>, jsonParse: string -> Option<J>): (r: Option<J>)
    ensures r.None? <==> Claims(token, jsonParse).Err?
    ensures r.Some? ==> r.value == Claims(token, jsonParse).value
  {
    match Claims(token, jsonParse)
    case Ok(claims) => Some(claims)
    case Err(_) => None
  }

  // ---------------------------------------------------------------------------
  // Reference specification and properties

  /** What `parseJwt` computes, stated with the reference decoders: the second
      segment, read as base64url, decoded as UTF-8, parsed as JSON. */
  function ClaimsSpec<J>(token: string, jsonParse: string -> Option<J>): Option<J>
  {
    match PayloadSegment(token)
    case None => None
    case Some(segment) =>
      match Base64.ForgivingDecode(UrlToStd(segment))
      case None => None
      case Some(octets) =>
        match Utf8.Decode(octets)
        case None => None
        case Some(text) => jsonParse(text)
  }

  /** `parseJwt` agrees with the reference specification on every string token: the
      detour through `%hh` escapes and `decodeURIComponent` is exactly UTF-8
      decoding, and each failing stage gives `null`. */
  lemma ParseJwtMeetsSpec<J>(token: string, jsonParse: string -> Option<J>)
    ensures ParseJwt(Some(token), jsonParse) == ClaimsSpec(token, jsonParse)
  {
    match PayloadSegment(token)
    case None =>
    case Some(segment) =>
      match Base64.ForgivingDecode(UrlToStd(segment))
      case None =>
      case Some(octets) =>
        UriCodec.DecodeEscapes(octets, false);
  }

  /** A value that is not a string gives `null`. */
  lemma NotAStringIsNull<J>(jsonParse: string -> Option<J>)
    ensures ParseJwt(None, jsonParse) == None
  {
  }

  /** A token without a dot gives `null`: `split('.')[1]` is `undefined` and the
      `replace` on it throws, which the `catch` absorbs. */
  lemma NoDotIsNull<J>(token: string, jsonParse: string -> Option<J>)
    requires '.' !in token
    ensures ParseJwt(Some(token), jsonParse) == None
    ensures Claims(Some(token), jsonParse) == Err(TypeError)
  {
  }

  /** The segment picked is the one between the first and the second dot. */
  lemma PayloadSegmentOf(header: string, payload: string, rest: string)
    requires '.' !in header && '.' !in payload
    requires rest == [] || rest[0] == '.'
    ensures PayloadSegment(header + "." + payload + rest) == Some(payload)
  {
    var token := header + "." + payload + rest;
    var tail := payload + rest;
    assert Split(token, '.') == [header] + Split(tail, '.') by {
      assert token == header + ['.'] + tail;
      SplitPrefix(header, tail, '.');
    }
    assert Split(tail, '.')[0] == payload by {
      if rest == [] {
        assert tail == payload;
        SplitNoSep(payload, '.');
      } else {
        assert tail == payload + ['.'] + rest[1..];
        SplitPrefix(payload, rest[1..], '.');
      }
    }
  }

  /** The claims depend on the token only through its payload segment. */
  lemma OnlyPayloadSegmentMatters<J>(token1: string, token2: string, jsonParse: string -> Option<J>)
    requires PayloadSegment(token1) == PayloadSegment(token2)
    ensures ParseJwt(Some(token1), jsonParse) == ParseJwt(Some(token2), jsonParse)
  {
    assert Claims(Some(token1), jsonParse) == Claims(Some(token2), jsonParse);
  }

  /** Only the payload segment is decoded: the header, the signature and any further
      segments never influence the result. */
  lemma HeaderAndSignatureIgnored<J>(
    header1: string, header2: string, payload: string, rest1: string, rest2: string,
    jsonParse: string -> Option<J>)
    requires '.' !in header1 && '.' !in header2 && '.' !in payload
    requires rest1 == [] || rest1[0] == '.'
    requires rest2 == [] || rest2[0] == '.'
    ensures ParseJwt(Some(header1 + "." + payload + rest1), jsonParse)
         == ParseJwt(Some(header2 + "." + payload + rest2), jsonParse)
  {
    PayloadSegmentOf(header1, payload, rest1);
    PayloadSegmentOf(header2, payload, rest2);
    OnlyPayloadSegmentMatters(header1 + "." + payload + rest1, header2 + "." + payload + rest2, jsonParse);
  }

  /** The remap turns the base64url encoding of any octets into their standard
      base64 encoding without padding. */
  lemma UrlToStdOfUrlEncoding(octets: seq<Byte>)
    ensures UrlToStd(Base64.UrlEncodeUnpadded(octets)) == Base64.StdChars(Base64.EncodeSextets(octets))
  {
    var v := Base64.EncodeSextets(octets);
    var u := Base64.UrlEncodeUnpadded(octets);
    var s := Base64.StdChars(v);
    assert forall i :: 0 <= i < |v| ==> UrlToStd(u)[i] == s[i];
  }

  /** The base64url alphabet has no dot, so an encoded payload is one segment. */
  lemma NoDotInUrlEncoding(octets: seq<Byte>)
    ensures '.' !in Base64.UrlEncodeUnpadded(octets)
  {
  }

  /** Every escaped octet is three characters, and reading the escapes back gives
      the octets. */
  lemma HexEscapeRoundTrip(bs: seq<Byte>)
    ensures |HexEscapeBinary(bs)| == 3 * |bs|
    ensures UriCodec.ContinuationOctets(HexEscapeBinary(bs), |bs|) == Some(bs)
  {
    var e := HexEscapeBinary(bs);
    assert e + [] == e;
    UriCodec.ContinuationOfEscapes(bs, [], |bs|, false);
    assert bs[..|bs|] == bs;
  }

  /** A token whose payload segment is the unpadded base64url encoding of the UTF-8
      form of some text yields exactly what `JSON.parse` makes of that text, for any
      header without a dot (as every base64url header is) and any signature. */
  lemma ClaimsRoundTrip<J>(header: string, text: string, signature: string, jsonParse: string -> Option<J>)
    requires '.' !in header
    ensures ParseJwt(Some(header + "." + Base64.UrlEncodeUnpadded(Utf8.Encode(text)) + "." + signature), jsonParse)
         == jsonParse(text)
  {
    var octets := Utf8.Encode(text);
    var payload := Base64.UrlEncodeUnpadded(octets);
    var token := header + "." + payload + "." + signature;
    NoDotInUrlEncoding(octets);
    assert token == header + "." + payload + ("." + signature);
    PayloadSegmentOf(header, payload, "." + signature);
    UrlToStdOfUrlEncoding(octets);
    Base64.DecodeUnpadded(octets);
    Utf8.DecodeEncode(text);
    ParseJwtMeetsSpec(token, jsonParse);
  }

  /** A payload segment that is not forgiving-base64 after the remap gives `null`. */
  lemma MalformedBase64IsNull<J>(token: string, segment: string, jsonParse: string -> Option<J>)
    requires PayloadSegment(token) == Some(segment)
    requires Base64.ForgivingDecode(UrlToStd(segment)) == None
    ensures ParseJwt(Some(token), jsonParse) == None
    ensures Claims(Some(token), jsonParse) == Err(InvalidCharacterError)
  {
  }

  /** A payload whose octets are not UTF-8 gives `null`, through the `URIError` of
      `decodeURIComponent`. */
  lemma InvalidUtf8IsNull<J>(token: string, segment: string, octets: seq<Byte>, jsonParse: string -> Option<J>)
    requires PayloadSegment(token) == Some(segment)
    requires Base64.ForgivingDecode(UrlToStd(segment)) == Some(octets)
    requires Utf8.Decode(octets) == None
    ensures ParseJwt(Some(token), jsonParse) == None
    ensures Claims(Some(token), jsonParse) == Err(URIError)
  {
    UriCodec.DecodeEscapes(octets, false);
  }

  /** A payload whose text is not JSON gives `null`, through the `SyntaxError` of `JSON.parse`. */
  lemma NotJsonIsNull<J>(token: string, segment: string, octets: seq<Byte>, text: string, jsonParse: string -> Option<J>)
    requires PayloadSegment(token) == Some(segment)
    requires Base64.ForgivingDecode(UrlToStd(segment)) == Some(octets)
    requires Utf8.Decode(octets) == Some(text)
    requires jsonParse(text) == None
    ensures ParseJwt(Some(token), jsonParse) == None
    ensures Claims(Some(token), jsonParse) == Err(SyntaxError)
  {
    UriCodec.DecodeEscapes(octets, false);
  }
}
