/** Percent-encoding of octets (section 2.1 of RFC 3986) and ECMAScript's
    `decodeURIComponent`, which undoes percent escapes and decodes the octets
    they give as UTF-8. */
module UriCodec {
  import opened Wrappers
  import opened Bytes
  import Utf8

  /** `%` followed by the two hexadecimal digits of `b`. */
  function Escape(b: Byte, upper: bool): (e: string)
    ensures |e| == 3 && e[0] == '%'
    ensures HexValue(e[1]) == Some(b / 16) && HexValue(e[2]) == Some(b % 16)
  {
    HexValueOfDigit(b / 16, upper);
    HexValueOfDigit(b % 16, upper);
    ['%', HexDigit(b / 16, upper), HexDigit(b % 16, upper)]
  }

  /** The escapes of all bytes, one after the other. */
  function EscapeAll(bs: seq<Byte>, upper: bool): (s: string)
    ensures |s| == 3 * |bs|
  {
    if bs == [] then [] else Escape(bs[0], upper) + EscapeAll(bs[1..], upper)
  }

  /** Escapes consist of `%` and hexadecimal digits only. */
  lemma {:induction false} EscapeAllAlphabet(bs: seq<Byte>, upper: bool)
    ensures forall c :: c in EscapeAll(bs, upper) ==> c == '%' || HexValue(c).Some?
    decreases |bs|
  {
    if bs != [] {
      EscapeAllAlphabet(bs[1..], upper);
      var e := Escape(bs[0], upper);
      assert e == ['%', e[1], e[2]];
    }
  }

  /** ECMAScript's ParseHexOctet: the octet written by two hexadecimal digits. */
  function ParseHexOctet(hi: char, lo: char): (r: Option<Byte>)
  {
    match (HexValue(hi), HexValue(lo))
    case (Some(h), Some(l)) => Some(h * 16 + l)
    case _ => None
  }

  /** Reads `m` further escapes `%hh` from the start of `s`, as the continuation
      octets of a multi-byte sequence. */
  function ContinuationOctets(s: string, m: nat): (r: Option<seq<Byte>>)
    ensures r.Some? ==> |r.value| == m && 3 * m <= |s|
  {
    if m == 0 then Some([])
    else if |s| < 3 || s[0] != '%' then None
    else match ParseHexOctet(s[1], s[2])
      case None => None
      case Some(b) =>
        match ContinuationOctets(s[3..], m - 1)
        case None => None
        case Some(more) => Some([b] + more)
  }

  /** `decodeURIComponent(s)`: the Decode operation of the ECMAScript specification
      with an empty set of preserved characters. Characters other than `%` are
      copied. An escape gives an octet; an octet below 0x80 is copied as a character,
      one with a single leading one bit or more than four is an error, and otherwise
      as many further escapes as its leading one bits announce, less one, must follow
      and the octets together must be one well-formed UTF-8 sequence, whose character
      is produced. `None` is the `URIError` thrown on every error. */
  function DecodeUriComponent(s: string): (r: Option<string>)
    ensures '%' !in s ==> r == Some(s)
    ensures r.Some? ==> |r.value| <= |s|
    decreases |s|
  {
    if s == [] then Some([])
    else if s[0] != '%' then
      match DecodeUriComponent(s[1..])
      case None => None
      case Some(rest) => assert s == [s[0]] + s[1..]; Some([s[0]] + rest)
    else if |s| < 3 then None
    else match ParseHexOctet(s[1], s[2])
      case None => None
      case Some(b) =>
        var n := Utf8.SequenceLength(b);
        if (b >= 0x80 && n == 1) || n > 4 then None
        else match ContinuationOctets(s[3..], n - 1)
          case None => None
          case Some(more) =>
            match Utf8.CodePoint([b] + more)
            case None => None
            case Some(c) =>
              match DecodeUriComponent(s[3 * n..])
              case None => None
              case Some(rest) => Some([c] + rest)
  }

  // ---------------------------------------------------------------------------
  // Properties

  /** The escape of an octet reads back as that octet, whatever the case of its digits. */
  lemma ParseEscape(b: Byte, upper: bool)
    ensures var e := Escape(b, upper); ParseHexOctet(e[1], e[2]) == Some(b)
  {
  }

  lemma {:induction false} EscapeAllDrop(bs: seq<Byte>, k: nat, upper: bool)
    requires k <= |bs|
    ensures EscapeAll(bs, upper)[3 * k..] == EscapeAll(bs[k..], upper)
    decreases k
  {
    if k > 0 {
      EscapeAllDrop(bs[1..], k - 1, upper);
      assert bs[1..][k - 1..] == bs[k..];
    }
  }

  /** Reading continuation escapes from escaped octets yields those octets, and fails
      exactly when there are too few of them. */
  lemma {:induction false} ContinuationOfEscapes(bs: seq<Byte>, rest: string, m: nat, upper: bool)
    requires m <= |bs| || rest == [] || rest[0] != '%'
    ensures ContinuationOctets(EscapeAll(bs, upper) + rest, m)
         == if m <= |bs| then Some(bs[..m]) else None
    decreases m
  {
    var s := EscapeAll(bs, upper) + rest;
    if m > 0 {
      if bs == [] {
        assert s == rest;
      } else {
        EscapeAllHead(bs, rest, upper);
        EscapeAllTail(bs, rest, upper);
        ContinuationOfEscapes(bs[1..], rest, m - 1, upper);
        if m <= |bs| {
          assert [bs[0]] + bs[1..][..m - 1] == bs[..m];
        }
      }
    }
  }

  /** A string that starts with escaped octets starts with the escape of the first. */
  lemma EscapeAllHead(bs: seq<Byte>, rest: string, upper: bool)
    requires bs != []
    ensures var s := EscapeAll(bs, upper) + rest;
      |s| >= 3 && s[0] == '%' && ParseHexOctet(s[1], s[2]) == Some(bs[0])
  {
    var e := Escape(bs[0], upper);
    EscapeAllCons(bs, upper);
    ParseEscape(bs[0], upper);
  }

  lemma EscapeAllTail(bs: seq<Byte>, rest: string, upper: bool)
    requires bs != []
    ensures (EscapeAll(bs, upper) + rest)[3..] == EscapeAll(bs[1..], upper) + rest
  {
    EscapeAllCons(bs, upper);
  }

  lemma EscapeAllCons(bs: seq<Byte>, upper: bool)
    requires bs != []
    ensures EscapeAll(bs, upper) == Escape(bs[0], upper) + EscapeAll(bs[1..], upper)
  {
  }

  /** On a string made only of escapes, `decodeURIComponent` is exactly UTF-8
      decoding of the escaped octets: it succeeds precisely when they are valid UTF-8. */
  lemma {:induction false} DecodeEscapes(bs: seq<Byte>, upper: bool)
    ensures DecodeUriComponent(EscapeAll(bs, upper)) == Utf8.Decode(bs)
    decreases |bs|
  {
    if bs != [] {
      var s := EscapeAll(bs, upper);
      var b := bs[0];
      var n := Utf8.SequenceLength(b);
      assert s + [] == s;
      EscapeAllHead(bs, [], upper);
      EscapeAllTail(bs, [], upper);
      if !((b >= 0x80 && n == 1) || n > 4) {
        ContinuationOfEscapes(bs[1..], [], n - 1, upper);
        if n <= |bs| {
          var more := bs[1..][..n - 1];
          assert [b] + more == bs[..n];
          match Utf8.CodePoint(bs[..n])
          case None =>
          case Some(c) =>
            DecodeSequenceStep(s, b, more, c);
            EscapeAllDrop(bs, n, upper);
            DecodeEscapes(bs[n..], upper);
        }
      }
    }
  }

  /** One step of `decodeURIComponent` over an escaped well-formed sequence. */
  lemma DecodeSequenceStep(s: string, b: Byte, more: seq<Byte>, c: char)
    requires |s| >= 3 && s[0] == '%' && ParseHexOctet(s[1], s[2]) == Some(b)
    requires 1 <= Utf8.SequenceLength(b) <= 4 && !(b >= 0x80 && Utf8.SequenceLength(b) == 1)
    requires ContinuationOctets(s[3..], Utf8.SequenceLength(b) - 1) == Some(more)
    requires Utf8.CodePoint([b] + more) == Some(c)
    ensures DecodeUriComponent(s)
         == match DecodeUriComponent(s[3 * Utf8.SequenceLength(b)..])
            case None => None case Some(t) => Some([c] + t)
  {
    assert s != [] && s[0] == '%' && |s| >= 3;
  }

  /** A character other than `%` is copied. */
  lemma DecodePlain(c: char, rest: string)
    requires c != '%'
    ensures DecodeUriComponent([c] + rest)
         == match DecodeUriComponent(rest) case None => None case Some(t) => Some([c] + t)
  {
    assert ([c] + rest)[1..] == rest;
  }

  /** The escapes of one character's UTF-8 form decode to that character, whatever follows. */
  lemma EscapedCharDecodes(c: char, rest: string, upper: bool)
    ensures DecodeUriComponent(EscapeAll(Utf8.EncodeChar(c), upper) + rest)
         == match DecodeUriComponent(rest) case None => None case Some(t) => Some([c] + t)
  {
    var e := Utf8.EncodeChar(c);
    var s := EscapeAll(e, upper) + rest;
    var n := |e|;
    Utf8.CodePointOfEncodeChar(c);
    EscapeAllHead(e, rest, upper);
    EscapeAllTail(e, rest, upper);
    ContinuationOfEscapes(e[1..], rest, n - 1, upper);
    assert [e[0]] + e[1..][..n - 1] == e;
    assert s[3 * n..] == rest;
    DecodeSequenceStep(s, e[0], e[1..][..n - 1], c);
  }
}
