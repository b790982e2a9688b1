/** UTF-8 as RFC 3629 defines it (section 3 for the bit layout, section 4 for the
    byte-sequence syntax that excludes overlong forms, surrogates and code points
    above U+10FFFF). The decoder is what `decodeURIComponent` applies to the octets
    of its percent escapes; the encoder is the reference it is checked against. */
module Utf8 {
  import opened Wrappers
  import opened Bytes

  /** The number of leading one bits of a byte. */
  function LeadingOnes(b: Byte): (n: nat)
    ensures n <= 8
    ensures n == 0 <==> b < 0x80
    ensures n == 1 <==> 0x80 <= b < 0xC0
  {
    if b < 0x80 then 0 else if b < 0xC0 then 1 else if b < 0xE0 then 2
    else if b < 0xF0 then 3 else if b < 0xF8 then 4 else if b < 0xFC then 5
    else if b < 0xFE then 6 else if b < 0xFF then 7 else 8
  }

  /** The length of the sequence a lead byte announces (1 for an ASCII byte). */
  function SequenceLength(lead: Byte): nat
  {
    if lead < 0x80 then 1 else LeadingOnes(lead)
  }

  predicate IsContinuation(b: Byte) { 0x80 <= b <= 0xBF }

  /** The character one well-formed sequence encodes, or `None` when `octets` is not
      one of the forms UTF8-1 to UTF8-4 of section 4 of RFC 3629. */
  function CodePoint(octets: seq<Byte>): (r: Option<char>)
    requires 1 <= |octets| <= 4
    ensures r.Some? ==> |octets| == SequenceLength(octets[0])
    ensures r.Some? ==> forall i :: 1 <= i < |octets| ==> IsContinuation(octets[i])
  {
    var b0: int := octets[0];
    if |octets| == 1 then
      if b0 < 0x80 then Some(b0 as char) else None
    else if !(forall i :: 1 <= i < |octets| ==> IsContinuation(octets[i])) then None
    else if |octets| == 2 then
      if 0xC2 <= b0 <= 0xDF then Some(((b0 - 0xC0) * 64 + (octets[1] as int - 0x80)) as char) else None
    else if |octets| == 3 then
      var b1: int := octets[1];
      if 0xE0 <= b0 <= 0xEF && (b0 == 0xE0 ==> b1 >= 0xA0) && (b0 == 0xED ==> b1 <= 0x9F) then
        Some(((b0 - 0xE0) * 4096 + (b1 - 0x80) * 64 + (octets[2] as int - 0x80)) as char)
      else None
    else
      var b1: int := octets[1];
      if 0xF0 <= b0 <= 0xF4 && (b0 == 0xF0 ==> b1 >= 0x90) && (b0 == 0xF4 ==> b1 <= 0x8F) then
        Some(((b0 - 0xF0) * 262144 + (b1 - 0x80) * 4096 + (octets[2] as int - 0x80) * 64 + (octets[3] as int - 0x80)) as char)
      else None
  }

  /** Decodes a whole byte string, sequence by sequence; `None` at the first byte
      that does not start a well-formed sequence. */
  function Decode(bs: seq<Byte>): (r: Option<string>)
    ensures r.Some? ==> |r.value| <= |bs|
    decreases |bs|
  {
    if bs == [] then Some([])
    else
      var n := SequenceLength(bs[0]);
      if n == 1 && bs[0] >= 0x80 then None
      else if n > 4 || |bs| < n then None
      else match CodePoint(bs[..n])
        case None => None
        case Some(c) =>
          match Decode(bs[n..])
          case None => None
          case Some(rest) => Some([c] + rest)
  }

  /** The UTF-8 form of one character (section 3 of RFC 3629). */
  function EncodeChar(c: char): (e: seq<Byte>)
    ensures 1 <= |e| <= 4
  {
    var cp := c as int;
    if cp < 0x80 then [cp]
    else if cp < 0x800 then [0xC0 + cp / 64, 0x80 + cp % 64]
    else if cp < 0x10000 then [0xE0 + cp / 4096, 0x80 + cp / 64 % 64, 0x80 + cp % 64]
    else [0xF0 + cp / 262144, 0x80 + cp / 4096 % 64, 0x80 + cp / 64 % 64, 0x80 + cp % 64]
  }

  function Encode(s: string): (bs: seq<Byte>)
    ensures |bs| >= |s|
  {
    if s == [] then [] else EncodeChar(s[0]) + Encode(s[1..])
  }

  // ---------------------------------------------------------------------------
  // Properties

  lemma Radix(cp: int)
    requires 0 <= cp
    ensures cp == cp / 64 * 64 + cp % 64
    ensures cp / 4096 == cp / 64 / 64 && cp / 64 == cp / 4096 * 64 + cp / 64 % 64
    ensures cp / 262144 == cp / 4096 / 64 && cp / 4096 == cp / 262144 * 64 + cp / 4096 % 64
  {
  }

  /** Each character's encoding is one well-formed sequence that decodes to it. */
  lemma CodePointOfEncodeChar(c: char)
    ensures SequenceLength(EncodeChar(c)[0]) == |EncodeChar(c)|
    ensures CodePoint(EncodeChar(c)) == Some(c)
  {
    var cp := c as int;
    if 0x80 <= cp < 0x800 {
      CodePointOfTwo(c);
    } else if 0x800 <= cp < 0x10000 {
      CodePointOfThree(c);
    } else if 0x10000 <= cp {
      CodePointOfFour(c);
    }
  }

  lemma CodePointOfTwo(c: char)
    requires 0x80 <= c as int < 0x800
    ensures SequenceLength(EncodeChar(c)[0]) == |EncodeChar(c)|
    ensures CodePoint(EncodeChar(c)) == Some(c)
  {
    Radix(c as int);
  }

  lemma CodePointOfThree(c: char)
    requires 0x800 <= c as int < 0x10000
    ensures SequenceLength(EncodeChar(c)[0]) == |EncodeChar(c)|
    ensures CodePoint(EncodeChar(c)) == Some(c)
  {
    Radix(c as int);
  }

  lemma CodePointOfFour(c: char)
    requires 0x10000 <= c as int
    ensures SequenceLength(EncodeChar(c)[0]) == |EncodeChar(c)|
    ensures CodePoint(EncodeChar(c)) == Some(c)
  {
    Radix(c as int);
  }

  /** Every well-formed sequence is the encoding of the character it decodes to:
      RFC 3629 admits no second (overlong) form of any character. */
  lemma EncodeCharOfCodePoint(octets: seq<Byte>)
    requires 1 <= |octets| <= 4
    requires CodePoint(octets).Some?
    ensures EncodeChar(CodePoint(octets).value) == octets
  {
    if |octets| == 2 {
      EncodeCharOfTwo(octets);
    } else if |octets| == 3 {
      EncodeCharOfThree(octets);
    } else if |octets| == 4 {
      EncodeCharOfFour(octets);
    }
  }

  lemma EncodeCharOfTwo(octets: seq<Byte>)
    requires |octets| == 2 && CodePoint(octets).Some?
    ensures EncodeChar(CodePoint(octets).value) == octets
  {
    Radix(CodePoint(octets).value as int);
    EncodeTwo(octets[0], octets[1]);
    assert octets == [octets[0], octets[1]];
  }

  lemma EncodeCharOfThree(octets: seq<Byte>)
    requires |octets| == 3 && CodePoint(octets).Some?
    ensures EncodeChar(CodePoint(octets).value) == octets
  {
    var cp := CodePoint(octets).value as int;
    Radix(cp);
    EncodeThree(octets[0], octets[1], octets[2], cp);
    assert octets == [octets[0], octets[1], octets[2]];
  }

  lemma EncodeCharOfFour(octets: seq<Byte>)
    requires |octets| == 4 && CodePoint(octets).Some?
    ensures EncodeChar(CodePoint(octets).value) == octets
  {
    var cp := CodePoint(octets).value as int;
    Radix(cp);
    EncodeFour(octets[0], octets[1], octets[2], octets[3], cp);
    assert octets == [octets[0], octets[1], octets[2], octets[3]];
  }

  lemma EncodeTwo(b0: Byte, b1: Byte)
    requires 0xC2 <= b0 <= 0xDF && IsContinuation(b1)
    ensures var cp := (b0 as int - 0xC0) * 64 + (b1 as int - 0x80);
      0x80 <= cp < 0x800 && 0xC0 + cp / 64 == b0 && 0x80 + cp % 64 == b1
  {
  }

  lemma EncodeThree(b0: Byte, b1: Byte, b2: Byte, cp: int)
    requires 0xE0 <= b0 <= 0xEF && IsContinuation(b1) && IsContinuation(b2)
    requires b0 == 0xE0 ==> b1 >= 0xA0
    requires cp == (b0 as int - 0xE0) * 4096 + (b1 as int - 0x80) * 64 + (b2 as int - 0x80)
    ensures 0x800 <= cp < 0x10000
    ensures 0xE0 + cp / 4096 == b0 && 0x80 + cp / 64 % 64 == b1 && 0x80 + cp % 64 == b2
  {
    assert cp / 64 == (b0 as int - 0xE0) * 64 + (b1 as int - 0x80);
  }

  lemma EncodeFour(b0: Byte, b1: Byte, b2: Byte, b3: Byte, cp: int)
    requires 0xF0 <= b0 <= 0xF4 && IsContinuation(b1) && IsContinuation(b2) && IsContinuation(b3)
    requires b0 == 0xF0 ==> b1 >= 0x90
    requires cp == (b0 as int - 0xF0) * 262144 + (b1 as int - 0x80) * 4096 + (b2 as int - 0x80) * 64 + (b3 as int - 0x80)
    ensures 0x10000 <= cp
    ensures 0xF0 + cp / 262144 == b0 && 0x80 + cp / 4096 % 64 == b1
    ensures 0x80 + cp / 64 % 64 == b2 && 0x80 + cp % 64 == b3
  {
    assert cp / 64 == (b0 as int - 0xF0) * 4096 + (b1 as int - 0x80) * 64 + (b2 as int - 0x80);
    assert cp / 4096 == (b0 as int - 0xF0) * 64 + (b1 as int - 0x80);
  }

  /** Decoding the encoding of a string gives back the string. */
  lemma {:induction false} DecodeEncode(s: string)
    ensures Decode(Encode(s)) == Some(s)
    decreases |s|
  {
    if s != [] {
      var e := EncodeChar(s[0]);
      var bs := Encode(s);
      CodePointOfEncodeChar(s[0]);
      DecodeEncode(s[1..]);
      assert bs[..|e|] == e && bs[|e|..] == Encode(s[1..]);
      assert s == [s[0]] + s[1..];
    }
  }

  /** Whatever decodes encodes back to the very same bytes, so `Decode` is exactly
      the inverse of `Encode`. */
  lemma {:induction false} EncodeDecode(bs: seq<Byte>)
    requires Decode(bs).Some?
    ensures Encode(Decode(bs).value) == bs
    decreases |bs|
  {
    if bs != [] {
      var n := SequenceLength(bs[0]);
      DecodeCons(bs);
      EncodeDecode(bs[n..]);
      EncodeStep(bs, n, Decode(bs).value, CodePoint(bs[..n]).value, Decode(bs[n..]).value);
    }
  }

  /** The inductive step of EncodeDecode: a text made of the character of the first
      `n` bytes followed by a text encoding to the remaining bytes encodes to all of them. */
  lemma EncodeStep(bs: seq<Byte>, n: nat, text: string, c: char, rest: string)
    requires 1 <= n <= 4 && n <= |bs| && CodePoint(bs[..n]) == Some(c)
    requires Encode(rest) == bs[n..] && text == [c] + rest
    ensures Encode(text) == bs
  {
    EncodeCons(c, rest);
    EncodeCharOfCodePoint(bs[..n]);
    assert bs[..n] + bs[n..] == bs;
  }

  /** A successful decode is the first sequence's character followed by the decode of the rest. */
  lemma DecodeCons(bs: seq<Byte>)
    requires bs != [] && Decode(bs).Some?
    ensures var n := SequenceLength(bs[0]);
      && 1 <= n <= 4 && n <= |bs| && CodePoint(bs[..n]).Some? && Decode(bs[n..]).Some?
      && Decode(bs).value == [CodePoint(bs[..n]).value] + Decode(bs[n..]).value
  {
  }

  lemma EncodeCons(c: char, rest: string)
    ensures Encode([c] + rest) == EncodeChar(c) + Encode(rest)
  {
    assert ([c] + rest)[1..] == rest;
  }

  /** A continuation byte cannot start a sequence. */
  lemma LoneContinuationRejected(bs: seq<Byte>)
    requires |bs| > 0 && IsContinuation(bs[0])
    ensures Decode(bs) == None
  {
  }

  /** Every overlong form is rejected: a two-byte form led by C0 or C1, a three-byte
      form led by E0 below E0 A0, and a four-byte form led by F0 below F0 90, whatever
      follows. */
  lemma OverlongRejected(lead: Byte, b1: Byte, rest: seq<Byte>)
    requires lead == 0xC0 || lead == 0xC1 || (lead == 0xE0 && b1 < 0xA0) || (lead == 0xF0 && b1 < 0x90)
    ensures Decode([lead, b1] + rest) == None
  {
    FirstSequenceRejected([lead, b1] + rest);
  }

  /** Every three-byte form of a UTF-16 surrogate (U+D800 to U+DFFF, led by ED A0 to
      ED BF) is rejected, whatever follows. */
  lemma SurrogateRejected(b1: Byte, rest: seq<Byte>)
    requires 0xA0 <= b1 <= 0xBF
    ensures Decode([0xED, b1] + rest) == None
  {
    FirstSequenceRejected([0xED, b1] + rest);
  }

  /** Every sequence for a value above U+10FFFF is rejected: one led by F4 90 or
      more, or by a byte from F5 on, whatever follows. */
  lemma OutOfRangeRejected(lead: Byte, b1: Byte, rest: seq<Byte>)
    requires lead >= 0xF5 || (lead == 0xF4 && b1 >= 0x90)
    ensures Decode([lead, b1] + rest) == None
  {
    FirstSequenceRejected([lead, b1] + rest);
  }

  /** Decoding fails when the first sequence its lead byte announces is not well formed. */
  lemma FirstSequenceRejected(bs: seq<Byte>)
    requires |bs| >= 2 && bs[0] >= 0xC0
    requires var n := SequenceLength(bs[0]);
      2 <= n <= 4 && n <= |bs| ==> CodePoint(bs[..n]) == None
    ensures Decode(bs) == None
  {
  }
}
