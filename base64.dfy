/** Base64 as `atob` sees it: the "forgiving-base64 decode" of the WHATWG HTML
    and Infra standards over the alphabet of section 4 of RFC 4648, and, as the
    reference it is checked against, the encoders of sections 4 and 5 of RFC 4648
    (standard and URL-safe alphabets). */
module Base64 {
  import opened Wrappers
  import opened Bytes

  /** A six-bit value: the index of one character of a base64 alphabet. */
  type Sextet = v: int | 0 <= v < 64

  /** ASCII whitespace in the sense of the Infra standard: TAB, LF, FF, CR, SPACE. */
  predicate IsAsciiWhitespace(c: char)
  {
    c == '\t' || c == '\n' || c == 12 as char || c == '\r' || c == ' '
  }

  function RemoveAsciiWhitespace(s: string): (r: string)
    ensures |r| <= |s|
    ensures forall i :: 0 <= i < |r| ==> !IsAsciiWhitespace(r[i])
  {
    if s == [] then []
    else if IsAsciiWhitespace(s[0]) then RemoveAsciiWhitespace(s[1..])
    else [s[0]] + RemoveAsciiWhitespace(s[1..])
  }

  /** Removes one or two trailing `=`. */
  function DropPadding(s: string): (r: string)
    ensures |s| - 2 <= |r| <= |s| && r == s[..|r|]
    ensures forall i :: |r| <= i < |s| ==> s[i] == '='
  {
    if |s| >= 2 && s[|s| - 2] == '=' && s[|s| - 1] == '=' then s[..|s| - 2]
    else if |s| >= 1 && s[|s| - 1] == '=' then s[..|s| - 1]
    else s
  }

  /** Steps 1 and 2 of forgiving-base64 decode: whitespace removed, and then, when the
      length is a multiple of four, one or two trailing `=` removed. */
  function Cleaned(data: string): string
  {
    var d := RemoveAsciiWhitespace(data);
    if |d| % 4 == 0 then DropPadding(d) else d
  }

  /** The position of `c` in the alphabet of section 4 of RFC 4648, if it is in it. */
  function StdIndex(c: char): Option<Sextet>
  {
    if 'A' <= c <= 'Z' then Some(c as int - 'A' as int)
    else if 'a' <= c <= 'z' then Some(c as int - 'a' as int + 26)
    else if '0' <= c <= '9' then Some(c as int - '0' as int + 52)
    else if c == '+' then Some(62)
    else if c == '/' then Some(63)
    else None
  }

  predicate InStdAlphabet(c: char) { StdIndex(c).Some? }

  /** The character at position `v` of the alphabet of section 4 of RFC 4648. */
  function StdChar(v: Sextet): (c: char)
    ensures StdIndex(c) == Some(v)
  {
    if v < 26 then ('A' as int + v) as char
    else if v < 52 then ('a' as int + v - 26) as char
    else if v < 62 then ('0' as int + v - 52) as char
    else if v == 62 then '+'
    else '/'
  }

  /** The character at position `v` of the URL and filename safe alphabet of
      section 5 of RFC 4648: the same as the standard one except `-` for 62 and `_` for 63. */
  function UrlChar(v: Sextet): (c: char)
    ensures v < 62 ==> c == StdChar(v)
    ensures v == 62 ==> c == '-'
    ensures v == 63 ==> c == '_'
  {
    if v == 62 then '-' else if v == 63 then '_' else StdChar(v)
  }

  function Sextets(s: string): (v: seq<Sextet>)
    requires forall i :: 0 <= i < |s| ==> InStdAlphabet(s[i])
    ensures |v| == |s|
    ensures forall i :: 0 <= i < |s| ==> StdIndex(s[i]) == Some(v[i])
  {
    if s == [] then [] else assert InStdAlphabet(s[0]); [StdIndex(s[0]).value] + Sextets(s[1..])
  }

  /** Steps 5 to 7 of forgiving-base64 decode: each sextet is appended to a bit
      buffer; every 24 bits become three big-endian bytes; a final buffer of 12 bits
      loses its last 4 bits and gives one byte, one of 18 bits loses its last 2 bits
      and gives two. The discarded bits are not required to be zero. */
  function DecodeSextets(v: seq<Sextet>): (r: seq<Byte>)
    requires |v| % 4 != 1
    ensures |r| == |v| * 3 / 4
  {
    if |v| >= 4 then
      DecodeGroup(v[0], v[1], v[2], v[3]) + DecodeSextets(v[4..])
    else if |v| == 3 then
      var buffer := (v[0] as int * 64 + v[1]) * 64 + v[2];
      [buffer / 4 / 256, buffer / 4 % 256]
    else if |v| == 2 then
      var buffer := v[0] as int * 64 + v[1];
      [buffer / 16]
    else
      []
  }

  /** A full 24-bit buffer of four sextets read as three big-endian bytes. */
  function DecodeGroup(a: Sextet, b: Sextet, c: Sextet, d: Sextet): (r: seq<Byte>)
    ensures |r| == 3
  {
    BufferBytes(((a as int * 64 + b) * 64 + c) * 64 + d)
  }

  function BufferBytes(buffer: int): (r: seq<Byte>)
    requires 0 <= buffer < 0x100_0000
    ensures |r| == 3
  {
    [buffer / 65536, buffer / 256 % 256, buffer % 256]
  }

  /** `atob`'s decoding step, the WHATWG forgiving-base64 decode: `None` is the failure
      on which `atob` throws an "InvalidCharacterError" DOMException. On success the
      output has three bytes for every four data characters left after cleaning. */
  function ForgivingDecode(data: string): (r: Option<seq<Byte>>)
    ensures r.Some? ==> |r.value| == |Cleaned(data)| * 3 / 4
  {
    var d := Cleaned(data);
    if |d| % 4 == 1 then None
    else if !(forall i :: 0 <= i < |d| ==> InStdAlphabet(d[i])) then None
    else Some(DecodeSextets(Sextets(d)))
  }

  // ---------------------------------------------------------------------------
  // The reference encoder (section 4 and 5 of RFC 4648)

  /** Every three bytes become four sextets, big-endian; a final one or two bytes
      are zero-extended to 12 or 18 bits and give two or three sextets. */
  function EncodeSextets(b: seq<Byte>): (v: seq<Sextet>)
    ensures |v| % 4 != 1
    ensures |v| == (4 * |b| + 2) / 3
  {
    if |b| >= 3 then EncodeTriple(b[0], b[1], b[2]) + EncodeSextets(b[3..])
    else if |b| == 2 then [b[0] / 4, b[0] % 4 * 16 + b[1] / 16, b[1] % 16 * 4]
    else if |b| == 1 then [b[0] / 4, b[0] % 4 * 16]
    else []
  }

  function EncodeTriple(x: Byte, y: Byte, z: Byte): (v: seq<Sextet>)
    ensures |v| == 4
  {
    [x / 4, x % 4 * 16 + y / 16, y % 16 * 4 + z / 64, z % 64]
  }

  function StdChars(v: seq<Sextet>): (s: string)
    ensures |s| == |v|
    ensures forall i :: 0 <= i < |v| ==> s[i] == StdChar(v[i])
  {
    if v == [] then [] else [StdChar(v[0])] + StdChars(v[1..])
  }

  function UrlChars(v: seq<Sextet>): (s: string)
    ensures |s| == |v|
    ensures forall i :: 0 <= i < |v| ==> s[i] == UrlChar(v[i])
  {
    if v == [] then [] else [UrlChar(v[0])] + UrlChars(v[1..])
  }

  /** Padded base64 (section 4 of RFC 4648). */
  function StdEncode(b: seq<Byte>): string
  {
    var v := EncodeSextets(b);
    StdChars(v) + (if |v| % 4 == 2 then "==" else if |v| % 4 == 3 then "=" else "")
  }

  /** Base64url without padding (section 5 of RFC 4648, padding omitted as
      section 2 of RFC 7515 prescribes for JWS segments). */
  function UrlEncodeUnpadded(b: seq<Byte>): string
  {
    UrlChars(EncodeSextets(b))
  }

  // ---------------------------------------------------------------------------
  // Properties

  /** The 24-bit buffer of four encoded sextets holds the three bytes. */
  lemma TripleBuffer(x: Byte, y: Byte, z: Byte)
    ensures var v := EncodeTriple(x, y, z);
      ((v[0] as int * 64 + v[1]) * 64 + v[2]) * 64 + v[3] == x as int * 65536 + y as int * 256 + z
  {
    assert x == x / 4 * 4 + x % 4;
    assert y == y / 16 * 16 + y % 16;
    assert z == z / 64 * 64 + z % 64;
  }

  lemma DecodeTriple(x: Byte, y: Byte, z: Byte)
    ensures var v := EncodeTriple(x, y, z); DecodeGroup(v[0], v[1], v[2], v[3]) == [x, y, z]
  {
    TripleBuffer(x, y, z);
    BufferOfBytes(x, y, z);
  }

  lemma BufferOfBytes(x: Byte, y: Byte, z: Byte)
    ensures x as int * 65536 + y as int * 256 + z < 0x100_0000
    ensures BufferBytes(x as int * 65536 + y as int * 256 + z) == [x, y, z]
  {
    DivModBase(x, y as int * 256 + z, 65536);
    DivModBase(x as int * 256 + y, z, 256);
    DivModBase(x, y, 256);
  }

  lemma DivModBase(q: int, r: int, base: int)
    requires base == 256 || base == 65536
    requires 0 <= r < base
    ensures (q * base + r) / base == q && (q * base + r) % base == r
  {
    if base == 256 {
      assert (q * 256 + r) / 256 == q;
    }
  }

  lemma DecodePair(x: Byte, y: Byte)
    ensures DecodeSextets([x / 4, x % 4 * 16 + y / 16, y % 16 * 4]) == [x, y]
  {
    assert x == x / 4 * 4 + x % 4;
    assert y == y / 16 * 16 + y % 16;
    var n := ((x / 4) as int * 64 + (x % 4 * 16 + y / 16)) * 64 + y % 16 * 4;
    assert n == (x as int * 256 + y) * 4;
    assert n / 4 == x as int * 256 + y;
  }

  lemma DecodeSingle(x: Byte)
    ensures DecodeSextets([x / 4, x % 4 * 16]) == [x]
  {
    assert x == x / 4 * 4 + x % 4;
  }

  /** Decoding the sextets of an encoding gives back the bytes. */
  lemma {:induction false} DecodeEncodeSextets(b: seq<Byte>)
    ensures DecodeSextets(EncodeSextets(b)) == b
    decreases |b|
  {
    if |b| >= 3 {
      var t := EncodeTriple(b[0], b[1], b[2]);
      var rest := EncodeSextets(b[3..]);
      var v := t + rest;
      assert EncodeSextets(b) == v;
      assert v[0] == t[0] && v[1] == t[1] && v[2] == t[2] && v[3] == t[3];
      assert v[4..] == rest;
      DecodeEncodeSextets(b[3..]);
      DecodeTriple(b[0], b[1], b[2]);
      assert b == [b[0], b[1], b[2]] + b[3..];
    } else if |b| == 2 {
      DecodePair(b[0], b[1]);
      assert b == [b[0], b[1]];
    } else if |b| == 1 {
      DecodeSingle(b[0]);
      assert b == [b[0]];
    }
  }

  /** Sextets written in the standard alphabet are read back unchanged. */
  lemma SextetsOfStdChars(v: seq<Sextet>)
    ensures forall i :: 0 <= i < |StdChars(v)| ==> InStdAlphabet(StdChars(v)[i])
    ensures Sextets(StdChars(v)) == v
  {
    var s := StdChars(v);
    assert forall i :: 0 <= i < |s| ==> StdIndex(s[i]) == Some(v[i]);
  }

  /** No character of a base64 alphabet is whitespace. */
  lemma {:induction false} RemoveWhitespaceOfStd(s: string)
    requires forall i :: 0 <= i < |s| ==> InStdAlphabet(s[i])
    ensures RemoveAsciiWhitespace(s) == s
  {
    if s != [] {
      assert InStdAlphabet(s[0]);
      RemoveWhitespaceOfStd(s[1..]);
      assert s == [s[0]] + s[1..];
    }
  }

  /** `atob` accepts base64 without its `=` padding: decoding the unpadded standard
      encoding of any bytes gives back those bytes. */
  lemma {:induction false} DecodeUnpadded(b: seq<Byte>)
    ensures ForgivingDecode(StdChars(EncodeSextets(b))) == Some(b)
  {
    var v := EncodeSextets(b);
    var s := StdChars(v);
    SextetsOfStdChars(v);
    CleanedUnpadded(b);
    DecodeEncodeSextets(b);
  }

  /** Decoding the padded standard encoding of any bytes gives back those bytes. */
  lemma {:induction false} DecodePadded(b: seq<Byte>)
    ensures ForgivingDecode(StdEncode(b)) == Some(b)
  {
    var s := StdChars(EncodeSextets(b));
    CleanedPadded(b);
    CleanedUnpadded(b);
    assert Cleaned(StdEncode(b)) == Cleaned(s);
    DecodeUnpadded(b);
  }

  lemma CleanedUnpadded(b: seq<Byte>)
    ensures Cleaned(StdChars(EncodeSextets(b))) == StdChars(EncodeSextets(b))
  {
    var v := EncodeSextets(b);
    SextetsOfStdChars(v);
    CleanedStd(StdChars(v));
  }

  /** A string of alphabet characters is left as it is by cleaning. */
  lemma CleanedStd(s: string)
    requires forall i :: 0 <= i < |s| ==> InStdAlphabet(s[i])
    ensures Cleaned(s) == s
  {
    RemoveWhitespaceOfStd(s);
    if |s| > 0 {
      assert InStdAlphabet(s[|s| - 1]);
    }
    DropPaddingOf(s, "");
    assert s + "" == s;
  }

  lemma CleanedPadded(b: seq<Byte>)
    ensures Cleaned(StdEncode(b)) == StdChars(EncodeSextets(b))
  {
    var v := EncodeSextets(b);
    var s := StdChars(v);
    var pad: string := if |v| % 4 == 2 then "==" else if |v| % 4 == 3 then "=" else "";
    assert StdEncode(b) == s + pad;
    SextetsOfStdChars(v);
    CleanedStdPadded(s, pad);
  }

  /** A string of alphabet characters followed by the padding that brings it to a
      multiple of four is cleaned to the string without the padding. */
  lemma CleanedStdPadded(s: string, pad: string)
    requires forall i :: 0 <= i < |s| ==> InStdAlphabet(s[i])
    requires pad == "" || pad == "=" || pad == "=="
    requires (|s| + |pad|) % 4 == 0
    ensures Cleaned(s + pad) == s
  {
    assert forall i :: 0 <= i < |pad| ==> pad[i] == '=';
    RemoveWhitespaceOfStd(s);
    RemoveWhitespaceAppend(s, pad);
    var d := RemoveAsciiWhitespace(s + pad);
    assert d == s + pad && |d| % 4 == 0;
    if |s| > 0 { assert InStdAlphabet(s[|s| - 1]); }
    DropPaddingOf(s, pad);
    assert Cleaned(s + pad) == DropPadding(d);
  }

  lemma DropPaddingOf(s: string, pad: string)
    requires pad == "" || pad == "=" || pad == "=="
    requires |s| > 0 ==> s[|s| - 1] != '='
    ensures DropPadding(s + pad) == s
  {
    var e := s + pad;
    if pad == "==" {
      assert e[|e| - 2] == '=' && e[|e| - 1] == '=';
      assert e[..|e| - 2] == s;
    } else if pad == "=" {
      assert e[..|e| - 1] == s;
      if |e| >= 2 { assert e[|e| - 2] == s[|s| - 1]; }
    } else {
      assert e == s;
    }
  }

  lemma {:induction false} RemoveWhitespaceAppend(s: string, t: string)
    requires forall i :: 0 <= i < |t| ==> !IsAsciiWhitespace(t[i])
    ensures RemoveAsciiWhitespace(s + t) == RemoveAsciiWhitespace(s) + t
    decreases |s|
  {
    if s == [] {
      RemoveWhitespaceNone(t);
      assert s + t == t;
    } else {
      RemoveWhitespaceAppend(s[1..], t);
      assert (s + t)[1..] == s[1..] + t;
    }
  }

  lemma {:induction false} RemoveWhitespaceNone(t: string)
    requires forall i :: 0 <= i < |t| ==> !IsAsciiWhitespace(t[i])
    ensures RemoveAsciiWhitespace(t) == t
    decreases |t|
  {
    if t != [] {
      RemoveWhitespaceNone(t[1..]);
      assert t == [t[0]] + t[1..];
    }
  }

  /** The URL-safe alphabet is not accepted: any `-` or `_` makes the decode fail,
      which is why the claims decoder remaps them first. */
  lemma UrlCharsRejected(data: string)
    requires '-' in data || '_' in data
    ensures ForgivingDecode(data) == None
  {
    var c := if '-' in data then '-' else '_';
    var d0 := RemoveAsciiWhitespace(data);
    RemoveWhitespaceKeeps(data, c);
    var d := Cleaned(data);
    var k :| 0 <= k < |d0| && d0[k] == c;
    if |d0| % 4 == 0 {
      assert k < |DropPadding(d0)|;
    }
    assert d[k] == c && !InStdAlphabet(d[k]);
  }

  /** Removing whitespace keeps every other character. */
  lemma {:induction false} RemoveWhitespaceKeeps(s: string, c: char)
    requires c in s && !IsAsciiWhitespace(c)
    ensures c in RemoveAsciiWhitespace(s)
    decreases |s|
  {
    if s[0] != c {
      assert c in s[1..] by {
        var k :| 0 <= k < |s| && s[k] == c;
        assert s[1..][k - 1] == c;
      }
      RemoveWhitespaceKeeps(s[1..], c);
    }
  }

  /** A data length (after cleaning) of one more than a multiple of four is refused. */
  lemma BadLengthRejected(data: string)
    requires |Cleaned(data)| % 4 == 1
    ensures ForgivingDecode(data) == None
  {
  }
}
