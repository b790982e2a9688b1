/** Node's `querystring.stringify` over string values, with the escaping of
    `querystring.escape`, and a reference reader of the resulting
    `key=value&key=value` string (split on `&`, then on `=`, then percent-decode). */
module QueryString {
  import opened Wrappers
  import opened JsStrings
  import Utf8
  import UriCodec

  /** The characters `querystring.escape` leaves as they are: ASCII letters and
      digits and `-` `.` `_` `~` `!` `'` `(` `)` `*`. */
  predicate Unescaped(c: char)
  {
    ('A' <= c <= 'Z') || ('a' <= c <= 'z') || ('0' <= c <= '9') ||
    c == '-' || c == '.' || c == '_' || c == '~' ||
    c == '!' || c == '\'' || c == '(' || c == ')' || c == '*'
  }

  /** One character escaped: kept, or its UTF-8 octets as upper-case `%HH` escapes. */
  function EscapeChar(c: char): (e: string)
    ensures '&' !in e && '=' !in e && '+' !in e
  {
    if Unescaped(c) then [c]
    else
      var e := UriCodec.EscapeAll(Utf8.EncodeChar(c), true);
      UriCodec.EscapeAllAlphabet(Utf8.EncodeChar(c), true);
      e
  }

  /** `querystring.escape(s)`. Its output never holds the separators `&` and `=`. */
  function Escape(s: string): (r: string)
    ensures '&' !in r && '=' !in r && '+' !in r
  {
    if s == [] then [] else EscapeChar(s[0]) + Escape(s[1..])
  }

  /** The `key=value` pieces of `querystring.stringify`, keys in insertion order. */
  function Pieces(fields: seq<(string, string)>): (ps: seq<string>)
    ensures |ps| == |fields|
    ensures forall i :: 0 <= i < |ps| ==> '&' !in ps[i]
  {
    if fields == [] then []
    else [Escape(fields[0].0) + "=" + Escape(fields[0].1)] + Pieces(fields[1..])
  }

  /** `querystring.stringify(obj)` for an object whose values are all strings,
      given as its list of properties. Each property becomes exactly one of the
      `&`-separated pieces of the result. */
  function Stringify(fields: seq<(string, string)>): (r: string)
    ensures fields != [] ==> Split(r, '&') == Pieces(fields)
  {
    if fields == [] then Join([], '&')
    else SplitJoin(Pieces(fields), '&'); Join(Pieces(fields), '&')
  }

  /** The reference reader: split on `&`, each piece on `=` into exactly a key and
      a value, both percent-decoded with `decodeURIComponent`. `None` when a piece
      is not `key=value` or does not decode. */
  function ReadFields(query: string): Option<seq<(string, string)>>
  {
    ReadPieces(Split(query, '&'))
  }

  function ReadPieces(pieces: seq<string>): Option<seq<(string, string)>>
  {
    if pieces == [] then Some([])
    else
      var kv := Split(pieces[0], '=');
      if |kv| != 2 then None
      else match (UriCodec.DecodeUriComponent(kv[0]), UriCodec.DecodeUriComponent(kv[1]), ReadPieces(pieces[1..]))
        case (Some(k), Some(v), Some(more)) => Some([(k, v)] + more)
        case _ => None
  }

  /** The value of the first property named `key`. */
  function Lookup(fields: seq<(string, string)>, key: string): Option<string>
  {
    if fields == [] then None
    else if fields[0].0 == key then Some(fields[0].1)
    else Lookup(fields[1..], key)
  }

  // ---------------------------------------------------------------------------
  // Properties

  /** A value found for a key belongs to a property of that name, and no value is
      found only when no property has that name. */
  lemma {:induction false} LookupSound(fields: seq<(string, string)>, key: string)
    ensures Lookup(fields, key).Some? ==>
      exists i :: 0 <= i < |fields| && fields[i] == (key, Lookup(fields, key).value)
    ensures Lookup(fields, key).None? ==> forall i :: 0 <= i < |fields| ==> fields[i].0 != key
    decreases |fields|
  {
    if fields != [] && fields[0].0 != key {
      LookupSound(fields[1..], key);
      var r := Lookup(fields[1..], key);
      if r.Some? {
        var i :| 0 <= i < |fields| - 1 && fields[1..][i] == (key, r.value);
        assert fields[i + 1] == (key, r.value);
      } else {
        assert forall i :: 1 <= i < |fields| ==> fields[i] == fields[1..][i - 1];
      }
    }
  }

  /** The first property named `key` is the one at index `i` when no earlier one has that name. */
  lemma {:induction false} LookupAt(fields: seq<(string, string)>, key: string, i: nat)
    requires i < |fields| && fields[i].0 == key
    requires forall j :: 0 <= j < i ==> fields[j].0 != key
    ensures Lookup(fields, key) == Some(fields[i].1)
    decreases i
  {
    if i > 0 {
      LookupAt(fields[1..], key, i - 1);
    }
  }

  /** In a property list whose names are all different, each property is found by its name. */
  lemma LookupDistinct(fields: seq<(string, string)>, i: nat)
    requires i < |fields|
    requires forall j, k :: 0 <= j < k < |fields| ==> fields[j].0 != fields[k].0
    ensures Lookup(fields, fields[i].0) == Some(fields[i].1)
  {
    LookupAt(fields, fields[i].0, i);
  }

  /** No value is found for a key that no property has. */
  lemma {:induction false} LookupAbsent(fields: seq<(string, string)>, key: string)
    requires forall j :: 0 <= j < |fields| ==> fields[j].0 != key
    ensures Lookup(fields, key) == None
    decreases |fields|
  {
    if fields != [] {
      LookupAbsent(fields[1..], key);
    }
  }

  /** `decodeURIComponent` undoes `querystring.escape`. */
  lemma {:induction false} DecodeEscape(s: string)
    ensures UriCodec.DecodeUriComponent(Escape(s)) == Some(s)
    decreases |s|
  {
    if s != [] {
      var rest := Escape(s[1..]);
      assert Escape(s) == EscapeChar(s[0]) + rest;
      DecodeEscape(s[1..]);
      if Unescaped(s[0]) {
        UriCodec.DecodePlain(s[0], rest);
      } else {
        UriCodec.EscapedCharDecodes(s[0], rest, true);
      }
      assert [s[0]] + s[1..] == s;
    }
  }

  /** One `key=value` piece reads back as its key and value. */
  lemma ReadPiece(key: string, value: string)
    ensures Split(Escape(key) + "=" + Escape(value), '=') == [Escape(key), Escape(value)]
  {
    assert Escape(key) + "=" + Escape(value) == Escape(key) + ['='] + Escape(value);
    SplitPrefix(Escape(key), Escape(value), '=');
    SplitNoSep(Escape(value), '=');
  }

  lemma {:induction false} ReadPiecesOf(fields: seq<(string, string)>)
    ensures ReadPieces(Pieces(fields)) == Some(fields)
    decreases |fields|
  {
    if fields != [] {
      var ps := Pieces(fields);
      ReadPiece(fields[0].0, fields[0].1);
      DecodeEscape(fields[0].0);
      DecodeEscape(fields[0].1);
      ReadPiecesOf(fields[1..]);
      assert ps[1..] == Pieces(fields[1..]);
      assert fields == [(fields[0].0, fields[0].1)] + fields[1..];
    }
  }

  /** Reading a stringified non-empty property list gives back exactly those
      properties, in order: no key or value can break out of its field. */
  lemma ReadStringify(fields: seq<(string, string)>)
    requires |fields| >= 1
    ensures ReadFields(Stringify(fields)) == Some(fields)
  {
    SplitJoin(Pieces(fields), '&');
    ReadPiecesOf(fields);
  }
}
