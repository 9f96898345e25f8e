/** Percent-encoding of text for URLs, in the two flavours the client uses:
    `encodeURIComponent` (ECMA-262 section 19.2.6.5) for the search query,
    and the application/x-www-form-urlencoded serializer of the WHATWG URL
    Standard (section 5.2) behind `URLSearchParams.toString()` for the
    discover query. Both encode a character outside their kept set as the
    UTF-8 bytes of its code point (RFC 3629), each written `%XX` with
    upper-case hexadecimal digits; the form flavour writes a space as `+`.

    `Decode` is the partner used to state the round trip: it reads `+` as a
    space and `%XX` as a byte, then decodes the bytes as UTF-8. */
module Percent {
  import opened Wrappers

  type Byte = b: int | 0 <= b < 256

  // ---------------------------------------------------------------------------
  // UTF-8

  /** The UTF-8 bytes of one Unicode scalar value, least significant six
      bits in the last byte. */
  function Utf8(c: char): (bs: seq<Byte>)
    ensures 1 <= |bs| <= 4
    ensures |bs| == 1 <==> c as int < 0x80
    ensures |bs| == 1 ==> bs[0] == c as int
    ensures forall i :: 1 <= i < |bs| ==> 0x80 <= bs[i] < 0xC0
  {
    var n := c as int;
    if n < 0x80 then [n]
    else if n < 0x800 then [0xC0 + n / 64, 0x80 + n % 64]
    else if n < 0x10000 then [0xE0 + n / 64 / 64, 0x80 + n / 64 % 64, 0x80 + n % 64]
    else [0xF0 + n / 64 / 64 / 64, 0x80 + n / 64 / 64 % 64, 0x80 + n / 64 % 64, 0x80 + n % 64]
  }

  function Utf8String(s: string): seq<Byte> {
    if s == [] then [] else Utf8(s[0]) + Utf8String(s[1..])
  }

  /** The number of bytes of the sequence a lead byte starts, or 0 when the
      byte cannot start one. */
  function LeadLength(b: Byte): nat {
    if b < 0x80 then 1
    else if 0xC0 <= b < 0xE0 then 2
    else if 0xE0 <= b < 0xF0 then 3
    else if 0xF0 <= b < 0xF8 then 4
    else 0
  }

  function Scalar(n: int): Option<char> {
    if 0 <= n < 0xD800 || 0xE000 <= n < 0x11_0000 then Some(n as char) else None
  }

  /** The code point of a well-formed sequence of `|bs|` bytes. */
  function CodePoint(bs: seq<Byte>): int
    requires 1 <= |bs| <= 4 && LeadLength(bs[0]) == |bs|
  {
    var lead: int := bs[0];
    if |bs| == 1 then lead
    else if |bs| == 2 then (lead - 0xC0) * 64 + Low(bs[1])
    else if |bs| == 3 then ((lead - 0xE0) * 64 + Low(bs[1])) * 64 + Low(bs[2])
    else (((lead - 0xF0) * 64 + Low(bs[1])) * 64 + Low(bs[2])) * 64 + Low(bs[3])
  }

  /** The six payload bits of a continuation byte. */
  function Low(b: Byte): int {
    b as int - 0x80
  }

  predicate Continuations(bs: seq<Byte>) {
    forall i :: 1 <= i < |bs| ==> 0x80 <= bs[i] < 0xC0
  }

  /** Prefixes `p` to a successful result. */
  function Prepend<T>(p: seq<T>, o: Option<seq<T>>): Option<seq<T>> {
    match o
    case None => None
    case Some(v) => Some(p + v)
  }

  /** UTF-8 decoding; `None` on a malformed sequence. */
  function Utf8Decode(bs: seq<Byte>): Option<string>
    decreases |bs|
  {
    if bs == [] then Some([])
    else
      var len := LeadLength(bs[0]);
      if len == 0 || |bs| < len || !Continuations(bs[..len]) then None
      else match Scalar(CodePoint(bs[..len]))
        case None => None
        case Some(c) => Prepend([c], Utf8Decode(bs[len..]))
  }

  lemma Utf8DecodeChar(c: char, rest: seq<Byte>)
    ensures Utf8Decode(Utf8(c) + rest) == Prepend([c], Utf8Decode(rest))
  {
    var bs := Utf8(c) + rest;
    var len := |Utf8(c)|;
    assert bs[..len] == Utf8(c);
    assert bs[len..] == rest;
    Utf8WellFormed(c);
    assert Scalar(CodePoint(Utf8(c))) == Some(c);
  }

  lemma Utf8WellFormed(c: char)
    ensures LeadLength(Utf8(c)[0]) == |Utf8(c)|
    ensures Continuations(Utf8(c))
    ensures CodePoint(Utf8(c)) == c as int
  {
    var n := c as int;
    var q1 := n / 64;
    var q2 := q1 / 64;
    var q3 := q2 / 64;
    assert n == q1 * 64 + n % 64;
    assert q1 == q2 * 64 + q1 % 64;
    assert q2 == q3 * 64 + q2 % 64;
    if n < 0x80 {
    } else if n < 0x800 {
      assert q1 < 32;
    } else if n < 0x10000 {
      assert q2 < 16;
    } else {
      assert q3 <= 4;
    }
  }

  /** UTF-8 decoding inverts UTF-8 encoding. */
  lemma {:induction false} Utf8RoundTrip(s: string)
    ensures Utf8Decode(Utf8String(s)) == Some(s)
  {
    if s != [] {
      Utf8DecodeChar(s[0], Utf8String(s[1..]));
      Utf8RoundTrip(s[1..]);
      assert [s[0]] + s[1..] == s;
    }
  }

  // ---------------------------------------------------------------------------
  // Percent-encoding

  datatype EncodeSet = UriComponent | FormUrlencoded

  predicate IsAsciiAlphanumeric(c: char) {
    ('0' <= c <= '9') || ('A' <= c <= 'Z') || ('a' <= c <= 'z')
  }

  /** Characters written as themselves: the unreserved marks of
      `encodeURIComponent`, or the four the form serializer leaves alone. */
  predicate Keeps(es: EncodeSet, c: char) {
    IsAsciiAlphanumeric(c) || c == '*' || c == '-' || c == '.' || c == '_'
    || (es == UriComponent && (c == '!' || c == '~' || c == '\'' || c == '(' || c == ')'))
  }

  predicate KeepsAll(es: EncodeSet, s: string) {
    forall i :: 0 <= i < |s| ==> Keeps(es, s[i])
  }

  predicate IsUpperHex(c: char) {
    ('0' <= c <= '9') || ('A' <= c <= 'F')
  }

  /** The characters an encoder may write. */
  predicate Emitted(es: EncodeSet, c: char) {
    Keeps(es, c) || c == '%' || IsUpperHex(c) || (es == FormUrlencoded && c == '+')
  }

  function HexDigit(d: nat): (c: char)
    requires d < 16
    ensures IsUpperHex(c)
  {
    "0123456789ABCDEF"[d]
  }

  function HexValue(c: char): Option<nat> {
    if '0' <= c <= '9' then Some(c as int - '0' as int)
    else if 'A' <= c <= 'F' then Some(c as int - 'A' as int + 10)
    else if 'a' <= c <= 'f' then Some(c as int - 'a' as int + 10)
    else None
  }

  function PercentBytes(bs: seq<Byte>): (r: string)
    ensures |r| == 3 * |bs|
    ensures forall i :: 0 <= i < |r| ==> r[i] == '%' || IsUpperHex(r[i])
  {
    if bs == [] then [] else ['%', HexDigit(bs[0] / 16), HexDigit(bs[0] % 16)] + PercentBytes(bs[1..])
  }

  function EncodeChar(es: EncodeSet, c: char): string {
    if Keeps(es, c) then [c]
    else if es == FormUrlencoded && c == ' ' then "+"
    else PercentBytes(Utf8(c))
  }

  /** Percent-encodes `s`: kept characters stay, everything else is
      escaped, so the result is drawn from `Emitted` alone and holds none of
      the query delimiters `&`, `=`, `#` or a space. */
  function Encode(es: EncodeSet, s: string): (r: string)
    ensures forall i :: 0 <= i < |r| ==> Emitted(es, r[i])
    ensures KeepsAll(es, s) ==> r == s
  {
    if s == [] then [] else EncodeChar(es, s[0]) + Encode(es, s[1..])
  }

  /** `encodeURIComponent(s)`. */
  function EncodeUriComponent(s: string): string {
    Encode(UriComponent, s)
  }

  /** An encoded string carries no character that splits a query string. */
  lemma EncodedHasNoDelimiters(es: EncodeSet, s: string)
    ensures '&' !in Encode(es, s) && '=' !in Encode(es, s)
    ensures '#' !in Encode(es, s) && ' ' !in Encode(es, s)
  {
    var r := Encode(es, s);
    forall i | 0 <= i < |r|
      ensures r[i] != '&' && r[i] != '=' && r[i] != '#' && r[i] != ' '
    {
      assert Emitted(es, r[i]);
    }
  }

  /** Reads `%XX` as a byte and `+` as a space; other ASCII characters are
      their own byte. `None` on a broken escape or a non-ASCII character. */
  function PercentDecode(t: string): Option<seq<Byte>>
    decreases |t|
  {
    if t == [] then Some([])
    else if t[0] == '%' then
      if |t| < 3 then None
      else match (HexValue(t[1]), HexValue(t[2]))
        case (Some(h), Some(l)) => Prepend([h * 16 + l], PercentDecode(t[3..]))
        case _ => None
    else if t[0] == '+' then Prepend([0x20], PercentDecode(t[1..]))
    else if t[0] as int < 0x80 then Prepend([t[0] as int], PercentDecode(t[1..]))
    else None
  }

  /** The decoder partner of `Encode`. */
  function Decode(t: string): Option<string> {
    match PercentDecode(t)
    case None => None
    case Some(bs) => Utf8Decode(bs)
  }

  lemma PrependAssoc<T>(p: seq<T>, q: seq<T>, o: Option<seq<T>>)
    ensures Prepend(p, Prepend(q, o)) == Prepend(p + q, o)
  {
    if o.Some? {
      assert p + (q + o.value) == (p + q) + o.value;
    }
  }

  lemma PercentDecodeByte(b: Byte, rest: string)
    ensures PercentDecode(['%', HexDigit(b / 16), HexDigit(b % 16)] + rest)
            == Prepend([b], PercentDecode(rest))
  {
    var t := ['%', HexDigit(b / 16), HexDigit(b % 16)] + rest;
    assert t[1] == HexDigit(b / 16) && t[2] == HexDigit(b % 16);
    assert HexValue(HexDigit(b / 16)) == Some(b / 16);
    assert HexValue(HexDigit(b % 16)) == Some(b % 16);
    assert t[3..] == rest;
  }

  lemma PrependEmpty<T>(o: Option<seq<T>>)
    ensures Prepend([], o) == o
  {
    if o.Some? {
      assert [] + o.value == o.value;
    }
  }

  lemma {:induction false} PercentDecodeBytes(bs: seq<Byte>, rest: string)
    ensures PercentDecode(PercentBytes(bs) + rest) == Prepend(bs, PercentDecode(rest))
  {
    if bs == [] {
      assert PercentBytes(bs) + rest == rest;
      PrependEmpty(PercentDecode(rest));
    } else {
      var b := bs[0];
      var tail := PercentBytes(bs[1..]) + rest;
      assert PercentBytes(bs) + rest == ['%', HexDigit(b / 16), HexDigit(b % 16)] + tail;
      PercentDecodeByte(b, tail);
      PercentDecodeBytes(bs[1..], rest);
      PrependAssoc([b], bs[1..], PercentDecode(rest));
      assert [b] + bs[1..] == bs;
    }
  }

  lemma PercentDecodeChar(es: EncodeSet, c: char, rest: string)
    ensures PercentDecode(EncodeChar(es, c) + rest) == Prepend(Utf8(c), PercentDecode(rest))
  {
    var t := EncodeChar(es, c) + rest;
    if Keeps(es, c) || (es == FormUrlencoded && c == ' ') {
      assert t[1..] == rest;
      assert c as int < 0x80;
    } else {
      PercentDecodeBytes(Utf8(c), rest);
    }
  }

  lemma {:induction false} PercentDecodeEncode(es: EncodeSet, s: string, rest: string)
    ensures PercentDecode(Encode(es, s) + rest) == Prepend(Utf8String(s), PercentDecode(rest))
  {
    if s == [] {
      assert Encode(es, s) + rest == rest;
      PrependEmpty(PercentDecode(rest));
    } else {
      var tail := Encode(es, s[1..]) + rest;
      assert Encode(es, s) + rest == EncodeChar(es, s[0]) + tail;
      PercentDecodeChar(es, s[0], tail);
      PercentDecodeEncode(es, s[1..], rest);
      PrependAssoc(Utf8(s[0]), Utf8String(s[1..]), PercentDecode(rest));
    }
  }

  /** Decoding an encoded string gives back the original text, whichever
      flavour encoded it. */
  lemma EncodeRoundTrip(es: EncodeSet, s: string)
    ensures Decode(Encode(es, s)) == Some(s)
  {
    PercentDecodeEncode(es, s, []);
    assert Encode(es, s) + [] == Encode(es, s);
    assert Utf8String(s) + [] == Utf8String(s);
    Utf8RoundTrip(s);
  }
}
