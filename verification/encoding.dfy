/**
 * The byte encodings the mobile.de helpers go through: UTF-8 (what `Buffer.from(string)`
 * produces), Base64 as defined in section 4 of RFC 4648 (`toString("base64")`), and the
 * percent-encoding of `encodeURIComponent`. Each encoder comes with its decoder and a
 * round-trip lemma.
 */
module Encoding {
  import opened Wrappers
  import opened SeqFacts

  type byte = b: int | 0 <= b < 256

  // ---------------------------------------------------------------- UTF-8

  /** The UTF-8 bytes of one Unicode scalar value. */
  function EncodeScalar(c: char): (r: seq<byte>)
    ensures 1 <= |r| <= 4
    ensures |r| == 1 <==> c as int < 0x80
    ensures |r| == 1 ==> r[0] == c as int
    ensures |r| > 1 ==> forall i | 0 <= i < |r| :: r[i] >= 0x80
  {
    var cp := c as int;
    if cp < 0x80 then [cp]
    else if cp < 0x800 then [0xC0 + cp / 64, 0x80 + cp % 64]
    else if cp < 0x10000 then [0xE0 + cp / 4096, 0x80 + (cp / 64) % 64, 0x80 + cp % 64]
    else [0xF0 + cp / 262144, 0x80 + (cp / 4096) % 64, 0x80 + (cp / 64) % 64, 0x80 + cp % 64]
  }

  /** `Buffer.from(s)`: the UTF-8 encoding of a string. */
  function Utf8Encode(s: string): (r: seq<byte>)
    ensures |r| >= |s|
  {
    if s == "" then [] else EncodeScalar(s[0]) + Utf8Encode(s[1..])
  }

  predicate IsContinuation(b: byte) {
    0x80 <= b < 0xC0
  }

  /** Decodes the scalar value at the start of `b` and says how many bytes it took. */
  function DecodeFirst(b: seq<byte>): (r: Option<(char, nat)>)
    requires |b| > 0
    ensures r.Some? ==> 1 <= r.value.1 <= |b|
  {
    var b0 := b[0] as int;
    if b0 < 0x80 then Some((b0 as char, 1))
    else if 0xC2 <= b0 < 0xE0 && |b| >= 2 && IsContinuation(b[1]) then
      var cp := (b0 - 0xC0) * 64 + (b[1] as int - 0x80);
      Some((cp as char, 2))
    else if 0xE0 <= b0 < 0xF0 && |b| >= 3 && IsContinuation(b[1]) && IsContinuation(b[2]) then
      var cp := (b0 - 0xE0) * 4096 + (b[1] as int - 0x80) * 64 + (b[2] as int - 0x80);
      if 0x800 <= cp && !(0xD800 <= cp < 0xE000) then Some((cp as char, 3)) else None
    else if 0xF0 <= b0 < 0xF5 && |b| >= 4 && IsContinuation(b[1]) && IsContinuation(b[2]) && IsContinuation(b[3]) then
      var cp := (b0 - 0xF0) * 262144 + (b[1] as int - 0x80) * 4096 + (b[2] as int - 0x80) * 64 + (b[3] as int - 0x80);
      if 0x10000 <= cp < 0x110000 then Some((cp as char, 4)) else None
    else None
  }

  /** Strict UTF-8 decoding: `None` on a malformed, overlong or surrogate sequence. */
  function Utf8Decode(b: seq<byte>): Option<string>
    decreases |b|
  {
    if b == [] then Some("")
    else match DecodeFirst(b)
      case None => None
      case Some((c, n)) =>
        match Utf8Decode(b[n..])
        case None => None
        case Some(rest) => Some([c] + rest)
  }

  lemma DivDiv64(x: int)
    requires x >= 0
    ensures (x / 64) / 64 == x / 4096
    ensures ((x / 64) / 64) / 64 == x / 262144
  {
  }

  /** The decoder reads back exactly the bytes one scalar value was encoded to. */
  lemma DecodeFirstOfScalar(c: char, rest: seq<byte>)
    ensures DecodeFirst(EncodeScalar(c) + rest) == Some((c, |EncodeScalar(c)|))
  {
    var cp := c as int;
    if cp < 0x80 {
    } else if cp < 0x800 {
      DecodeTwoBytes(c, rest);
    } else if cp < 0x10000 {
      DecodeThreeBytes(c, rest);
    } else {
      DecodeFourBytes(c, rest);
    }
  }

  /** A scalar value below 0x800 comes back from its two bytes. */
  lemma DecodeTwoBytes(c: char, rest: seq<byte>)
    requires 0x80 <= c as int < 0x800
    ensures DecodeFirst(EncodeScalar(c) + rest) == Some((c, 2))
  {
    var cp := c as int;
    var b := EncodeScalar(c) + rest;
    assert b[0] == 0xC0 + cp / 64 && b[1] == 0x80 + cp % 64;
    assert (b[0] as int - 0xC0) * 64 + (b[1] as int - 0x80) == cp;
  }

  /** A scalar value below 0x10000 comes back from its three bytes. */
  lemma DecodeThreeBytes(c: char, rest: seq<byte>)
    requires 0x800 <= c as int < 0x10000
    ensures DecodeFirst(EncodeScalar(c) + rest) == Some((c, 3))
  {
    var cp := c as int;
    var b := EncodeScalar(c) + rest;
    DivDiv64(cp);
    assert b[0] == 0xE0 + cp / 4096 && b[1] == 0x80 + (cp / 64) % 64 && b[2] == 0x80 + cp % 64;
    assert (b[0] as int - 0xE0) * 4096 + (b[1] as int - 0x80) * 64 + (b[2] as int - 0x80) == cp;
  }

  /** A scalar value from 0x10000 on comes back from its four bytes. */
  lemma DecodeFourBytes(c: char, rest: seq<byte>)
    requires 0x10000 <= c as int
    ensures DecodeFirst(EncodeScalar(c) + rest) == Some((c, 4))
  {
    var cp := c as int;
    var b := EncodeScalar(c) + rest;
    DivDiv64(cp);
    assert b[0] == 0xF0 + cp / 262144 && b[1] == 0x80 + (cp / 4096) % 64;
    assert b[2] == 0x80 + (cp / 64) % 64 && b[3] == 0x80 + cp % 64;
    assert (b[0] as int - 0xF0) * 262144 + (b[1] as int - 0x80) * 4096 + (b[2] as int - 0x80) * 64 + (b[3] as int - 0x80) == cp;
  }

  /** UTF-8 round trip: decoding the encoding of a string gives the string back. */
  lemma {:induction false} Utf8RoundTrip(s: string)
    ensures Utf8Decode(Utf8Encode(s)) == Some(s)
  {
    if s != "" {
      var e := EncodeScalar(s[0]);
      var rest := Utf8Encode(s[1..]);
      DecodeFirstOfScalar(s[0], rest);
      assert (e + rest)[|e|..] == rest;
      Utf8RoundTrip(s[1..]);
      assert [s[0]] + s[1..] == s;
    }
  }

  // ---------------------------------------------------------------- Base64 (RFC 4648, section 4)

  /** The character for a 6-bit value in the Base64 alphabet. */
  function Base64Digit(n: int): (c: char)
    requires 0 <= n < 64
  {
    if n < 26 then ('A' as int + n) as char
    else if n < 52 then ('a' as int + n - 26) as char
    else if n < 62 then ('0' as int + n - 52) as char
    else if n == 62 then '+'
    else '/'
  }

  /** The 6-bit value of a Base64 alphabet character. */
  function Base64Value(c: char): (r: Option<int>)
    ensures r.Some? ==> 0 <= r.value < 64
  {
    if 'A' <= c <= 'Z' then Some(c as int - 'A' as int)
    else if 'a' <= c <= 'z' then Some(c as int - 'a' as int + 26)
    else if '0' <= c <= '9' then Some(c as int - '0' as int + 52)
    else if c == '+' then Some(62)
    else if c == '/' then Some(63)
    else None
  }

  predicate IsBase64Char(c: char) {
    Base64Value(c).Some? || c == '='
  }

  lemma Base64ValueOfDigit(n: int)
    requires 0 <= n < 64
    ensures Base64Value(Base64Digit(n)) == Some(n)
  {
  }

  /** Three bytes as four digits. */
  function EncodeGroup(b0: byte, b1: byte, b2: byte): string {
    [Base64Digit(b0 / 4), Base64Digit((b0 % 4) * 16 + b1 / 16), Base64Digit((b1 % 16) * 4 + b2 / 64), Base64Digit(b2 % 64)]
  }

  /** A final pair of bytes as three digits and one pad character. */
  function EncodePair(b0: byte, b1: byte): string {
    [Base64Digit(b0 / 4), Base64Digit((b0 % 4) * 16 + b1 / 16), Base64Digit((b1 % 16) * 4), '=']
  }

  /** A final single byte as two digits and two pad characters. */
  function EncodeSingle(b0: byte): string {
    [Base64Digit(b0 / 4), Base64Digit((b0 % 4) * 16), '=', '=']
  }

  /**
   * Base64 with padding: every 3 bytes become 4 characters; a final group of 1 or 2
   * bytes becomes 2 or 3 characters followed by "==" or "=".
   */
  function Base64Encode(b: seq<byte>): (r: string)
    ensures |r| == 4 * ((|b| + 2) / 3)
  {
    if |b| == 0 then ""
    else if |b| == 1 then EncodeSingle(b[0])
    else if |b| == 2 then EncodePair(b[0], b[1])
    else EncodeGroup(b[0], b[1], b[2]) + Base64Encode(b[3..])
  }

  /** Decodes one group of four characters; padding is accepted only in the last group. */
  function DecodeQuantum(q: string, last: bool): Option<seq<byte>>
    requires |q| == 4
  {
    var v0, v1, v2, v3 := Base64Value(q[0]), Base64Value(q[1]), Base64Value(q[2]), Base64Value(q[3]);
    if v0.None? || v1.None? then None
    else
      var x0, x1 := v0.value, v1.value;
      if v2.Some? && v3.Some? then
        var x2, x3 := v2.value, v3.value;
        Some([x0 * 4 + x1 / 16, (x1 % 16) * 16 + x2 / 4, (x2 % 4) * 64 + x3])
      else if last && q[2] == '=' && q[3] == '=' && x1 % 16 == 0 then
        Some([x0 * 4 + x1 / 16])
      else if last && v2.Some? && q[3] == '=' && v2.value % 4 == 0 then
        Some([x0 * 4 + x1 / 16, (x1 % 16) * 16 + v2.value / 4])
      else None
  }

  /** Strict Base64 decoding of a padded string. */
  function Base64Decode(s: string): Option<seq<byte>>
    decreases |s|
  {
    if s == "" then Some([])
    else if |s| < 4 then None
    else match DecodeQuantum(s[..4], |s| == 4)
      case None => None
      case Some(head) =>
        match Base64Decode(s[4..])
        case None => None
        case Some(tail) => Some(head + tail)
  }

  /** The arithmetic behind one full group: the three bytes come back out of the four digits. */
  lemma QuantumArithmetic(b0: byte, b1: byte, b2: byte)
    ensures (b0 / 4) * 4 + ((b0 % 4) * 16 + b1 / 16) / 16 == b0
    ensures (((b0 % 4) * 16 + b1 / 16) % 16) * 16 + ((b1 % 16) * 4 + b2 / 64) / 4 == b1
    ensures (((b1 % 16) * 4 + b2 / 64) % 4) * 64 + b2 % 64 == b2
  {
    assert ((b0 % 4) * 16 + b1 / 16) / 16 == b0 % 4;
    assert ((b0 % 4) * 16 + b1 / 16) % 16 == b1 / 16;
    assert ((b1 % 16) * 4 + b2 / 64) / 4 == b1 % 16;
    assert ((b1 % 16) * 4 + b2 / 64) % 4 == b2 / 64;
  }

  /** One full group of four digits decodes to the three bytes it encodes. */
  lemma GroupDecodes(b0: byte, b1: byte, b2: byte, last: bool)
    ensures DecodeQuantum(EncodeGroup(b0, b1, b2), last) == Some([b0, b1, b2])
  {
    var d0, d1, d2, d3 := b0 / 4, (b0 % 4) * 16 + b1 / 16, (b1 % 16) * 4 + b2 / 64, b2 % 64;
    Base64ValueOfDigit(d0);
    Base64ValueOfDigit(d1);
    Base64ValueOfDigit(d2);
    Base64ValueOfDigit(d3);
    QuantumArithmetic(b0, b1, b2);
  }

  /** A final pair: three digits and "=" decode back to the two bytes. */
  lemma PairDecodes(b0: byte, b1: byte)
    ensures DecodeQuantum(EncodePair(b0, b1), true) == Some([b0, b1])
  {
    Base64ValueOfDigit(b0 / 4);
    Base64ValueOfDigit((b0 % 4) * 16 + b1 / 16);
    Base64ValueOfDigit((b1 % 16) * 4);
    QuantumArithmetic(b0, b1, 0);
  }

  /** A final single byte: two digits and "==" decode back to it. */
  lemma SingleDecodes(b0: byte)
    ensures DecodeQuantum(EncodeSingle(b0), true) == Some([b0])
  {
    Base64ValueOfDigit(b0 / 4);
    Base64ValueOfDigit((b0 % 4) * 16);
  }

  /** Decoding a string proceeds one leading group at a time. */
  lemma DecodeLeadingGroup(q: string, rest: string, head: seq<byte>, tail: seq<byte>)
    requires |q| == 4
    requires DecodeQuantum(q, rest == "") == Some(head)
    requires Base64Decode(rest) == Some(tail)
    ensures Base64Decode(q + rest) == Some(head + tail)
  {
    var s := q + rest;
    assert s[..4] == q && s[4..] == rest;
  }

  /** Base64 round trip: decoding the encoding of any byte string gives it back. */
  lemma {:induction false} Base64RoundTrip(b: seq<byte>)
    ensures Base64Decode(Base64Encode(b)) == Some(b)
  {
    if |b| == 1 {
      SingleRoundTrip(b);
    } else if |b| == 2 {
      PairRoundTrip(b);
    } else if |b| >= 3 {
      Base64RoundTrip(b[3..]);
      GroupRoundTrip(b);
    }
  }

  /** The round trip for a single byte. */
  lemma SingleRoundTrip(b: seq<byte>)
    requires |b| == 1
    ensures Base64Decode(Base64Encode(b)) == Some(b)
  {
    SingleDecodes(b[0]);
    DecodeLeadingGroup(EncodeSingle(b[0]), "", [b[0]], []);
    assert EncodeSingle(b[0]) + "" == Base64Encode(b) && [b[0]] + [] == b;
  }

  /** The round trip for two bytes. */
  lemma PairRoundTrip(b: seq<byte>)
    requires |b| == 2
    ensures Base64Decode(Base64Encode(b)) == Some(b)
  {
    PairDecodes(b[0], b[1]);
    DecodeLeadingGroup(EncodePair(b[0], b[1]), "", [b[0], b[1]], []);
    assert EncodePair(b[0], b[1]) + "" == Base64Encode(b) && [b[0], b[1]] + [] == b;
  }

  /** The round trip of a leading full group, given the round trip of the rest. */
  lemma GroupRoundTrip(b: seq<byte>)
    requires |b| >= 3
    requires Base64Decode(Base64Encode(b[3..])) == Some(b[3..])
    ensures Base64Decode(Base64Encode(b)) == Some(b)
  {
    var b0, b1, b2, tail := b[0], b[1], b[2], b[3..];
    var rest := Base64Encode(tail);
    assert Base64Encode(b) == EncodeGroup(b0, b1, b2) + rest;
    GroupThenRestDecodes(b0, b1, b2, rest, tail);
    SplitThree(b);
  }

  /** A sequence of at least three bytes is its first three followed by the rest. */
  lemma SplitThree(b: seq<byte>)
    requires |b| >= 3
    ensures [b[0], b[1], b[2]] + b[3..] == b
  {
  }

  /** A full group followed by a decodable rest decodes to the three bytes and the rest's bytes. */
  lemma GroupThenRestDecodes(b0: byte, b1: byte, b2: byte, rest: string, tail: seq<byte>)
    requires Base64Decode(rest) == Some(tail)
    ensures Base64Decode(EncodeGroup(b0, b1, b2) + rest) == Some([b0, b1, b2] + tail)
  {
    GroupDecodes(b0, b1, b2, rest == "");
    DecodeLeadingGroup(EncodeGroup(b0, b1, b2), rest, [b0, b1, b2], tail);
  }

  /** Every character of an encoding is a Base64 digit or the pad character. */
  lemma {:induction false} Base64Alphabet(b: seq<byte>)
    ensures forall i | 0 <= i < |Base64Encode(b)| :: IsBase64Char(Base64Encode(b)[i])
  {
    if |b| >= 3 {
      Base64Alphabet(b[3..]);
    }
  }

  // ---------------------------------------------------------------- encodeURIComponent

  /** The characters `encodeURIComponent` leaves as they are. */
  predicate IsUnreserved(c: char) {
    || ('A' <= c <= 'Z') || ('a' <= c <= 'z') || ('0' <= c <= '9')
    || c == '-' || c == '_' || c == '.' || c == '!' || c == '~' || c == '*' || c == '\'' || c == '(' || c == ')'
  }

  function HexDigit(n: int): (c: char)
    requires 0 <= n < 16
    ensures IsUnreserved(c)
  {
    if n < 10 then ('0' as int + n) as char else ('A' as int + n - 10) as char
  }

  function HexValue(c: char): Option<int> {
    if '0' <= c <= '9' then Some(c as int - '0' as int)
    else if 'A' <= c <= 'F' then Some(c as int - 'A' as int + 10)
    else if 'a' <= c <= 'f' then Some(c as int - 'a' as int + 10)
    else None
  }

  /** Each byte as `%` and two upper-case hexadecimal digits. */
  function PercentBytes(b: seq<byte>): (r: string)
    ensures |r| == 3 * |b|
    ensures forall i | 0 <= i < |r| :: IsUnreserved(r[i]) || r[i] == '%'
  {
    if b == [] then "" else ['%', HexDigit(b[0] / 16), HexDigit(b[0] % 16)] + PercentBytes(b[1..])
  }

  /** What `encodeURIComponent` turns one character into. */
  function EncodeUriChar(c: char): (r: string)
    ensures r != ""
    ensures forall i | 0 <= i < |r| :: IsUnreserved(r[i]) || r[i] == '%'
  {
    if IsUnreserved(c) then [c] else PercentBytes(EncodeScalar(c))
  }

  /**
   * `encodeURIComponent(s)`: unreserved characters stay, every other character becomes
   * the percent-encoding of its UTF-8 bytes. The result never holds `/`, `?` or `#`, so
   * it stays inside one path segment.
   */
  function EncodeUriComponent(s: string): (r: string)
    ensures forall i | 0 <= i < |r| :: IsUnreserved(r[i]) || r[i] == '%'
    ensures (forall i | 0 <= i < |s| :: IsUnreserved(s[i])) ==> r == s
  {
    if s == "" then "" else EncodeUriChar(s[0]) + EncodeUriComponent(s[1..])
  }

  /** The bytes a percent-encoded string stands for: `%XY` is one byte, an ASCII character itself. */
  function PercentDecodeBytes(s: string): Option<seq<byte>>
    decreases |s|
  {
    if s == "" then Some([])
    else if s[0] == '%' then
      if |s| < 3 || HexValue(s[1]).None? || HexValue(s[2]).None? then None
      else match PercentDecodeBytes(s[3..])
        case None => None
        case Some(tail) => Some([HexValue(s[1]).value * 16 + HexValue(s[2]).value] + tail)
    else if s[0] as int < 0x80 then
      match PercentDecodeBytes(s[1..])
      case None => None
      case Some(tail) => Some([s[0] as int] + tail)
    else None
  }

  /** `decodeURIComponent(s)`: the percent-decoded bytes read as UTF-8. */
  function DecodeUriComponent(s: string): Option<string> {
    match PercentDecodeBytes(s)
    case None => None
    case Some(b) => Utf8Decode(b)
  }

  /** A hexadecimal digit reads back as its value. */
  lemma HexValueOfDigit(n: int)
    requires 0 <= n < 16
    ensures HexValue(HexDigit(n)) == Some(n)
  {
  }

  /** One percent-encoded byte followed by more input decodes to that byte and the rest. */
  lemma PercentByteDecode(x: byte, rest: string, tail: seq<byte>)
    requires PercentDecodeBytes(rest) == Some(tail)
    ensures PercentDecodeBytes(['%', HexDigit(x / 16), HexDigit(x % 16)] + rest) == Some([x] + tail)
  {
    var s := ['%', HexDigit(x / 16), HexDigit(x % 16)] + rest;
    HexValueOfDigit(x / 16);
    HexValueOfDigit(x % 16);
    assert s[0] == '%' && s[1] == HexDigit(x / 16) && s[2] == HexDigit(x % 16) && s[3..] == rest;
  }

  /** Percent-encoded bytes followed by more input decode to those bytes and the rest. */
  lemma {:induction false} PercentBytesDecode(b: seq<byte>, rest: string, tail: seq<byte>)
    requires PercentDecodeBytes(rest) == Some(tail)
    ensures PercentDecodeBytes(PercentBytes(b) + rest) == Some(b + tail)
  {
    if b == [] {
      assert PercentBytes(b) + rest == rest && b + tail == tail;
    } else {
      PercentBytesDecode(b[1..], rest, tail);
      var head := ['%', HexDigit(b[0] / 16), HexDigit(b[0] % 16)];
      AppendAssociative(head, PercentBytes(b[1..]), rest);
      PercentByteDecode(b[0], PercentBytes(b[1..]) + rest, b[1..] + tail);
      AppendAssociative([b[0]], b[1..], tail);
      assert [b[0]] + b[1..] == b;
    }
  }

  /** The percent-decoded bytes of an encoding are the UTF-8 bytes of the text. */
  lemma {:induction false} PercentDecodeOfEncoding(s: string)
    ensures PercentDecodeBytes(EncodeUriComponent(s)) == Some(Utf8Encode(s))
  {
    if s != "" {
      var c := s[0];
      var rest := EncodeUriComponent(s[1..]);
      PercentDecodeOfEncoding(s[1..]);
      if IsUnreserved(c) {
        assert ([c] + rest)[1..] == rest;
      } else {
        PercentBytesDecode(EncodeScalar(c), rest, Utf8Encode(s[1..]));
      }
    }
  }

  /** `decodeURIComponent(encodeURIComponent(s)) == s`. */
  lemma UriComponentRoundTrip(s: string)
    ensures DecodeUriComponent(EncodeUriComponent(s)) == Some(s)
  {
    PercentDecodeOfEncoding(s);
    Utf8RoundTrip(s);
  }
}
