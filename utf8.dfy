/**
 * UTF-8 (RFC 3629): the octets String.getBytes() produces for a text when the
 * platform charset is UTF-8, and the reading that recovers the text.
 */
module Utf8 {
  import opened Wrappers
  import opened Bytes

  predicate IsScalarValue(cp: int) {
    (0 <= cp < 0xD800) || (0xE000 <= cp < 0x11_0000)
  }

  predicate IsContinuation(b: byte) {
    0x80 <= b < 0xC0
  }

  /** The one to four octets of one character. */
  function EncodeChar(c: char): (r: seq<byte>)
    ensures 1 <= |r| <= 4
  {
    var cp := c as int;
    if cp < 0x80 then [cp]
    else if cp < 0x800 then [0xC0 + cp / 64, 0x80 + cp % 64]
    else if cp < 0x1_0000 then [0xE0 + cp / 64 / 64, 0x80 + cp / 64 % 64, 0x80 + cp % 64]
    else [0xF0 + cp / 64 / 64 / 64, 0x80 + cp / 64 / 64 % 64, 0x80 + cp / 64 % 64, 0x80 + cp % 64]
  }

  /** The octets of a text, character by character. */
  function Encode(s: string): (r: seq<byte>)
    ensures |s| <= |r| <= 4 * |s|
    decreases |s|
  {
    if s == [] then [] else EncodeChar(s[0]) + Encode(s[1..])
  }

  function ToChar(cp: int, n: nat): Option<(char, nat)> {
    if IsScalarValue(cp) then Some((cp as char, n)) else None
  }

  /** The first character of a non-empty octet sequence and the number of octets it takes. */
  function DecodeFirst(b: seq<byte>): (r: Option<(char, nat)>)
    requires b != []
    ensures r.Some? ==> 1 <= r.value.1 <= |b|
  {
    var b0: int := b[0];
    if b0 < 0x80 then
      ToChar(b0, 1)
    else if 0xC0 <= b0 < 0xE0 && |b| >= 2 && IsContinuation(b[1]) then
      ToChar((b0 - 0xC0) * 64 + (b[1] as int - 0x80), 2)
    else if 0xE0 <= b0 < 0xF0 && |b| >= 3 && IsContinuation(b[1]) && IsContinuation(b[2]) then
      ToChar(((b0 - 0xE0) * 64 + (b[1] as int - 0x80)) * 64 + (b[2] as int - 0x80), 3)
    else if 0xF0 <= b0 < 0xF8 && |b| >= 4 && IsContinuation(b[1]) && IsContinuation(b[2]) && IsContinuation(b[3]) then
      ToChar((((b0 - 0xF0) * 64 + (b[1] as int - 0x80)) * 64 + (b[2] as int - 0x80)) * 64 + (b[3] as int - 0x80), 4)
    else
      None
  }

  /** The text of a UTF-8 octet sequence, or None when it is not one. */
  function Decode(b: seq<byte>): (r: Option<string>)
    decreases |b|
  {
    if b == [] then Some([])
    else
      match DecodeFirst(b)
      case None => None
      case Some((c, n)) =>
        match Decode(b[n..])
        case None => None
        case Some(rest) => Some([c] + rest)
  }

  lemma DecodeFirstOfEncodeChar(c: char, tail: seq<byte>)
    ensures DecodeFirst(EncodeChar(c) + tail) == Some((c, |EncodeChar(c)|))
  {
    var cp := c as int;
    var b := EncodeChar(c) + tail;
    if cp < 0x80 {
    } else if cp < 0x800 {
      assert (b[0] as int - 0xC0) * 64 + (b[1] as int - 0x80) == cp;
    } else if cp < 0x1_0000 {
      var q := cp / 64;
      assert cp == q * 64 + cp % 64;
      assert q == q / 64 * 64 + q % 64;
      assert ((b[0] as int - 0xE0) * 64 + (b[1] as int - 0x80)) * 64 + (b[2] as int - 0x80) == cp;
    } else {
      var q := cp / 64;
      var q2 := q / 64;
      assert cp == q * 64 + cp % 64;
      assert q == q2 * 64 + q % 64;
      assert q2 == q2 / 64 * 64 + q2 % 64;
      assert (((b[0] as int - 0xF0) * 64 + (b[1] as int - 0x80)) * 64 + (b[2] as int - 0x80)) * 64 + (b[3] as int - 0x80) == cp;
    }
  }

  /** Decoding the octets of any text gives the text back. */
  lemma {:induction false} RoundTrip(s: string)
    ensures Decode(Encode(s)) == Some(s)
    decreases |s|
  {
    if s != [] {
      var head := EncodeChar(s[0]);
      var b := Encode(s);
      assert b == head + Encode(s[1..]);
      DecodeFirstOfEncodeChar(s[0], Encode(s[1..]));
      assert b[|head|..] == Encode(s[1..]);
      RoundTrip(s[1..]);
      assert s == [s[0]] + s[1..];
    }
  }

  /** Only the empty text has no octets. */
  lemma EncodeEmpty(s: string)
    ensures Encode(s) == [] <==> s == []
  {
  }
}
