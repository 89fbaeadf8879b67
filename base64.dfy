/**
 * Base64 as defined in section 4 of RFC 4648: every three octets become four
 * characters of the 64-character alphabet, a final one or two octets are
 * padded with '='. Decode is the reading a consumer of the text applies.
 */
module Base64 {
  import opened Wrappers
  import opened Bytes

  predicate IsAlphabetChar(c: char) {
    ('A' <= c <= 'Z') || ('a' <= c <= 'z') || ('0' <= c <= '9') || c == '+' || c == '/'
  }

  /** The character for a 6-bit value (Table 1 of RFC 4648). */
  function SextetChar(v: nat): (c: char)
    requires v < 64
    ensures IsAlphabetChar(c)
  {
    if v < 26 then ('A' as int + v) as char
    else if v < 52 then ('a' as int + (v - 26)) as char
    else if v < 62 then ('0' as int + (v - 52)) as char
    else if v == 62 then '+'
    else '/'
  }

  /** The 6-bit value of an alphabet character. */
  function CharSextet(c: char): (r: Option<nat>)
    ensures r.Some? <==> IsAlphabetChar(c)
    ensures r.Some? ==> r.value < 64 && SextetChar(r.value) == c
  {
    if 'A' <= c <= 'Z' then Some(c as int - 'A' as int)
    else if 'a' <= c <= 'z' then Some(c as int - 'a' as int + 26)
    else if '0' <= c <= '9' then Some(c as int - '0' as int + 52)
    else if c == '+' then Some(62)
    else if c == '/' then Some(63)
    else None
  }

  lemma SextetRoundTrip(v: nat)
    requires v < 64
    ensures CharSextet(SextetChar(v)) == Some(v)
  {
  }

  function EncodeThree(b0: byte, b1: byte, b2: byte): (s: string)
    ensures |s| == 4 && forall k | 0 <= k < 4 :: IsAlphabetChar(s[k])
  {
    [SextetChar(b0 / 4), SextetChar((b0 % 4) * 16 + b1 / 16), SextetChar((b1 % 16) * 4 + b2 / 64), SextetChar(b2 % 64)]
  }

  function EncodeTwo(b0: byte, b1: byte): (s: string)
    ensures |s| == 4 && s[3] == '=' && forall k | 0 <= k < 3 :: IsAlphabetChar(s[k])
  {
    [SextetChar(b0 / 4), SextetChar((b0 % 4) * 16 + b1 / 16), SextetChar((b1 % 16) * 4), '=']
  }

  function EncodeOne(b0: byte): (s: string)
    ensures |s| == 4 && s[2] == '=' && s[3] == '=' && forall k | 0 <= k < 2 :: IsAlphabetChar(s[k])
  {
    [SextetChar(b0 / 4), SextetChar((b0 % 4) * 16), '=', '=']
  }

  /** The base64 text of the octets, with padding. */
  function Encode(b: seq<byte>): (s: string)
    ensures |s| == 4 * ((|b| + 2) / 3)
    ensures forall k | 0 <= k < |s| :: IsAlphabetChar(s[k]) || s[k] == '='
    decreases |b|
  {
    if |b| == 0 then []
    else if |b| == 1 then EncodeOne(b[0])
    else if |b| == 2 then EncodeTwo(b[0], b[1])
    else EncodeThree(b[0], b[1], b[2]) + Encode(b[3..])
  }

  /** The octets of a base64 text, or None when it is not one. */
  function Decode(s: string): (r: Option<seq<byte>>)
    decreases |s|
  {
    if |s| == 0 then Some([])
    else if |s| < 4 then None
    else
      var v0, v1, v2, v3 := CharSextet(s[0]), CharSextet(s[1]), CharSextet(s[2]), CharSextet(s[3]);
      if v0.None? || v1.None? then None
      else if |s| == 4 && s[2] == '=' && s[3] == '=' then
        Some([v0.value * 4 + v1.value / 16])
      else if v2.None? then None
      else if |s| == 4 && s[3] == '=' then
        Some([v0.value * 4 + v1.value / 16, (v1.value % 16) * 16 + v2.value / 4])
      else if v3.None? then None
      else
        match Decode(s[4..])
        case None => None
        case Some(rest) =>
          Some([v0.value * 4 + v1.value / 16, (v1.value % 16) * 16 + v2.value / 4, (v2.value % 4) * 64 + v3.value] + rest)
  }

  /** Encoding is empty exactly for no octets, and never contains '*'. */
  lemma EncodeShape(b: seq<byte>)
    ensures Encode(b) == [] <==> b == []
    ensures '*' !in Encode(b)
  {
  }

  lemma RoundTripOne(b0: byte)
    ensures Decode(EncodeOne(b0)) == Some([b0])
  {
    var v0, v1 := b0 / 4, (b0 % 4) * 16;
    SextetRoundTrip(v0);
    SextetRoundTrip(v1);
  }

  lemma RoundTripTwo(b0: byte, b1: byte)
    ensures Decode(EncodeTwo(b0, b1)) == Some([b0, b1])
  {
    var v0, v1, v2 := b0 / 4, (b0 % 4) * 16 + b1 / 16, (b1 % 16) * 4;
    SextetRoundTrip(v0);
    SextetRoundTrip(v1);
    SextetRoundTrip(v2);
    assert v0 * 4 + v1 / 16 == b0;
    assert (v1 % 16) * 16 + v2 / 4 == b1;
  }

  lemma DecodeThree(b0: byte, b1: byte, b2: byte, tail: string)
    requires Decode(tail).Some?
    ensures Decode(EncodeThree(b0, b1, b2) + tail) == Some([b0, b1, b2] + Decode(tail).value)
  {
    var v0, v1, v2, v3 := b0 / 4, (b0 % 4) * 16 + b1 / 16, (b1 % 16) * 4 + b2 / 64, b2 % 64;
    SextetRoundTrip(v0);
    SextetRoundTrip(v1);
    SextetRoundTrip(v2);
    SextetRoundTrip(v3);
    var s := EncodeThree(b0, b1, b2) + tail;
    assert s[4..] == tail;
    assert v0 * 4 + v1 / 16 == b0;
    assert (v1 % 16) * 16 + v2 / 4 == b1;
    assert (v2 % 4) * 64 + v3 == b2;
  }

  /** Decoding the encoding of any octets gives them back. */
  lemma {:induction false} RoundTrip(b: seq<byte>)
    ensures Decode(Encode(b)) == Some(b)
    decreases |b|
  {
    if |b| == 1 {
      assert Encode(b) == EncodeOne(b[0]) && b == [b[0]];
      RoundTripOne(b[0]);
    } else if |b| == 2 {
      assert Encode(b) == EncodeTwo(b[0], b[1]) && b == [b[0], b[1]];
      RoundTripTwo(b[0], b[1]);
    } else if |b| >= 3 {
      assert Encode(b) == EncodeThree(b[0], b[1], b[2]) + Encode(b[3..]);
      assert b == [b[0], b[1], b[2]] + b[3..];
      RoundTrip(b[3..]);
      DecodeThree(b[0], b[1], b[2], Encode(b[3..]));
    }
  }
}
