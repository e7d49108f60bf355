/** UTF-8 (RFC 3629) over Unicode scalar values: the encoding a JWT payload
    is written in, and the decoding `decodeURIComponent` applies to the
    octets it unescapes. */
module Utf8 {
  import opened Wrappers
  import opened Text

  // ---------------------------------------------------------------------
  // Encoding
  // ---------------------------------------------------------------------

  /** The one to four octets of a scalar value (RFC 3629, section 3). */
  function EncodeChar(c: char): (bs: seq<Byte>)
    ensures 1 <= |bs| <= 4
  {
    var n := c as int;
    var r0, q1 := n % 64, n / 64;
    var r1, q2 := q1 % 64, q1 / 64;
    var r2, q3 := q2 % 64, q2 / 64;
    if n < 0x80 then [n]
    else if n < 0x800 then [0xC0 + q1, 0x80 + r0]
    else if n < 0x10000 then [0xE0 + q2, 0x80 + r1, 0x80 + r0]
    else [0xF0 + q3, 0x80 + r2, 0x80 + r1, 0x80 + r0]
  }

  function Encode(s: string): (bs: seq<Byte>)
    ensures |bs| >= |s|
  {
    if s == [] then [] else EncodeChar(s[0]) + Encode(s[1..])
  }

  // ---------------------------------------------------------------------
  // Decoding
  // ---------------------------------------------------------------------

  /** The number of octets a lead octet announces: its count of leading one
      bits, or 1 for an ASCII octet; 0 when the octet cannot start a
      sequence (a continuation octet 10xxxxxx, or five or more leading ones). */
  function LeadLength(b: Byte): nat
  {
    if b < 0x80 then 1
    else if b < 0xC0 then 0
    else if b < 0xE0 then 2
    else if b < 0xF0 then 3
    else if b < 0xF8 then 4
    else 0
  }

  predicate IsContinuation(b: Byte) { 0x80 <= b < 0xC0 }

  /** The payload bits of a well-formed sequence, assembled. */
  function SequenceValue(octets: seq<Byte>): int
    requires 1 <= |octets| <= 4
  {
    var o := seq(|octets|, i requires 0 <= i < |octets| => octets[i] as int);
    if |o| == 1 then o[0]
    else if |o| == 2 then (o[0] - 0xC0) * 64 + (o[1] - 0x80)
    else if |o| == 3 then (o[0] - 0xE0) * 4096 + (o[1] - 0x80) * 64 + (o[2] - 0x80)
    else (o[0] - 0xF0) * 262144 + (o[1] - 0x80) * 4096 + (o[2] - 0x80) * 64 + (o[3] - 0x80)
  }

  /** One sequence whose length its lead octet announces, decoded; None when
      a continuation octet is wrong or the value is overlong, a surrogate or
      beyond U+10FFFF (RFC 3629, section 3: none of these is valid UTF-8). */
  function DecodeSequence(octets: seq<Byte>): Option<char>
    requires 1 <= |octets| <= 4 && LeadLength(octets[0]) == |octets|
  {
    if exists i :: 1 <= i < |octets| && !IsContinuation(octets[i]) then None
    else
      var v := SequenceValue(octets);
      if |octets| == 2 && v < 0x80 then None
      else if |octets| == 3 && v < 0x800 then None
      else if |octets| == 4 && v < 0x10000 then None
      else if 0xD800 <= v < 0xE000 || v > 0x10FFFF then None
      else Some(v as char)
  }

  /** Strict UTF-8 decoding of a whole octet string. */
  function Decode(bs: seq<Byte>): (r: Option<string>)
    ensures r.Some? ==> |r.value| <= |bs|
    decreases |bs|
  {
    if bs == [] then Some("")
    else
      var n := LeadLength(bs[0]);
      if n == 0 || |bs| < n then None
      else match DecodeSequence(bs[..n])
        case None => None
        case Some(c) =>
          match Decode(bs[n..])
          case None => None
          case Some(rest) => Some([c] + rest)
  }

  // ---------------------------------------------------------------------
  // Round trips
  // ---------------------------------------------------------------------

  lemma Radix64(n: nat)
    ensures n == n / 64 / 64 / 64 * 262144 + n / 64 / 64 % 64 * 4096 + n / 64 % 64 * 64 + n % 64
  {
    var r0, q1 := n % 64, n / 64;
    var r1, q2 := q1 % 64, q1 / 64;
    var r2, q3 := q2 % 64, q2 / 64;
    assert n == q1 * 64 + r0;
    assert q1 == q2 * 64 + r1;
    assert q2 == q3 * 64 + r2;
  }

  /** Decoding the octets of one character gives the character back. */
  lemma DecodeEncodeChar(c: char)
    ensures LeadLength(EncodeChar(c)[0]) == |EncodeChar(c)|
    ensures DecodeSequence(EncodeChar(c)) == Some(c)
  {
    var n := c as int;
    Radix64(n);
    var bs := EncodeChar(c);
    assert SequenceValue(bs) == n;
  }

  lemma {:induction false} DecodeEncode(s: string)
    ensures Decode(Encode(s)) == Some(s)
  {
    if s != [] {
      var head := EncodeChar(s[0]);
      DecodeEncodeChar(s[0]);
      DecodeEncode(s[1..]);
      var bs := Encode(s);
      assert bs[..|head|] == head && bs[|head|..] == Encode(s[1..]);
      assert [s[0]] + s[1..] == s;
    }
  }

  /** A valid sequence is the encoding of the character it decodes to: the
      encoder is the only way to write a character. */
  lemma EncodeDecodeSequence(octets: seq<Byte>, c: char)
    requires 1 <= |octets| <= 4 && LeadLength(octets[0]) == |octets|
    requires DecodeSequence(octets) == Some(c)
    ensures EncodeChar(c) == octets
  {
    var n := c as int;
    assert n == SequenceValue(octets);
    var o := seq(|octets|, i requires 0 <= i < |octets| => octets[i] as int);
    assert forall i :: 1 <= i < |o| ==> 0x80 <= o[i] < 0xC0;
    if |o| == 2 {
      assert n / 64 == o[0] - 0xC0 && n % 64 == o[1] - 0x80;
    } else if |o| == 3 {
      var q := (o[0] - 0xE0) * 64 + (o[1] - 0x80);
      assert n == q * 64 + (o[2] - 0x80);
      assert n / 64 == q && n % 64 == o[2] - 0x80;
      assert q / 64 == o[0] - 0xE0 && q % 64 == o[1] - 0x80;
    } else if |o| == 4 {
      var q2 := (o[0] - 0xF0) * 64 + (o[1] - 0x80);
      var q1 := q2 * 64 + (o[2] - 0x80);
      assert n == q1 * 64 + (o[3] - 0x80);
      assert n / 64 == q1 && n % 64 == o[3] - 0x80;
      assert q1 / 64 == q2 && q1 % 64 == o[2] - 0x80;
      assert q2 / 64 == o[0] - 0xF0 && q2 % 64 == o[1] - 0x80;
    }
  }

  /** Strict decoding is the exact inverse of encoding: whatever decodes,
      re-encodes to the same octets. */
  lemma {:induction false} EncodeDecode(bs: seq<Byte>, s: string)
    requires Decode(bs) == Some(s)
    ensures Encode(s) == bs
    decreases |bs|
  {
    if bs != [] {
      var n, c, rest := DecodeStep(bs, s);
      EncodeDecode(bs[n..], rest);
      EncodeCons(c, rest);
      assert bs == bs[..n] + bs[n..];
    }
  }

  /** What a successful decoding of a non-empty octet string consists of:
      the encoding of its first character, then the rest. */
  lemma DecodeStep(bs: seq<Byte>, s: string) returns (n: nat, c: char, rest: string)
    requires bs != [] && Decode(bs) == Some(s)
    ensures 1 <= n <= |bs| && EncodeChar(c) == bs[..n]
    ensures Decode(bs[n..]) == Some(rest) && s == [c] + rest
  {
    n := LeadLength(bs[0]);
    c := DecodeSequence(bs[..n]).value;
    rest := Decode(bs[n..]).value;
    EncodeDecodeSequence(bs[..n], c);
  }

  lemma EncodeCons(c: char, rest: string)
    ensures Encode([c] + rest) == EncodeChar(c) + Encode(rest)
  {
    assert ([c] + rest)[0] == c && ([c] + rest)[1..] == rest;
  }

  /** Encoding is per character, so it distributes over concatenation. */
  lemma {:induction false} EncodeAppend(a: string, b: string)
    ensures Encode(a + b) == Encode(a) + Encode(b)
  {
    if a == [] {
      assert a + b == b;
    } else {
      assert (a + b)[0] == a[0] && (a + b)[1..] == a[1..] + b;
      EncodeAppend(a[1..], b);
    }
  }

  /** Different texts have different encodings. */
  lemma EncodeInjective(a: string, b: string)
    requires Encode(a) == Encode(b)
    ensures a == b
  {
    DecodeEncode(a);
    DecodeEncode(b);
  }
}
