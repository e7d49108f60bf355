/** The byte-to-text step of the JWT decoder: every byte `atob` produced is
    written as a `%xx` escape (RFC 3986, section 2.1) with the
    `('00' + hex).slice(-2)` idiom, and `decodeURIComponent` (ECMAScript's
    Decode operation with an empty reserved set) reads the escapes back as
    UTF-8. */
module Uri {
  import opened Wrappers
  import opened Text
  import Utf8

  // ---------------------------------------------------------------------
  // Escaping: '%' + ('00' + b.toString(16)).slice(-2)
  // ---------------------------------------------------------------------

  function Hex2(b: Byte): string
  {
    SliceLast("00" + Hex(b), 2)
  }

  /** The escape for one byte. */
  function Escape(b: Byte): string
  {
    "%" + Hex2(b)
  }

  /** Each escape is '%' and two lower-case hex digits whose value is the
      byte: the zero-padding idiom never drops or adds a digit. */
  lemma EscapeDigits(b: Byte)
    ensures Escape(b) == ['%', DigitChar(b / 16), DigitChar(b % 16)]
    ensures |Escape(b)| == 3
    ensures HexDigitValue(Escape(b)[1]) * 16 + HexDigitValue(Escape(b)[2]) == b
    ensures forall i :: 1 <= i < 3 ==> '0' <= Escape(b)[i] <= '9' || 'a' <= Escape(b)[i] <= 'f'
  {
    DigitCharValue(b / 16);
    DigitCharValue(b % 16);
    if b >= 16 {
      assert Hex(b) == Hex(b / 16) + [DigitChar(b % 16)];
      assert Hex(b / 16) == [DigitChar(b / 16)];
    }
  }

  lemma EscapeLength(b: Byte)
    ensures |Escape(b)| == 3
  {
    assert |"00" + Hex(b)| >= 2;
  }

  /** `bytes.map(escape).join('')`. */
  function PercentString(bs: seq<Byte>): (r: string)
    ensures |r| == 3 * |bs|
  {
    if bs == [] then ""
    else
      EscapeLength(bs[0]);
      Escape(bs[0]) + PercentString(bs[1..])
  }

  lemma {:induction false} PercentStringAppend(a: seq<Byte>, b: seq<Byte>)
    ensures PercentString(a + b) == PercentString(a) + PercentString(b)
  {
    if a == [] {
      assert a + b == b;
    } else {
      assert (a + b)[0] == a[0] && (a + b)[1..] == a[1..] + b;
      PercentStringAppend(a[1..], b);
      calc {
        PercentString(a + b);
        Escape(a[0]) + PercentString(a[1..] + b);
        Escape(a[0]) + (PercentString(a[1..]) + PercentString(b));
        (Escape(a[0]) + PercentString(a[1..])) + PercentString(b);
      }
    }
  }

  /** The triple at position i is the escape of byte i. */
  lemma {:induction false} PercentStringAt(bs: seq<Byte>, i: int)
    requires 0 <= i < |bs|
    ensures |PercentString(bs)| == 3 * |bs|
    ensures PercentString(bs)[3 * i..3 * i + 3] == Escape(bs[i])
  {
    var e, rest := Escape(bs[0]), PercentString(bs[1..]);
    EscapeLength(bs[0]);
    assert PercentString(bs) == e + rest;
    if i == 0 {
      assert (e + rest)[..3] == e;
    } else {
      PercentStringAt(bs[1..], i - 1);
      var k := 3 * (i - 1);
      assert 3 * i == k + 3;
      assert (e + rest)[k + 3..k + 6] == rest[k..k + 3];
    }
  }

  // ---------------------------------------------------------------------
  // decodeURIComponent
  // ---------------------------------------------------------------------

  predicate IsHexDigit(c: char) { HexDigitValue(c) >= 0 }

  /** The byte of a `%XX` escape at the start of `t` (either case of hex
      digit), None when `t` does not start with one. */
  function ParseEscape(t: string): Option<Byte>
  {
    if |t| < 3 || t[0] != '%' || !IsHexDigit(t[1]) || !IsHexDigit(t[2]) then None
    else Some(HexDigitValue(t[1]) * 16 + HexDigitValue(t[2]))
  }

  /** `k` consecutive escapes at the start of `t`. */
  function ParseEscapes(t: string, k: nat): (r: Option<seq<Byte>>)
    ensures r.Some? ==> |r.value| == k
  {
    if k == 0 then Some([])
    else match ParseEscape(t)
      case None => None
      case Some(b) =>
        match ParseEscapes(t[3..], k - 1)
        case None => None
        case Some(rest) => Some([b] + rest)
  }

  function Prepend(c: char, r: Option<string>): Option<string>
  {
    match r
    case None => None
    case Some(t) => Some([c] + t)
  }

  /** `decodeURIComponent(s)`: None where it throws URIError. A character
      other than '%' is copied; an escape starts a UTF-8 sequence whose
      remaining octets must follow as escapes, and the sequence must be
      valid UTF-8. */
  function DecodeURIComponent(s: string): (r: Option<string>)
    ensures r.Some? ==> |r.value| <= |s|
    ensures '%' !in s ==> r == Some(s)
    decreases |s|
  {
    if s == [] then Some("")
    else if s[0] != '%' then
      assert s == [s[0]] + s[1..];
      assert '%' !in s ==> '%' !in s[1..];
      Prepend(s[0], DecodeURIComponent(s[1..]))
    else match ParseEscape(s)
      case None => None
      case Some(b) =>
        var n := Utf8.LeadLength(b);
        if n == 0 || |s| < 3 * n then None
        else match ParseEscapes(s[3..3 * n], n - 1)
          case None => None
          case Some(more) =>
            match Utf8.DecodeSequence([b] + more)
            case None => None
            case Some(c) => Prepend(c, DecodeURIComponent(s[3 * n..]))
  }

  // ---------------------------------------------------------------------
  // The pipeline equals UTF-8 decoding
  // ---------------------------------------------------------------------

  lemma ParseEscapeEscape(b: Byte, rest: string)
    ensures ParseEscape(Escape(b) + rest) == Some(b)
  {
    EscapeDigits(b);
    var t := Escape(b) + rest;
    assert t[0] == '%' && t[1] == Escape(b)[1] && t[2] == Escape(b)[2];
  }

  lemma {:induction false} ParseEscapesPercent(bs: seq<Byte>)
    ensures ParseEscapes(PercentString(bs), |bs|) == Some(bs)
  {
    if bs != [] {
      var t := PercentString(bs);
      EscapeDigits(bs[0]);
      ParseEscapeEscape(bs[0], PercentString(bs[1..]));
      assert t[3..] == PercentString(bs[1..]);
      ParseEscapesPercent(bs[1..]);
      assert [bs[0]] + bs[1..] == bs;
    }
  }

  /** Writing bytes as escapes and handing them to `decodeURIComponent` is
      exactly strict UTF-8 decoding of the bytes: same text when they are
      valid UTF-8, an error (URIError) when they are not. */
  lemma {:induction false} DecodePercentString(bs: seq<Byte>)
    ensures DecodeURIComponent(PercentString(bs)) == Utf8.Decode(bs)
    decreases |bs|
  {
    if bs != [] {
      ParseEscapeEscape(bs[0], PercentString(bs[1..]));
      var n := Utf8.LeadLength(bs[0]);
      if n != 0 && |bs| >= n {
        PercentSlices(bs, n);
        ParseEscapesPercent(bs[1..n]);
        assert [bs[0]] + bs[1..n] == bs[..n];
        DecodePercentString(bs[n..]);
      }
    }
  }

  /** The escapes of the first n bytes and of the rest sit at fixed
      offsets of the escaped text. */
  lemma PercentSlices(bs: seq<Byte>, n: nat)
    requires 1 <= n <= |bs|
    ensures PercentString(bs)[3 * n..] == PercentString(bs[n..])
    ensures PercentString(bs)[3..3 * n] == PercentString(bs[1..n])
  {
    PercentCut(bs, n);
    PercentCut(bs[..n], 1);
    assert bs[..n][1..] == bs[1..n];
    var whole := PercentString(bs);
    assert whole[3..3 * n] == whole[..3 * n][3..];
  }

  /** The escapes of the first n bytes and of the rest. */
  lemma PercentCut(bs: seq<Byte>, n: nat)
    requires n <= |bs|
    ensures PercentString(bs)[..3 * n] == PercentString(bs[..n])
    ensures PercentString(bs)[3 * n..] == PercentString(bs[n..])
  {
    assert bs == bs[..n] + bs[n..];
    PercentSplit(bs[..n], bs[n..]);
  }

  /** The escapes of a concatenation, cut at the end of the first part. */
  lemma PercentSplit(a: seq<Byte>, b: seq<Byte>)
    ensures PercentString(a + b)[..3 * |a|] == PercentString(a)
    ensures PercentString(a + b)[3 * |a|..] == PercentString(b)
  {
    PercentStringAppend(a, b);
  }

  /** Text written in UTF-8 comes back unchanged through the escapes. */
  lemma DecodePercentUtf8(text: string)
    ensures DecodeURIComponent(PercentString(Utf8.Encode(text))) == Some(text)
  {
    DecodePercentString(Utf8.Encode(text));
    Utf8.DecodeEncode(text);
  }
}
