/** Base64 as the decoder sees it: the browser's `atob` (the "forgiving
    base64 decode" of the WHATWG Infra standard), together with the
    RFC 4648 encoders that produce what it reads: the padded standard
    alphabet of section 4 (`digest('base64')`) and the unpadded URL-safe
    alphabet of section 5 used by JWS compact serialisation (RFC 7515,
    section 2). */
module Base64 {
  import opened Wrappers
  import opened Text

  // ---------------------------------------------------------------------
  // Alphabets
  // ---------------------------------------------------------------------

  /** Value of a character of the standard alphabet (RFC 4648 section 4),
      -1 for any other character. */
  function StdValue(c: char): (v: int)
    ensures -1 <= v < 64
  {
    if 'A' <= c <= 'Z' then c as int - 'A' as int
    else if 'a' <= c <= 'z' then c as int - 'a' as int + 26
    else if '0' <= c <= '9' then c as int - '0' as int + 52
    else if c == '+' then 62
    else if c == '/' then 63
    else -1
  }

  predicate IsStdChar(c: char) { StdValue(c) >= 0 }

  predicate AllStd(s: string) { forall i :: 0 <= i < |s| ==> IsStdChar(s[i]) }

  /** The character for a 6-bit value, in the URL-safe alphabet of section 5
      when `url` holds, otherwise in the standard one. */
  function Digit(v: int, url: bool): char
    requires 0 <= v < 64
  {
    if v < 26 then ('A' as int + v) as char
    else if v < 52 then ('a' as int + v - 26) as char
    else if v < 62 then ('0' as int + v - 52) as char
    else if v == 62 then (if url then '-' else '+')
    else (if url then '_' else '/')
  }

  lemma DigitValue(v: int)
    requires 0 <= v < 64
    ensures StdValue(Digit(v, false)) == v
  {
  }

  // ---------------------------------------------------------------------
  // The alphabet map of jwt-utils: replace(/-/g, '+').replace(/_/g, '/')
  // ---------------------------------------------------------------------

  /** `s.replace(/x/g, y)` for single characters. */
  function ReplaceAll(s: string, x: char, y: char): string
  {
    if s == [] then ""
    else [if s[0] == x then y else s[0]] + ReplaceAll(s[1..], x, y)
  }

  lemma {:induction false} ReplaceAllAt(s: string, x: char, y: char)
    ensures |ReplaceAll(s, x, y)| == |s|
    ensures forall i :: 0 <= i < |s| ==> ReplaceAll(s, x, y)[i] == if s[i] == x then y else s[i]
  {
    if s != [] {
      ReplaceAllAt(s[1..], x, y);
    }
  }

  /** The URL-safe alphabet mapped onto the standard one. */
  function UrlToStd(s: string): (r: string)
    ensures |r| == |s|
    ensures forall i :: 0 <= i < |s| ==>
      r[i] == (if s[i] == '-' then '+' else if s[i] == '_' then '/' else s[i])
    ensures '-' !in r && '_' !in r
  {
    ReplaceAllAt(s, '-', '+');
    ReplaceAllAt(ReplaceAll(s, '-', '+'), '_', '/');
    ReplaceAll(ReplaceAll(s, '-', '+'), '_', '/')
  }

  // ---------------------------------------------------------------------
  // atob: forgiving-base64 decode
  // ---------------------------------------------------------------------

  /** ASCII whitespace: TAB, LF, FF, CR and SPACE. */
  predicate IsAsciiWhitespace(c: char)
  {
    c == '\t' || c == '\n' || c as int == 12 || c == '\r' || c == ' '
  }

  function RemoveWhitespace(s: string): (r: string)
    ensures |r| <= |s|
    ensures forall c :: c in r ==> c in s && !IsAsciiWhitespace(c)
    ensures (forall c :: c in s ==> !IsAsciiWhitespace(c)) ==> r == s
  {
    if s == [] then ""
    else if IsAsciiWhitespace(s[0]) then RemoveWhitespace(s[1..])
    else [s[0]] + RemoveWhitespace(s[1..])
  }

  /** Drop one or two trailing '=' (only applied when the length is a
      multiple of four). */
  function StripPadding(s: string): string
  {
    if |s| >= 2 && s[|s| - 2..] == "==" then s[..|s| - 2]
    else if |s| >= 1 && s[|s| - 1] == '=' then s[..|s| - 1]
    else s
  }

  /** The bytes of one group of two to four characters. Trailing bits of a
      short group are discarded without being checked, as `atob` does. */
  function DecodeGroup(g: string): (bs: seq<Byte>)
    requires 2 <= |g| <= 4 && AllStd(g)
    ensures |bs| == |g| - 1
  {
    var v0, v1 := StdValue(g[0]), StdValue(g[1]);
    var first := [v0 * 4 + v1 / 16];
    if |g| == 2 then first
    else
      var v2 := StdValue(g[2]);
      var second := first + [v1 % 16 * 16 + v2 / 4];
      if |g| == 3 then second
      else second + [v2 % 4 * 64 + StdValue(g[3])]
  }

  function DecodeGroups(u: string): (bs: seq<Byte>)
    requires AllStd(u) && |u| % 4 != 1
    ensures |bs| == 3 * |u| / 4
  {
    if |u| == 0 then []
    else if |u| < 4 then DecodeGroup(u)
    else DecodeGroup(u[..4]) + DecodeGroups(u[4..])
  }

  /** `atob(s)`: None where `atob` throws InvalidCharacterError. */
  function Atob(s: string): (r: Option<seq<Byte>>)
  {
    var t := RemoveWhitespace(s);
    var u := if |t| % 4 == 0 then StripPadding(t) else t;
    if |u| % 4 == 1 || !AllStd(u) then None
    else Some(DecodeGroups(u))
  }

  /** A character outside the standard alphabet, '=' and whitespace makes
      `atob` throw: in particular the URL-safe '-' and '_', which is why the
      alphabet map must run first. */
  lemma AtobRejectsForeignChar(s: string, i: int)
    requires 0 <= i < |s|
    requires !IsStdChar(s[i]) && s[i] != '=' && !IsAsciiWhitespace(s[i])
    ensures Atob(s) == None
  {
    var t := RemoveWhitespace(s);
    RemoveWhitespaceKeeps(s, i);
    var j :| 0 <= j < |t| && t[j] == s[i];
    var u := if |t| % 4 == 0 then StripPadding(t) else t;
    StripPaddingKeeps(t, j);
    assert !IsStdChar(u[j]);
  }

  lemma StripPaddingKeeps(t: string, j: int)
    requires 0 <= j < |t| && t[j] != '='
    ensures j < |StripPadding(t)| && StripPadding(t)[j] == t[j]
  {
    if |t| >= 2 && t[|t| - 2..] == "==" {
      assert t[|t| - 2] == '=' && t[|t| - 1] == '=';
    }
  }

  lemma {:induction false} RemoveWhitespaceKeeps(s: string, i: int)
    requires 0 <= i < |s| && !IsAsciiWhitespace(s[i])
    ensures s[i] in RemoveWhitespace(s)
  {
    if i > 0 {
      RemoveWhitespaceKeeps(s[1..], i - 1);
    }
  }

  /** After whitespace removal, a length of the form 4k+1 is rejected. */
  lemma AtobRejectsLength(s: string)
    requires (forall c :: c in s ==> !IsAsciiWhitespace(c)) && |s| % 4 == 1
    ensures Atob(s) == None
  {
  }

  // ---------------------------------------------------------------------
  // Encoders (RFC 4648)
  // ---------------------------------------------------------------------

  /** The four characters of one full group of three bytes. */
  function Quad(b0: Byte, b1: Byte, b2: Byte, url: bool): (q: string)
    ensures |q| == 4
  {
    [Digit(b0 / 4, url), Digit(b0 % 4 * 16 + b1 / 16, url),
     Digit(b1 % 16 * 4 + b2 / 64, url), Digit(b2 % 64, url)]
  }

  /** Base64 without padding, in the alphabet chosen by `url`. */
  function EncodeUnpadded(bs: seq<Byte>, url: bool): (r: string)
    ensures |r| == 4 * (|bs| / 3) + (if |bs| % 3 == 0 then 0 else |bs| % 3 + 1)
    ensures |r| % 4 != 1
    decreases |bs|
  {
    if |bs| == 0 then ""
    else if |bs| == 1 then
      [Digit(bs[0] / 4, url), Digit(bs[0] % 4 * 16, url)]
    else if |bs| == 2 then
      [Digit(bs[0] / 4, url), Digit(bs[0] % 4 * 16 + bs[1] / 16, url), Digit(bs[1] % 16 * 4, url)]
    else Quad(bs[0], bs[1], bs[2], url) + EncodeUnpadded(bs[3..], url)
  }

  /** Standard base64 with '=' padding to a multiple of four characters
      (RFC 4648 section 4), as Node's `digest('base64')` produces it. */
  function Encode(bs: seq<Byte>): (r: string)
    ensures |r| % 4 == 0
  {
    var body := EncodeUnpadded(bs, false);
    var padding := if |bs| % 3 == 1 then "==" else if |bs| % 3 == 2 then "=" else "";
    assert |body + padding| == 4 * (|bs| / 3 + (if |bs| % 3 == 0 then 0 else 1));
    body + padding
  }

  /** base64url without padding (RFC 4648 section 5, RFC 7515 section 2). */
  function EncodeUrl(bs: seq<Byte>): string { EncodeUnpadded(bs, true) }

  // ---------------------------------------------------------------------
  // Properties
  // ---------------------------------------------------------------------

  lemma {:induction false} EncodeUnpaddedChars(bs: seq<Byte>, url: bool)
    ensures forall i :: 0 <= i < |EncodeUnpadded(bs, url)| ==>
      exists v :: 0 <= v < 64 && EncodeUnpadded(bs, url)[i] == Digit(v, url)
    decreases |bs|
  {
    var r := EncodeUnpadded(bs, url);
    if |bs| >= 3 {
      EncodeUnpaddedChars(bs[3..], url);
      var head := r[..4];
      assert r == head + EncodeUnpadded(bs[3..], url);
      forall i | 4 <= i < |r| ensures exists v :: 0 <= v < 64 && r[i] == Digit(v, url) {
        assert r[i] == EncodeUnpadded(bs[3..], url)[i - 4];
      }
    }
  }

  /** Every character of an encoding is an alphabet digit: no '.', no '=',
      no whitespace; in the standard alphabet, all of them `atob` accepts. */
  lemma EncodeUnpaddedAlphabet(bs: seq<Byte>, url: bool)
    ensures forall c :: c in EncodeUnpadded(bs, url) ==>
      c != '.' && c != '=' && !IsAsciiWhitespace(c) && (!url ==> IsStdChar(c))
  {
    EncodeUnpaddedChars(bs, url);
    forall c | c in EncodeUnpadded(bs, url)
      ensures c != '.' && c != '=' && !IsAsciiWhitespace(c) && (!url ==> IsStdChar(c))
    {
      var i :| 0 <= i < |EncodeUnpadded(bs, url)| && EncodeUnpadded(bs, url)[i] == c;
      var v :| 0 <= v < 64 && c == Digit(v, url);
      DigitValue(v);
    }
  }

  /** The alphabet map turns base64url into standard base64, character for
      character. */
  lemma {:induction false} UrlToStdEncode(bs: seq<Byte>)
    ensures UrlToStd(EncodeUrl(bs)) == EncodeUnpadded(bs, false)
    decreases |bs|
  {
    if |bs| >= 3 {
      UrlToStdEncode(bs[3..]);
      UrlToStdAppend(Quad(bs[0], bs[1], bs[2], true), EncodeUrl(bs[3..]));
      QuadToStd(bs[0], bs[1], bs[2]);
    }
  }

  /** The alphabet map works character by character. */
  lemma UrlToStdAppend(a: string, b: string)
    ensures UrlToStd(a + b) == UrlToStd(a) + UrlToStd(b)
  {
    var l, r := UrlToStd(a + b), UrlToStd(a) + UrlToStd(b);
    forall i | 0 <= i < |l|
      ensures l[i] == r[i]
    {
      if i < |a| {
        assert (a + b)[i] == a[i];
      } else {
        assert (a + b)[i] == b[i - |a|];
      }
    }
  }

  /** The map sends each URL-safe digit to the standard digit of the same
      value. */
  lemma QuadToStd(b0: Byte, b1: Byte, b2: Byte)
    ensures UrlToStd(Quad(b0, b1, b2, true)) == Quad(b0, b1, b2, false)
  {
    var u, s := Quad(b0, b1, b2, true), Quad(b0, b1, b2, false);
    assert UrlToStd(u)[0] == s[0];
    assert UrlToStd(u)[1] == s[1];
    assert UrlToStd(u)[2] == s[2];
    assert UrlToStd(u)[3] == s[3];
  }

  /** The arithmetic of one full group: the four 6-bit values the encoder
      cuts three bytes into give those bytes back. */
  lemma GroupArith(b0: Byte, b1: Byte, b2: Byte)
    ensures var v1, v2 := b0 % 4 * 16 + b1 / 16, b1 % 16 * 4 + b2 / 64;
      0 <= v1 < 64 && 0 <= v2 < 64 &&
      b0 / 4 * 4 + v1 / 16 == b0 && v1 % 16 * 16 + v2 / 4 == b1 && v2 % 4 * 64 + b2 % 64 == b2
  {
    var v1, v2 := b0 % 4 * 16 + b1 / 16, b1 % 16 * 4 + b2 / 64;
    assert v1 / 16 == b0 % 4 && v1 % 16 == b1 / 16;
    assert v2 / 4 == b1 % 16 && v2 % 4 == b2 / 64;
  }

  lemma DecodeQuad(b0: Byte, b1: Byte, b2: Byte)
    ensures AllStd(Quad(b0, b1, b2, false)) && DecodeGroup(Quad(b0, b1, b2, false)) == [b0, b1, b2]
  {
    GroupArith(b0, b1, b2);
    var v1, v2 := b0 % 4 * 16 + b1 / 16, b1 % 16 * 4 + b2 / 64;
    DigitValue(b0 / 4);
    DigitValue(v1);
    DigitValue(v2);
    DigitValue(b2 % 64);
  }

  lemma DecodeShortGroup(bs: seq<Byte>)
    requires |bs| == 1 || |bs| == 2
    ensures var g := EncodeUnpadded(bs, false);
      AllStd(g) && 2 <= |g| <= 3 && DecodeGroup(g) == bs
  {
    var b0 := bs[0];
    DigitValue(b0 / 4);
    if |bs| == 1 {
      DigitValue(b0 % 4 * 16);
    } else {
      var b1 := bs[1];
      GroupArith(b0, b1, 0);
      DigitValue(b0 % 4 * 16 + b1 / 16);
      DigitValue(b1 % 16 * 4);
    }
  }

  lemma AllStdAppend(a: string, b: string)
    requires AllStd(a) && AllStd(b)
    ensures AllStd(a + b)
  {
    assert forall i :: |a| <= i < |a + b| ==> (a + b)[i] == b[i - |a|];
  }

  lemma {:induction false} DecodeGroupsEncode(bs: seq<Byte>)
    ensures AllStd(EncodeUnpadded(bs, false))
    ensures DecodeGroups(EncodeUnpadded(bs, false)) == bs
    decreases |bs|
  {
    var e := EncodeUnpadded(bs, false);
    if |bs| == 1 || |bs| == 2 {
      DecodeShortGroup(bs);
    } else if |bs| >= 3 {
      var q, rest := Quad(bs[0], bs[1], bs[2], false), EncodeUnpadded(bs[3..], false);
      DecodeGroupsEncode(bs[3..]);
      DecodeQuad(bs[0], bs[1], bs[2]);
      AllStdAppend(q, rest);
      assert e == q + rest;
      assert e[..4] == q && e[4..] == rest;
      assert DecodeGroups(e) == DecodeGroup(q) + DecodeGroups(rest);
      assert bs == [bs[0], bs[1], bs[2]] + bs[3..];
    }
  }

  /** `atob` inverts unpadded standard base64: the form the JWT payload
      reaches after the alphabet map. */
  lemma AtobEncodeUnpadded(bs: seq<Byte>)
    ensures Atob(EncodeUnpadded(bs, false)) == Some(bs)
  {
    var e := EncodeUnpadded(bs, false);
    assert RemoveWhitespace(e) == e by {
      EncodeUnpaddedAlphabet(bs, false);
    }
    assert StripPadding(e) == e by {
      EncodeUnpaddedAlphabet(bs, false);
      if e != [] {
        assert e[|e| - 1] in e;
      }
      StripPaddingNoPad(e);
    }
    assert AllStd(e) && DecodeGroups(e) == bs by {
      DecodeGroupsEncode(bs);
    }
  }

  /** Without a trailing '=' there is nothing to strip. */
  lemma StripPaddingNoPad(s: string)
    requires s == [] || s[|s| - 1] != '='
    ensures StripPadding(s) == s
  {
    if |s| >= 2 {
      assert s[|s| - 2..][1] == s[|s| - 1];
    }
  }

  /** `atob` inverts padded standard base64 too. */
  lemma AtobEncode(bs: seq<Byte>)
    ensures Atob(Encode(bs)) == Some(bs)
  {
    var e := EncodeUnpadded(bs, false);
    var p := Encode(bs);
    EncodeUnpaddedAlphabet(bs, false);
    DecodeGroupsEncode(bs);
    assert forall c :: c in p ==> c in e || c == '=';
    assert RemoveWhitespace(p) == p;
    StripPaddingEncode(bs);
  }

  lemma StripPaddingEncode(bs: seq<Byte>)
    ensures StripPadding(Encode(bs)) == EncodeUnpadded(bs, false)
  {
    var e := EncodeUnpadded(bs, false);
    var p := Encode(bs);
    EncodeUnpaddedAlphabet(bs, false);
    assert |e| > 0 ==> e[|e| - 1] in e && e[|e| - 1] != '=';
    if |bs| % 3 == 1 {
      assert p == e + "==";
      assert p[|p| - 2..] == "==" && p[..|p| - 2] == e;
    } else if |bs| % 3 == 2 {
      assert p == e + "=";
      assert p[|p| - 2] == e[|e| - 1];
      assert p[|p| - 1] == '=' && p[..|p| - 1] == e;
    } else {
      assert p == e;
    }
  }

  /** The padded encoding is injective: equal encodings mean equal bytes. */
  lemma EncodeInjective(a: seq<Byte>, b: seq<Byte>)
    requires Encode(a) == Encode(b)
    ensures a == b
  {
    AtobEncode(a);
    AtobEncode(b);
  }

  /** A base64url string passed through the alphabet map decodes to the
      bytes it encodes. */
  lemma AtobUrl(bs: seq<Byte>)
    ensures Atob(UrlToStd(EncodeUrl(bs))) == Some(bs)
  {
    UrlToStdEncode(bs);
    AtobEncodeUnpadded(bs);
  }
}
