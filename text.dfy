/** The JavaScript string built-ins the core relies on: `split` on one
    character, `includes`, `slice(-n)` and `Number.prototype.toString` in
    bases 10 and 16 for non-negative integers. */
module Text {

  /** One octet, as produced by `atob` (a "binary string" character) or fed
      to a hash. */
  type Byte = b: int | 0 <= b < 256

  // ---------------------------------------------------------------------
  // split(sep) and its inverse, join(sep)
  // ---------------------------------------------------------------------

  /** `parts.join(sep)`. */
  function Join(parts: seq<string>, sep: char): string
  {
    if |parts| == 0 then ""
    else if |parts| == 1 then parts[0]
    else parts[0] + [sep] + Join(parts[1..], sep)
  }

  /** `s.split(sep)` for a one-character separator: the maximal pieces of
      `s` between separators, always at least one (`"".split('.')` is
      `[""]`). */
  function Split(s: string, sep: char): (parts: seq<string>)
    ensures |parts| >= 1
    ensures forall i :: 0 <= i < |parts| ==> sep !in parts[i]
    ensures Join(parts, sep) == s
  {
    if s == [] then [""]
    else
      var rest := Split(s[1..], sep);
      if s[0] == sep then [""] + rest
      else [[s[0]] + rest[0]] + rest[1..]
  }

  /** `split` is the unique separator-free decomposition: splitting a join
      of separator-free pieces gives the pieces back. */
  lemma {:induction false} SplitJoin(parts: seq<string>, sep: char)
    requires |parts| >= 1
    requires forall i :: 0 <= i < |parts| ==> sep !in parts[i]
    ensures Split(Join(parts, sep), sep) == parts
  {
    if |parts| == 1 {
      SplitNoSeparator(parts[0], sep);
    } else {
      var tail := parts[1..];
      assert forall i :: 0 <= i < |tail| ==> sep !in tail[i] by {
        forall i | 0 <= i < |tail| ensures sep !in tail[i] { assert tail[i] == parts[i + 1]; }
      }
      SplitJoin(tail, sep);
      assert Join(parts, sep) == parts[0] + [sep] + Join(tail, sep);
      SplitPrefix(parts[0], sep, Join(tail, sep));
      assert parts == [parts[0]] + tail;
    }
  }

  lemma {:induction false} SplitNoSeparator(s: string, sep: char)
    requires sep !in s
    ensures Split(s, sep) == [s]
  {
    if s != [] {
      SplitNoSeparator(s[1..], sep);
    }
  }

  /** Splitting `p + sep + t` where `p` has no separator puts `p` first. */
  lemma {:induction false} SplitPrefix(p: string, sep: char, t: string)
    requires sep !in p
    ensures Split(p + [sep] + t, sep) == [p] + Split(t, sep)
  {
    if p == [] {
      assert p + [sep] + t == [sep] + t;
      assert ([sep] + t)[1..] == t;
    } else {
      assert (p + [sep] + t)[1..] == p[1..] + [sep] + t;
      SplitPrefix(p[1..], sep, t);
      assert [p[0]] + p[1..] == p;
    }
  }

  // ---------------------------------------------------------------------
  // includes(sub)
  // ---------------------------------------------------------------------

  predicate OccursAt(s: string, sub: string, i: int)
  {
    0 <= i && i + |sub| <= |s| && s[i..i + |sub|] == sub
  }

  /** `s.includes(sub)`. */
  function Contains(s: string, sub: string): bool
    decreases |s|
  {
    if |sub| > |s| then false
    else if s[..|sub|] == sub then true
    else Contains(s[1..], sub)
  }

  /** `includes` holds exactly when `sub` occurs at some position. */
  lemma {:induction false} ContainsOccurs(s: string, sub: string)
    ensures Contains(s, sub) <==> exists i :: OccursAt(s, sub, i)
    decreases |s|
  {
    if |sub| > |s| {
    } else if s[..|sub|] == sub {
      assert OccursAt(s, sub, 0);
    } else {
      ContainsOccurs(s[1..], sub);
      if Contains(s[1..], sub) {
        var i :| OccursAt(s[1..], sub, i);
        assert s[1..][i..i + |sub|] == s[i + 1..i + 1 + |sub|];
        assert OccursAt(s, sub, i + 1);
      } else {
        forall i | OccursAt(s, sub, i) ensures false {
          if i >= 1 {
            assert s[1..][i - 1..i - 1 + |sub|] == s[i..i + |sub|];
            assert OccursAt(s[1..], sub, i - 1);
          }
        }
      }
    }
  }

  // ---------------------------------------------------------------------
  // slice(-n)
  // ---------------------------------------------------------------------

  /** `s.slice(-n)` for n >= 1: the last n characters, or all of `s` when it
      is shorter. */
  function SliceLast(s: string, n: nat): (r: string)
    requires n >= 1
    ensures |r| == if |s| < n then |s| else n
    ensures r == s[|s| - |r|..]
  {
    if |s| < n then s else s[|s| - n..]
  }

  // ---------------------------------------------------------------------
  // Number.prototype.toString(radix) on non-negative integers
  // ---------------------------------------------------------------------

  /** Lower-case digit for a value below the radix (bases 10 and 16). */
  function DigitChar(d: nat): (c: char)
    requires d < 16
  {
    if d < 10 then ('0' as int + d) as char else ('a' as int + d - 10) as char
  }

  predicate IsDecimalDigit(c: char) { '0' <= c <= '9' }

  /** Value of one hexadecimal digit, either case (-1 for a non-digit). */
  function HexDigitValue(c: char): (v: int)
    ensures -1 <= v < 16
  {
    if '0' <= c <= '9' then c as int - '0' as int
    else if 'a' <= c <= 'f' then c as int - 'a' as int + 10
    else if 'A' <= c <= 'F' then c as int - 'A' as int + 10
    else -1
  }

  lemma DigitCharValue(d: nat)
    requires d < 16
    ensures HexDigitValue(DigitChar(d)) == d
    ensures d < 10 ==> IsDecimalDigit(DigitChar(d))
  {
  }

  /** Digits of `n` in `radix`, most significant first, no leading zeros:
      `n.toString(radix)`. */
  function ToRadix(n: nat, radix: nat): (r: string)
    requires radix == 10 || radix == 16
    ensures |r| >= 1
    ensures n < radix <==> |r| == 1
    ensures forall i :: 0 <= i < |r| ==> 0 <= HexDigitValue(r[i]) < radix
    ensures r[0] == '0' ==> n == 0
  {
    DigitCharValue(n % radix);
    if n < radix then [DigitChar(n)]
    else ToRadix(n / radix, radix) + [DigitChar(n % radix)]
  }

  /** `n.toString()`. */
  function Decimal(n: nat): string { ToRadix(n, 10) }

  /** `n.toString(16)`. */
  function Hex(n: nat): string { ToRadix(n, 16) }

  /** The number a string of digits denotes in `radix`. */
  function DigitsValue(s: string, radix: nat): int
  {
    if s == [] then 0
    else DigitsValue(s[..|s| - 1], radix) * radix + HexDigitValue(s[|s| - 1])
  }

  /** Reading the digits back gives the number: `toString` loses nothing. */
  lemma {:induction false} ToRadixValue(n: nat, radix: nat)
    requires radix == 10 || radix == 16
    ensures DigitsValue(ToRadix(n, radix), radix) == n
  {
    var r := ToRadix(n, radix);
    DigitCharValue(n % radix);
    if n >= radix {
      ToRadixValue(n / radix, radix);
      assert r[..|r| - 1] == ToRadix(n / radix, radix);
    }
  }

  /** The last four decimal digits of `n` (all of them when there are fewer)
      denote `n % 10000`. */
  lemma LastFourDigits(n: nat)
    ensures DigitsValue(SliceLast(Decimal(n), 4), 10) == n % 10000
  {
    var d := Decimal(n);
    if n < 1000 {
      assert SliceLast(d, 4) == d by {
        DecimalLength(n);
      }
      ToRadixValue(n, 10);
    } else {
      var last := LastFour(n);
      assert SliceLast(d, 4) == last;
      assert DigitsValue(last, 10) == n % 10000 by {
        FourDigitsValue(n / 1000 % 10, n / 100 % 10, n / 10 % 10, n % 10);
        DecimalPlaces(n);
      }
    }
  }

  /** A number has at least four decimal digits exactly from 1000 on. */
  lemma DecimalLength(n: nat)
    ensures |Decimal(n)| >= 4 <==> n >= 1000
  {
    if n >= 1000 {
      assert Decimal(n) == Decimal(n / 10) + [DigitChar(n % 10)];
      assert Decimal(n / 10) == Decimal(n / 100) + [DigitChar(n / 10 % 10)];
      assert n / 10 / 10 == n / 100;
      assert |Decimal(n / 100)| >= 2;
    } else if n >= 100 {
      assert Decimal(n) == Decimal(n / 10) + [DigitChar(n % 10)];
      assert |Decimal(n / 10)| == 2;
    } else if n >= 10 {
      assert Decimal(n) == Decimal(n / 10) + [DigitChar(n % 10)];
    }
  }

  /** The decimal string of n >= 1000 ends in the digits of its units,
      tens, hundreds and thousands places. */
  lemma LastFour(n: nat) returns (last: string)
    requires n >= 1000
    ensures last == [DigitChar(n / 1000 % 10), DigitChar(n / 100 % 10), DigitChar(n / 10 % 10), DigitChar(n % 10)]
    ensures |Decimal(n)| >= 4 && Decimal(n)[|Decimal(n)| - 4..] == last
  {
    var d := Decimal(n);
    var d1 := Decimal(n / 10);
    var d2 := Decimal(n / 100);
    var d3 := Decimal(n / 1000);
    assert n / 10 / 10 == n / 100 && n / 100 / 10 == n / 1000;
    assert d == d1 + [DigitChar(n % 10)];
    assert d1 == d2 + [DigitChar(n / 10 % 10)];
    assert d2 == d3 + [DigitChar(n / 100 % 10)];
    assert d3[|d3| - 1] == DigitChar(n / 1000 % 10);
    last := [DigitChar(n / 1000 % 10), DigitChar(n / 100 % 10), DigitChar(n / 10 % 10), DigitChar(n % 10)];
    assert d == d3[..|d3| - 1] + last;
  }

  lemma FourDigitsValue(a: nat, b: nat, c: nat, e: nat)
    requires a < 10 && b < 10 && c < 10 && e < 10
    ensures DigitsValue([DigitChar(a), DigitChar(b), DigitChar(c), DigitChar(e)], 10) == 1000 * a + 100 * b + 10 * c + e
  {
    var s := [DigitChar(a), DigitChar(b), DigitChar(c), DigitChar(e)];
    DigitCharValue(a);
    DigitCharValue(b);
    DigitCharValue(c);
    DigitCharValue(e);
    assert s[..3] == [DigitChar(a), DigitChar(b), DigitChar(c)];
    assert s[..3][..2] == [DigitChar(a), DigitChar(b)];
    assert s[..3][..2][..1] == [DigitChar(a)];
    assert s[..3][..2][..1][..0] == [];
    assert DigitsValue([DigitChar(a)], 10) == a;
    assert DigitsValue([DigitChar(a), DigitChar(b)], 10) == 10 * a + b;
    assert DigitsValue([DigitChar(a), DigitChar(b), DigitChar(c)], 10) == 100 * a + 10 * b + c;
  }

  /** Peeling the units digit off a remainder modulo 10 * m. */
  lemma ModPeel(n: nat, m: nat)
    requires m == 10 || m == 100 || m == 1000
    ensures n % (10 * m) == 10 * (n / 10 % m) + n % 10
  {
    var q, r := n / 10, n % 10;
    var a, b := q / m, q % m;
    if m == 10 {
      assert n == 100 * a + (10 * b + r);
      ModOf(n, 100, a, 10 * b + r);
    } else if m == 100 {
      assert n == 1000 * a + (10 * b + r);
      ModOf(n, 1000, a, 10 * b + r);
    } else {
      assert n == 10000 * a + (10 * b + r);
      ModOf(n, 10000, a, 10 * b + r);
    }
  }

  /** The remainder is the part below the divisor. */
  lemma ModOf(n: nat, d: nat, a: nat, x: nat)
    requires d == 100 || d == 1000 || d == 10000
    requires n == d * a + x && x < d
    ensures n % d == x
  {
    if d == 100 {
      ModOfConstant(a, x, 100);
    } else if d == 1000 {
      ModOfConstant(a, x, 1000);
    } else {
      ModOfConstant(a, x, 10000);
    }
  }

  lemma ModOfConstant(a: nat, x: nat, d: nat)
    requires 0 < d && x < d
    ensures (d * a + x) % d == x
  {
    var n := d * a + x;
    var q, r := n / d, n % d;
    assert d * q + r == d * a + x;
    if q < a {
      var k := a - q;
      assert d * a == d * q + d * k;
      MulGrows(d, k);
    } else if q > a {
      var k := q - a;
      assert d * q == d * a + d * k;
      MulGrows(d, k);
    }
  }

  lemma {:induction false} MulGrows(d: nat, k: nat)
    requires k >= 1
    ensures d * k >= d
  {
    if k > 1 {
      MulGrows(d, k - 1);
      assert d * k == d * (k - 1) + d;
    }
  }

  lemma DecimalPlaces(n: nat)
    ensures 1000 * (n / 1000 % 10) + 100 * (n / 100 % 10) + 10 * (n / 10 % 10) + n % 10 == n % 10000
  {
    ModPeel(n, 1000);
    ModPeel(n / 10, 100);
    ModPeel(n / 100, 10);
    assert n / 10 / 10 == n / 100 && n / 100 / 10 == n / 1000;
  }
}
