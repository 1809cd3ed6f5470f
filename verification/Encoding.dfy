/** Fixed-width integers and text as byte strings. */
module Encoding {
  import opened Common

  function Pow256(width: nat): (p: nat)
    ensures p >= 1
  {
    if width == 0 then 1 else 256 * Pow256(width - 1)
  }

  lemma Pow256Values()
    ensures Pow256(4) == 0x1_0000_0000 && Pow256(8) == 0x1_0000_0000_0000_0000
  {
    assert Pow256(2) == 65536;
    assert Pow256(5) == 256 * Pow256(4) && Pow256(6) == 256 * Pow256(5) && Pow256(7) == 256 * Pow256(6);
  }

  /** Two concatenations with first parts of one length agree in both parts. */
  lemma SameParts<T>(a: seq<T>, b: seq<T>, c: seq<T>, d: seq<T>)
    requires |a| == |c| && a + b == c + d
    ensures a == c && b == d
  {
    assert a == (a + b)[..|a|] && c == (c + d)[..|c|];
    assert b == (a + b)[|a|..] && d == (c + d)[|c|..];
  }

  lemma SameHead<T>(a: seq<T>, b: seq<T>, c: seq<T>, x: seq<T>, y: seq<T>, z: seq<T>)
    requires |a| == |x| && a + b + c == x + y + z
    ensures a == x && b + c == y + z
  {
    var l, r := a + b + c, x + y + z;
    assert a == l[..|a|] && x == r[..|a|];
    assert b + c == l[|a|..] && y + z == r[|a|..];
  }

  /** The `width` low-order bytes of `n`, most significant first. */
  function BigEndian(n: nat, width: nat): (bytes: seq<Byte>)
    ensures |bytes| == width
  {
    if width == 0 then [] else BigEndian(n / 256, width - 1) + [n % 256]
  }

  lemma {:induction false} BigEndianInjective(a: nat, b: nat, width: nat)
    requires a < Pow256(width) && b < Pow256(width)
    requires BigEndian(a, width) == BigEndian(b, width)
    ensures a == b
  {
    if width > 0 {
      var x, y := BigEndian(a, width), BigEndian(b, width);
      assert x[..width - 1] == BigEndian(a / 256, width - 1);
      assert y[..width - 1] == BigEndian(b / 256, width - 1);
      assert x[width - 1] == a % 256 && y[width - 1] == b % 256;
      BigEndianInjective(a / 256, b / 256, width - 1);
    }
  }

  lemma Pow256Add(a: nat)
    ensures Pow256(a + 1) == 256 * Pow256(a)
  {
  }

  lemma MulLe(d: nat, a: nat, b: nat)
    requires a <= b
    ensures d * a <= d * b
  {
  }

  lemma QuotientIs(n: nat, d: nat, q: nat, r: nat)
    requires d > 0 && n == d * q + r && r < d
    ensures n / d == q
  {
    var k := n / d;
    assert n == d * k + n % d;
    if k < q {
      MulLe(d, k + 1, q);
      assert false;
    }
    if k > q {
      MulLe(d, q + 1, k);
      assert false;
    }
  }

  lemma DivideTwice(n: nat, p: nat)
    requires p >= 1
    ensures n / (256 * p) == n / 256 / p
  {
    var q, r := n / 256 / p, n / 256 % p;
    assert n / 256 == p * q + r;
    assert n == 256 * (p * q + r) + n % 256;
    assert n == (256 * p) * q + (256 * r + n % 256);
    assert 0 <= 256 * r + n % 256 < 256 * p;
    QuotientIs(n, 256 * p, q, 256 * r + n % 256);
  }

  /** The first byte is the most significant: byte `i` stands for 256 to the power of the bytes after it. */
  lemma {:induction false} BigEndianAt(n: nat, width: nat, i: nat)
    requires i < width
    ensures BigEndian(n, width)[i] == n / Pow256(width - 1 - i) % 256
  {
    if i + 1 < width {
      BigEndianAt(n / 256, width - 1, i);
      Pow256Add(width - 2 - i);
      DivideTwice(n, Pow256(width - 2 - i));
    }
  }

  type U32 = n: int | 0 <= n < 0x1_0000_0000
  type U64 = n: int | 0 <= n < 0x1_0000_0000_0000_0000

  const WORD: nat := 4
  const LONG: nat := 8

  function U32Be(n: U32): (bytes: seq<Byte>)
    ensures |bytes| == 4
  {
    BigEndian(n, WORD)
  }

  function U64Be(n: U64): (bytes: seq<Byte>)
    ensures |bytes| == 8
  {
    BigEndian(n, LONG)
  }

  lemma U32BeInjective(m: U32, n: U32)
    requires U32Be(m) == U32Be(n)
    ensures m == n
  {
    Pow256Values();
    BigEndianInjective(m, n, WORD);
  }

  lemma U64BeInjective(m: U64, n: U64)
    requires U64Be(m) == U64Be(n)
    ensures m == n
  {
    Pow256Values();
    BigEndianInjective(m, n, LONG);
  }

  /** The `width` low-order bytes of `n`, least significant first. */
  function LittleEndian(n: nat, width: nat): (bytes: seq<Byte>)
    ensures |bytes| == width
  {
    if width == 0 then [] else [n % 256] + LittleEndian(n / 256, width - 1)
  }

  function FromLittleEndian(bytes: seq<Byte>): nat {
    if bytes == [] then 0 else bytes[0] + 256 * FromLittleEndian(bytes[1..])
  }

  lemma {:induction false} LittleEndianRoundTrip(n: nat, width: nat)
    requires n < Pow256(width)
    ensures FromLittleEndian(LittleEndian(n, width)) == n
  {
    if width > 0 {
      LittleEndianRoundTrip(n / 256, width - 1);
      assert LittleEndian(n, width)[1..] == LittleEndian(n / 256, width - 1);
    }
  }

  lemma {:induction false} FromLittleEndianBound(bytes: seq<Byte>)
    ensures FromLittleEndian(bytes) < Pow256(|bytes|)
  {
    if bytes != [] {
      FromLittleEndianBound(bytes[1..]);
    }
  }

  lemma {:induction false} FromLittleEndianRoundTrip(bytes: seq<Byte>)
    ensures LittleEndian(FromLittleEndian(bytes), |bytes|) == bytes
  {
    if bytes != [] {
      var n, rest := FromLittleEndian(bytes), FromLittleEndian(bytes[1..]);
      assert n == bytes[0] + 256 * rest && n % 256 == bytes[0] && n / 256 == rest;
      FromLittleEndianRoundTrip(bytes[1..]);
      assert bytes == [bytes[0]] + bytes[1..];
    }
  }

  // ---------------------------------------------------------------- decimal text

  predicate IsDigit(c: char) {
    '0' <= c <= '9'
  }

  ghost predicate AllDigits(s: string) {
    forall i :: 0 <= i < |s| ==> IsDigit(s[i])
  }

  function DigitChar(d: nat): (c: char)
    requires d < 10
    ensures IsDigit(c) && DigitValue(c) == d
  {
    '0' + d as char
  }

  function DigitValue(c: char): (d: nat)
    requires IsDigit(c)
  {
    (c - '0') as nat
  }

  /** A number in decimal, with no leading zero. */
  function Decimal(n: nat): string {
    if n < 10 then [DigitChar(n)] else Decimal(n / 10) + [DigitChar(n % 10)]
  }

  /** The value of a string of digits. */
  function FromDecimal(s: string): nat
    requires forall i :: 0 <= i < |s| ==> IsDigit(s[i])
  {
    if s == [] then 0 else 10 * FromDecimal(s[..|s| - 1]) + DigitValue(s[|s| - 1])
  }

  lemma {:induction false} DecimalRoundTrip(n: nat)
    ensures Decimal(n) != [] && AllDigits(Decimal(n))
    ensures FromDecimal(Decimal(n)) == n
  {
    if n < 10 {
      assert Decimal(n)[..0] == [];
    } else {
      DecimalRoundTrip(n / 10);
      assert Decimal(n)[..|Decimal(n)| - 1] == Decimal(n / 10);
    }
  }

  function SignedDecimal(n: int): string {
    if n < 0 then ['-'] + Decimal(-n) else Decimal(n)
  }

  /** A minus sign in front of a negative number's digits, and digits only for any other. */
  lemma SignedDecimalReads(n: int)
    ensures var s := SignedDecimal(n);
            if n < 0 then s != [] && s[0] == '-' && AllDigits(s[1..]) && FromDecimal(s[1..]) == -n
            else s != [] && AllDigits(s) && FromDecimal(s) == n
  {
    DecimalRoundTrip(if n < 0 then -n else n);
    if n < 0 {
      assert SignedDecimal(n)[1..] == Decimal(-n);
    }
  }

  lemma SignedDecimalInjective(m: int, n: int)
    requires SignedDecimal(m) == SignedDecimal(n)
    ensures m == n
  {
    DecimalRoundTrip(if m < 0 then -m else m);
    DecimalRoundTrip(if n < 0 then -n else n);
    assert (m < 0) == (SignedDecimal(m)[0] == '-') && (n < 0) == (SignedDecimal(n)[0] == '-');
    if m < 0 {
      assert SignedDecimal(m)[1..] == Decimal(-m) && SignedDecimal(n)[1..] == Decimal(-n);
    }
  }

  // ---------------------------------------------------------------- hexadecimal text

  /** The lower-case digit of a value below sixteen. */
  function HexDigit(d: nat): char
    requires d < 16
  {
    if d < 10 then '0' + d as char else 'a' + (d - 10) as char
  }

  function HexByte(b: Byte): (s: string)
    ensures |s| == 2
  {
    [HexDigit(b / 16), HexDigit(b % 16)]
  }

  /** Two lower-case digits per byte. */
  function Hex(bytes: seq<Byte>): (s: string)
    ensures |s| == 2 * |bytes|
  {
    if bytes == [] then [] else Hex(bytes[..|bytes| - 1]) + HexByte(bytes[|bytes| - 1])
  }

  /** Each byte becomes two lower-case digits, the high half first, at twice its position. */
  lemma {:induction false} HexAt(bytes: seq<Byte>, i: nat)
    requires i < |bytes|
    ensures Hex(bytes)[2 * i] == "0123456789abcdef"[bytes[i] / 16]
    ensures Hex(bytes)[2 * i + 1] == "0123456789abcdef"[bytes[i] % 16]
  {
    if i + 1 < |bytes| {
      HexAt(bytes[..|bytes| - 1], i);
    } else {
      HexDigitIs(bytes[i] / 16);
      HexDigitIs(bytes[i] % 16);
    }
  }

  lemma HexDigitIs(d: nat)
    requires d < 16
    ensures HexDigit(d) == "0123456789abcdef"[d]
  {
  }

  lemma HexByteInjective(p: Byte, q: Byte)
    requires HexByte(p) == HexByte(q)
    ensures p == q
  {
    assert HexByte(p)[0] == HexByte(q)[0] && HexByte(p)[1] == HexByte(q)[1];
    assert p / 16 == q / 16 && p % 16 == q % 16;
  }

  lemma {:induction false} HexInjective(a: seq<Byte>, b: seq<Byte>)
    requires Hex(a) == Hex(b)
    ensures a == b
  {
    if a != [] {
      var x, y := a[..|a| - 1], b[..|b| - 1];
      var p, q := a[|a| - 1], b[|b| - 1];
      SameParts(Hex(x), HexByte(p), Hex(y), HexByte(q));
      HexInjective(x, y);
      HexByteInjective(p, q);
      assert a == x + [p] && b == y + [q];
    }
  }
}
