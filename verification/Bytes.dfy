/** Byte strings: little-endian 64-bit numbers and the UTF-8 encoding of text (RFC 3629, section 3). */
module Bytes {
  type byte = x: int | 0 <= x < 256

  const TWO_TO_64: nat := 0x1_0000_0000_0000_0000

  // ---------- Little-endian numbers ----------

  function Power256(k: nat): (p: nat)
    ensures p > 0
  {
    if k == 0 then 1 else 256 * Power256(k - 1)
  }

  function Little(n: nat, k: nat): (s: seq<byte>)
    ensures |s| == k
  {
    if k == 0 then [] else [n % 256] + Little(n / 256, k - 1)
  }

  function FromLittle(s: seq<byte>): nat {
    if s == [] then 0 else s[0] + 256 * FromLittle(s[1..])
  }

  lemma {:induction false} LittleRead(n: nat, k: nat)
    requires n < Power256(k)
    ensures FromLittle(Little(n, k)) == n
  {
    if k > 0 {
      LittleRead(n / 256, k - 1);
    }
  }

  /** `struct.pack("<Q", n)` */
  function Le64(n: nat): (s: seq<byte>)
    requires n < TWO_TO_64
    ensures |s| == 8
  {
    Little(n, 8)
  }

  lemma Le64Read(n: nat)
    requires n < TWO_TO_64
    ensures FromLittle(Le64(n)) == n
  {
    assert Power256(4) == 0x1_0000_0000;
    assert Power256(8) == TWO_TO_64;
    LittleRead(n, 8);
  }

  /** Eight bytes are a number, the lowest first. */
  lemma EightBytes(s: seq<byte>)
    requires |s| == 8
    ensures var b := (k: int) requires 0 <= k < 8 => s[k] as int;
            FromLittle(s) ==
            b(0) + 0x100 * b(1) + 0x1_0000 * b(2) + 0x100_0000 * b(3) + 0x1_0000_0000 * b(4) + 0x100_0000_0000 * b(5)
            + 0x1_0000_0000_0000 * b(6) + 0x100_0000_0000_0000 * b(7)
  {
    FourBytes(s, 0);
    FourBytes(s, 4);
    assert s[0..] == s && s[8..] == [];
  }

  lemma FourBytes(s: seq<byte>, i: nat)
    requires i + 4 <= |s|
    ensures FromLittle(s[i..]) == s[i] as int + 0x100 * (s[i + 1] as int) + 0x1_0000 * (s[i + 2] as int)
                                  + 0x100_0000 * (s[i + 3] as int) + 0x1_0000_0000 * FromLittle(s[i + 4..])
  {
    OneByte(s, i);
    OneByte(s, i + 1);
    OneByte(s, i + 2);
    OneByte(s, i + 3);
  }

  lemma OneByte(s: seq<byte>, i: nat)
    requires i < |s|
    ensures FromLittle(s[i..]) == s[i] as int + 0x100 * FromLittle(s[i + 1..])
  {
    assert s[i..][1..] == s[i + 1..];
  }

  // ---------- Exclusive or ----------

  function Power2(k: nat): (p: nat)
    ensures p > 0
  {
    if k == 0 then 1 else 2 * Power2(k - 1)
  }

  /** Bit by bit, the lowest first. */
  function XorBits(a: nat, b: nat, k: nat): (r: nat)
    ensures r < Power2(k)
  {
    if k == 0 then 0 else (a % 2 + b % 2) % 2 + 2 * XorBits(a / 2, b / 2, k - 1)
  }

  lemma LowBit(x: nat, y: nat, rest: nat)
    requires x < 2 && y < 2
    ensures var r := (x + y) % 2 + 2 * rest; r / 2 == rest && (r % 2 + y) % 2 == x
  {
  }

  lemma XorStep(a: nat, b: nat, k: nat)
    requires k > 0
    ensures XorBits(a, b, k) == (a % 2 + b % 2) % 2 + 2 * XorBits(a / 2, b / 2, k - 1)
  {
  }

  lemma {:induction false} XorBitsTwice(a: nat, b: nat, k: nat)
    requires a < Power2(k)
    ensures XorBits(XorBits(a, b, k), b, k) == a
  {
    hide *;
    if k == 0 {
      XorNone(a, b);
    } else {
      HalfFits(a, k);
      XorBitsTwice(a / 2, b / 2, k - 1);
      LowBit(a % 2, b % 2, XorBits(a / 2, b / 2, k - 1));
      XorStep(a, b, k);
      XorStep(XorBits(a, b, k), b, k);
      assert a == a % 2 + 2 * (a / 2);
    }
  }

  lemma XorNone(a: nat, b: nat)
    requires a < Power2(0)
    ensures a == 0 && XorBits(XorBits(a, b, 0), b, 0) == 0
  {
  }

  lemma HalfFits(a: nat, k: nat)
    requires k > 0 && a < Power2(k)
    ensures a / 2 < Power2(k - 1)
  {
  }

  function XorByte(a: byte, b: byte): byte {
    assert Power2(8) == 256;
    XorBits(a, b, 8)
  }

  /** `bytes(x ^ y for x, y in zip(a, b))`: as long as the shorter. */
  function Xor(a: seq<byte>, b: seq<byte>): (r: seq<byte>)
    ensures |r| == if |a| <= |b| then |a| else |b|
  {
    seq(if |a| <= |b| then |a| else |b|, i requires 0 <= i < |a| && i < |b| => XorByte(a[i], b[i]))
  }

  /** The bit that weighs `unit` is set exactly where the two numbers differ in it. */
  function Differ(a: nat, b: nat, unit: nat): nat
    requires unit > 0
  {
    if a / unit % 2 == b / unit % 2 then 0 else unit
  }

  lemma TwoSteps(a: nat, b: nat, k: nat)
    requires k >= 2
    ensures XorBits(a, b, k) == Differ(a, b, 1) + Differ(a, b, 2) + 4 * XorBits(a / 4, b / 4, k - 2)
  {
    hide XorBits;
    XorStep(a, b, k);
    XorStep(a / 2, b / 2, k - 1);
    assert a / 2 / 2 == a / 4 && b / 2 / 2 == b / 4;
  }

  lemma Shifted(a: nat, b: nat, m: nat, unit: nat)
    requires m > 0 && unit > 0 && a / m / unit == a / (m * unit) && b / m / unit == b / (m * unit)
    ensures m * Differ(a / m, b / m, unit) == Differ(a, b, m * unit)
  {
  }

  lemma Fourths(a: nat)
    ensures a / 4 / 1 == a / 4 && a / 4 / 2 == a / 8 && a / 4 / 4 == a / 16
  {
  }

  lemma Sixteenths(a: nat)
    ensures a / 16 / 1 == a / 16 && a / 16 / 2 == a / 32 && a / 16 / 4 == a / 64 && a / 16 / 8 == a / 128
  {
  }

  lemma LowFour(x: nat, y: nat, k: nat)
    requires k >= 4
    ensures XorBits(x, y, k) ==
            Differ(x, y, 1) + Differ(x, y, 2) + Differ(x, y, 4) + Differ(x, y, 8) + 16 * XorBits(x / 16, y / 16, k - 4)
  {
    hide *;
    Fourths(x);
    Fourths(y);
    TwoSteps(x, y, k);
    TwoSteps(x / 4, y / 4, k - 2);
    Shifted(x, y, 4, 1);
    Shifted(x, y, 4, 2);
  }

  lemma HighFour(x: nat, y: nat)
    ensures 16 * Differ(x / 16, y / 16, 1) == Differ(x, y, 16) && 16 * Differ(x / 16, y / 16, 2) == Differ(x, y, 32)
    ensures 16 * Differ(x / 16, y / 16, 4) == Differ(x, y, 64) && 16 * Differ(x / 16, y / 16, 8) == Differ(x, y, 128)
  {
    hide *;
    Sixteenths(x);
    Sixteenths(y);
    Shifted(x, y, 16, 1);
    Shifted(x, y, 16, 2);
    Shifted(x, y, 16, 4);
    Shifted(x, y, 16, 8);
  }

  lemma EightBits(x: nat, y: nat)
    ensures XorBits(x, y, 8) ==
            Differ(x, y, 1) + Differ(x, y, 2) + Differ(x, y, 4) + Differ(x, y, 8)
            + Differ(x, y, 16) + Differ(x, y, 32) + Differ(x, y, 64) + Differ(x, y, 128)
  {
    hide *;
    LowFour(x, y, 8);
    LowFour(x / 16, y / 16, 4);
    NoBits(x / 16 / 16, y / 16 / 16);
    HighFour(x, y);
  }

  /** A byte of the result has exactly those bits in which the two bytes differ. */
  lemma XorAt(a: seq<byte>, b: seq<byte>, k: nat)
    requires k < |a| && k < |b|
    ensures var x, y := a[k] as int, b[k] as int;
            Xor(a, b)[k] as int ==
            Differ(x, y, 1) + Differ(x, y, 2) + Differ(x, y, 4) + Differ(x, y, 8)
            + Differ(x, y, 16) + Differ(x, y, 32) + Differ(x, y, 64) + Differ(x, y, 128)
  {
    hide XorBits, Differ, Power2;
    EightBits(a[k], b[k]);
  }

  lemma NoBits(a: nat, b: nat)
    ensures XorBits(a, b, 0) == 0
  {
  }

  /** The same stream applied again gives the bytes back. */
  lemma XorTwice(a: seq<byte>, b: seq<byte>)
    requires |a| <= |b|
    ensures Xor(Xor(a, b), b) == a
  {
    hide XorBits;
    assert Power2(8) == 256;
    forall i | 0 <= i < |a| ensures XorByte(XorByte(a[i], b[i]), b[i]) == a[i] { XorBitsTwice(a[i], b[i], 8); }
  }

  // ---------- UTF-8 ----------

  /** The continuation byte with the six bits of `n`. */
  function Tail(n: nat): byte {
    0x80 + n % 64
  }

  function EncodeChar(c: char): (s: seq<byte>)
    ensures 1 <= |s| <= 4
  {
    var n := c as int;
    if n < 0x80 then [n]
    else if n < 0x800 then [0xC0 + n / 64, Tail(n)]
    else if n < 0x10000 then [0xE0 + n / 4096, Tail(n / 64), Tail(n)]
    else [0xF0 + n / 262144, Tail(n / 4096), Tail(n / 64), Tail(n)]
  }

  function Encode(text: string): seq<byte> {
    if text == "" then [] else EncodeChar(text[0]) + Encode(text[1..])
  }

  /** The first byte tells how many there are, and together they tell the code point. */
  function UnitLen(first: byte): nat {
    if first < 0x80 then 1 else if first < 0xE0 then 2 else if first < 0xF0 then 3 else 4
  }

  function Tails(high: int, s: seq<byte>): int
    decreases s
  {
    if s == [] then high else Tails(64 * high + (s[0] as int - 0x80), s[1..])
  }

  function CodePoint(s: seq<byte>): int
    requires s != []
  {
    var n := UnitLen(s[0]);
    Tails(s[0] as int - (if n == 1 then 0 else if n == 2 then 0xC0 else if n == 3 then 0xE0 else 0xF0), s[1..])
  }

  lemma TailsOne(n: nat, rest: seq<byte>)
    ensures Tails(n / 64, [Tail(n)] + rest) == Tails(n, rest)
  {
    assert 64 * (n / 64) + (Tail(n) as int - 0x80) == n;
    assert ([Tail(n)] + rest)[1..] == rest;
  }

  lemma Sixths(n: nat)
    ensures n / 64 / 64 == n / 4096 && n / 4096 / 64 == n / 262144
  {
  }

  lemma CharRead(c: char)
    ensures var s := EncodeChar(c); UnitLen(s[0]) == |s| && CodePoint(s) == c as int
  {
    hide Tail, Tails;
    var n, s := c as int, EncodeChar(c);
    Sixths(n);
    TailsNone(n);
    if n < 0x80 {
      assert s[1..] == [];
    } else if n < 0x800 {
      assert s[1..] == [Tail(n)] + [];
      TailsOne(n, []);
    } else if n < 0x10000 {
      assert s[1..] == [Tail(n / 64)] + ([Tail(n)] + []);
      TailsOne(n / 64, [Tail(n)] + []);
      TailsOne(n, []);
    } else {
      assert s[1..] == [Tail(n / 4096)] + ([Tail(n / 64)] + ([Tail(n)] + []));
      TailsOne(n / 4096, [Tail(n / 64)] + ([Tail(n)] + []));
      TailsOne(n / 64, [Tail(n)] + []);
      TailsOne(n, []);
    }
  }

  /** The bits of a character's code point, six to a byte behind the first (the table in section 3 of RFC 3629). */
  lemma EncodedChar(c: char)
    ensures var n, s := c as int, EncodeChar(c);
            && (n < 0x80 ==> s == [n])
            && (0x80 <= n < 0x800 ==>
                  && |s| == 2 && 0xC0 <= s[0] < 0xE0 && 0x80 <= s[1] < 0xC0
                  && n == (s[0] as int - 0xC0) * 0x40 + (s[1] as int - 0x80))
            && (0x800 <= n < 0x1_0000 ==>
                  && |s| == 3 && 0xE0 <= s[0] < 0xF0 && 0x80 <= s[1] < 0xC0 && 0x80 <= s[2] < 0xC0
                  && n == (s[0] as int - 0xE0) * 0x1000 + (s[1] as int - 0x80) * 0x40 + (s[2] as int - 0x80))
            && (0x1_0000 <= n ==>
                  && |s| == 4 && 0xF0 <= s[0] < 0xF8
                  && 0x80 <= s[1] < 0xC0 && 0x80 <= s[2] < 0xC0 && 0x80 <= s[3] < 0xC0
                  && n == (s[0] as int - 0xF0) * 0x4_0000 + (s[1] as int - 0x80) * 0x1000 + (s[2] as int - 0x80) * 0x40
                          + (s[3] as int - 0x80))
  {
    hide Tail;
    var n := c as int;
    TailIs(n);
    TailIs(n / 64);
    TailIs(n / 4096);
    Sixths(n);
  }

  lemma TailIs(n: nat)
    ensures 0x80 <= Tail(n) < 0xC0 && n == n / 64 * 64 + (Tail(n) as int - 0x80)
  {
  }

  /** A text is encoded character by character. */
  lemma {:induction false} EncodeAppend(a: string, b: string)
    ensures Encode(a + b) == Encode(a) + Encode(b)
  {
    if a == "" {
      assert a + b == b;
    } else {
      assert (a + b)[1..] == a[1..] + b;
      EncodeAppend(a[1..], b);
    }
  }

  /** ASCII text is its own encoding. */
  lemma {:induction false} EncodeAscii(text: string)
    requires forall c <- text :: c as int < 0x80
    ensures |Encode(text)| == |text| && forall i :: 0 <= i < |text| ==> Encode(text)[i] == text[i] as int
  {
    if text != "" {
      assert forall c <- text[1..] :: c in text;
      assert text[0] in text && EncodeChar(text[0]) == [text[0] as int];
      EncodeAscii(text[1..]);
    }
  }

  lemma TailsNone(n: int)
    ensures Tails(n, []) == n
  {
  }

  lemma {:induction false} EncodeInjective(a: string, b: string)
    requires Encode(a) == Encode(b)
    ensures a == b
  {
    hide EncodeChar, CodePoint, UnitLen;
    if a != "" && b != "" {
      var x, y := EncodeChar(a[0]), EncodeChar(b[0]);
      assert Encode(a) == x + Encode(a[1..]) && Encode(b) == y + Encode(b[1..]);
      assert x[0] == Encode(a)[0] == y[0];
      CharRead(a[0]);
      CharRead(b[0]);
      assert x == Encode(a)[..|x|] == y;
      assert Encode(a)[|x|..] == Encode(a[1..]) && Encode(b)[|y|..] == Encode(b[1..]);
      EncodeInjective(a[1..], b[1..]);
      assert a == [a[0]] + a[1..] && b == [b[0]] + b[1..];
    }
  }
}
