/** Base 64 with padding (RFC 4648, section 4). */
module Base64 {
  import opened Options
  import opened Bytes

  type sextet = x: int | 0 <= x < 64

  function Symbol(n: sextet): char {
    if n < 26 then 'A' + n as char
    else if n < 52 then 'a' + (n - 26) as char
    else if n < 62 then '0' + (n - 52) as char
    else if n == 62 then '+'
    else '/'
  }

  predicate IsSymbol(c: char) {
    'A' <= c <= 'Z' || 'a' <= c <= 'z' || '0' <= c <= '9' || c == '+' || c == '/'
  }

  function Meaning(c: char): sextet
    requires IsSymbol(c)
  {
    if 'A' <= c <= 'Z' then c as int - 'A' as int
    else if 'a' <= c <= 'z' then c as int - 'a' as int + 26
    else if '0' <= c <= '9' then c as int - '0' as int + 52
    else if c == '+' then 62
    else 63
  }

  lemma SymbolMeans(n: sextet)
    ensures IsSymbol(Symbol(n)) && Meaning(Symbol(n)) == n
  {
  }

  const UPPER := "ABCDEFGHIJKLMNOPQRSTUVWXYZ"
  const LOWER := "abcdefghijklmnopqrstuvwxyz"
  const OTHERS := "0123456789+/"
  const ALPHABET := UPPER + LOWER + OTHERS

  /** Table 1 of RFC 4648. */
  lemma SymbolAt(n: sextet)
    ensures |ALPHABET| == 64 && Symbol(n) == ALPHABET[n]
  {
    if n < 26 {
      UpperAt(n);
    } else if n < 52 {
      LowerAt(n - 26);
    } else if n < 62 {
      DigitAt(n - 52);
    }
  }

  lemma UpperAt(n: nat)
    requires n < 26
    ensures UPPER[n] as int == 'A' as int + n
  {
    assert n == 0 || n == 1 || n == 2 || n == 3 || n == 4 || n == 5 || n == 6 || n == 7 || n == 8 || n == 9 ||
           n == 10 || n == 11 || n == 12 || n == 13 || n == 14 || n == 15 || n == 16 || n == 17 || n == 18 ||
           n == 19 || n == 20 || n == 21 || n == 22 || n == 23 || n == 24 || n == 25;
  }

  lemma LowerAt(n: nat)
    requires n < 26
    ensures LOWER[n] as int == 'a' as int + n
  {
    assert n == 0 || n == 1 || n == 2 || n == 3 || n == 4 || n == 5 || n == 6 || n == 7 || n == 8 || n == 9 ||
           n == 10 || n == 11 || n == 12 || n == 13 || n == 14 || n == 15 || n == 16 || n == 17 || n == 18 ||
           n == 19 || n == 20 || n == 21 || n == 22 || n == 23 || n == 24 || n == 25;
  }

  lemma DigitAt(n: nat)
    requires n < 10
    ensures OTHERS[n] as int == '0' as int + n
  {
    assert n == 0 || n == 1 || n == 2 || n == 3 || n == 4 || n == 5 || n == 6 || n == 7 || n == 8 || n == 9;
  }

  // The three bytes x, y, z as four sextets.

  function First(x: byte): sextet { x / 4 }
  function Second(x: byte, y: byte): sextet { x % 4 * 16 + y / 16 }
  function Third(y: byte, z: byte): sextet { y % 16 * 4 + z / 64 }
  function Fourth(z: byte): sextet { z % 64 }

  function Encode64(b: seq<byte>): string {
    if b == [] then ""
    else if |b| == 1 then [Symbol(First(b[0])), Symbol(Second(b[0], 0)), '=', '=']
    else if |b| == 2 then [Symbol(First(b[0])), Symbol(Second(b[0], b[1])), Symbol(Third(b[1], 0)), '=']
    else
      [Symbol(First(b[0])), Symbol(Second(b[0], b[1])), Symbol(Third(b[1], b[2])), Symbol(Fourth(b[2]))]
      + Encode64(b[3..])
  }

  function ByteOne(p: sextet, q: sextet): byte { p * 4 + q / 16 }
  function ByteTwo(q: sextet, r: sextet): byte { q % 16 * 16 + r / 4 }
  function ByteThree(r: sextet, s: sextet): byte { r % 4 * 64 + s }

  /** `base64.b64decode(text, validate=True)`; None where it raises. */
  function Decode64(text: string): Option<seq<byte>> {
    if text == "" then Some([])
    else if |text| < 4 || !IsSymbol(text[0]) || !IsSymbol(text[1]) then None
    else
      var p, q := Meaning(text[0]), Meaning(text[1]);
      if text[2..] == "==" then Some([ByteOne(p, q)])
      else if !IsSymbol(text[2]) then None
      else
        var r := Meaning(text[2]);
        if text[3..] == "=" then Some([ByteOne(p, q), ByteTwo(q, r)])
        else if !IsSymbol(text[3]) then None
        else
          match Decode64(text[4..])
          case None => None
          case Some(more) => Some([ByteOne(p, q), ByteTwo(q, r), ByteThree(r, Meaning(text[3]))] + more)
  }

  lemma BitsBack(x: byte, y: byte, z: byte)
    ensures ByteOne(First(x), Second(x, y)) == x
    ensures ByteTwo(Second(x, y), Third(y, z)) == y
    ensures ByteThree(Third(y, z), Fourth(z)) == z
  {
  }

  lemma {:induction false} DecodeEncode(b: seq<byte>)
    ensures Decode64(Encode64(b)) == Some(b)
  {
    hide Symbol, Meaning, IsSymbol, First, Second, Third, Fourth, ByteOne, ByteTwo, ByteThree;
    var text := Encode64(b);
    if b == [] {
    } else {
      var x := b[0];
      var y := if |b| > 1 then b[1] else 0;
      var z := if |b| > 2 then b[2] else 0;
      BitsBack(x, y, z);
      SymbolMeans(First(x));
      SymbolMeans(Second(x, y));
      SymbolMeans(Third(y, z));
      SymbolMeans(Fourth(z));
      NotPadding();
      if |b| == 1 {
        assert text[2..] == "==" && b == [x];
      } else if |b| == 2 {
        assert text[2..][0] == text[2] != '=' && text[3..] == "=";
        assert b == [x, y];
      } else {
        assert text[2..][0] == text[2] && text[3..][0] == text[3];
        assert text[4..] == Encode64(b[3..]);
        DecodeEncode(b[3..]);
        assert b == [x, y, z] + b[3..];
      }
    }
  }

  /** The four characters of the 24 bits of three bytes, six bits to a character, the highest first. */
  lemma GroupSymbols(x: byte, y: byte, z: byte, n: nat)
    requires n == 0x1_0000 * x + 0x100 * y + z
    ensures |ALPHABET| == 64 && n / 0x4_0000 < 64
    ensures Symbol(First(x)) == ALPHABET[n / 0x4_0000] && Symbol(Second(x, y)) == ALPHABET[n / 0x1000 % 64]
    ensures Symbol(Third(y, z)) == ALPHABET[n / 64 % 64] && Symbol(Fourth(z)) == ALPHABET[n % 64]
  {
    hide *;
    Sextets(x, y, z, n);
    SymbolAt(First(x));
    SymbolAt(Second(x, y));
    SymbolAt(Third(y, z));
    SymbolAt(Fourth(z));
  }

  /** Three bytes are written as those four characters (section 4 of RFC 4648). */
  lemma EncodedThree(x: byte, y: byte, z: byte, rest: seq<byte>, n: nat)
    requires n == 0x1_0000 * x + 0x100 * y + z
    ensures |ALPHABET| == 64 && n / 0x4_0000 < 64
    ensures Encode64([x, y, z] + rest) ==
            [ALPHABET[n / 0x4_0000], ALPHABET[n / 0x1000 % 64], ALPHABET[n / 64 % 64], ALPHABET[n % 64]]
            + Encode64(rest)
  {
    hide Symbol, First, Second, Third, Fourth;
    GroupSymbols(x, y, z, n);
    assert ([x, y, z] + rest)[3..] == rest;
  }

  /** What is left of one or two bytes is filled up with zero bits and padding. */
  lemma EncodedTwo(x: byte, y: byte, n: nat)
    requires n == 0x1_0000 * x + 0x100 * y
    ensures |ALPHABET| == 64 && n / 0x4_0000 < 64
    ensures Encode64([x, y]) == [ALPHABET[n / 0x4_0000], ALPHABET[n / 0x1000 % 64], ALPHABET[n / 64 % 64], '=']
  {
    hide Symbol, First, Second, Third, Fourth;
    GroupSymbols(x, y, 0, n);
  }

  lemma EncodedOne(x: byte, n: nat)
    requires n == 0x1_0000 * x
    ensures |ALPHABET| == 64 && n / 0x4_0000 < 64
    ensures Encode64([x]) == [ALPHABET[n / 0x4_0000], ALPHABET[n / 0x1000 % 64], '=', '=']
  {
    hide Symbol, First, Second, Third, Fourth;
    GroupSymbols(x, 0, 0, n);
  }

  lemma Sextets(x: byte, y: byte, z: byte, n: nat)
    requires n == 0x1_0000 * x + 0x100 * y + z
    ensures n / 0x4_0000 == First(x) && n / 0x1000 % 64 == Second(x, y)
    ensures n / 64 % 64 == Third(y, z) && n % 64 == Fourth(z)
  {
    FirstBits(x, 0x100 * y + z);
    SecondBits(x, y, z);
    ThirdBits(x, y, z);
  }

  lemma FirstBits(x: byte, low: nat)
    requires low < 0x1_0000
    ensures (0x1_0000 * x + low) / 0x4_0000 == x / 4
  {
  }

  lemma SecondBits(x: byte, y: byte, z: byte)
    ensures (0x1_0000 * x + 0x100 * y + z) / 0x1000 % 64 == x % 4 * 16 + y / 16
  {
    assert (0x1_0000 * x + 0x100 * y + z) / 0x1000 == 16 * x + y / 16;
  }

  lemma Remainder(q: nat, r: nat)
    requires r < 64
    ensures (64 * q + r) % 64 == r
  {
  }

  lemma ThirdBits(x: byte, y: byte, z: byte)
    ensures (0x1_0000 * x + 0x100 * y + z) / 64 % 64 == y % 16 * 4 + z / 64
    ensures (0x1_0000 * x + 0x100 * y + z) % 64 == z % 64
  {
    assert (0x1_0000 * x + 0x100 * y + z) / 64 == 1024 * x + 4 * y + z / 64;
    assert 4 * y == 64 * (y / 16) + 4 * (y % 16);
    Remainder(16 * x + y / 16, 4 * (y % 16) + z / 64);
    Remainder(1024 * x + 4 * y + z / 64, z % 64);
  }

  lemma NotPadding()
    ensures !IsSymbol('=')
  {
  }

  predicate IsEncoded(c: char) {
    IsSymbol(c) || c == '='
  }

  lemma {:induction false} EncodedChars(b: seq<byte>)
    ensures forall c <- Encode64(b) :: IsEncoded(c)
    ensures b != [] ==> Encode64(b) != ""
  {
    hide Symbol, Meaning, IsSymbol, First, Second, Third, Fourth;
    if b != [] {
      var y := if |b| > 1 then b[1] else 0;
      var z := if |b| > 2 then b[2] else 0;
      SymbolMeans(First(b[0]));
      SymbolMeans(Second(b[0], y));
      SymbolMeans(Third(y, z));
      SymbolMeans(Fourth(z));
      if |b| > 2 { EncodedChars(b[3..]); }
    }
  }

  /** What is no symbol and no padding is passed over. */
  function Symbols(text: string): string {
    if text == "" then "" else (if IsEncoded(text[0]) then [text[0]] else "") + Symbols(text[1..])
  }

  /** `base64.b64decode(text)` */
  function Lenient64(text: string): Option<seq<byte>> {
    Decode64(Symbols(text))
  }

  lemma {:induction false} SymbolsOf(text: string)
    requires forall c <- text :: IsEncoded(c)
    ensures Symbols(text) == text
  {
    if text != "" {
      assert text[0] in text;
      SymbolsOf(text[1..]);
    }
  }

  lemma SymbolsStep(text: string)
    requires text != ""
    ensures Symbols(text) == (if IsEncoded(text[0]) then [text[0]] else "") + Symbols(text[1..])
  {
    hide IsEncoded;
  }

  lemma SymbolsNone(b: string)
    ensures Symbols("" + b) == Symbols("") + Symbols(b)
  {
    assert "" + b == b;
  }

  /** Lenient decoding drops exactly the foreign characters. */
  lemma {:induction false} SymbolsAppend(a: string, b: string)
    ensures Symbols(a + b) == Symbols(a) + Symbols(b)
  {
    hide *;
    if a == "" {
      SymbolsNone(b);
    } else {
      assert (a + b)[0] == a[0] && (a + b)[1..] == a[1..] + b;
      SymbolsStep(a + b);
      SymbolsStep(a);
      SymbolsAppend(a[1..], b);
      Joined(if IsEncoded(a[0]) then [a[0]] else "", Symbols(a[1..]), Symbols(b));
    }
  }

  lemma Joined(a: string, b: string, c: string)
    ensures a + (b + c) == a + b + c
  {
  }

  lemma SymbolsOfOne(c: char)
    ensures Symbols([c]) == if c in ALPHABET || c == '=' then [c] else ""
    ensures Symbols("") == ""
  {
    hide IsSymbol;
    InAlphabet(c);
    assert [c][1..] == "";
  }

  lemma InAlphabet(c: char)
    ensures IsSymbol(c) <==> c in ALPHABET
  {
    if IsSymbol(c) {
      var n := Meaning(c);
      SymbolAt(n);
      assert Symbol(n) == c;
    }
    if c in ALPHABET {
      var n :| 0 <= n < |ALPHABET| && ALPHABET[n] == c;
      AlphabetSymbol(n);
    }
  }

  lemma AlphabetSymbol(n: nat)
    requires n < |ALPHABET|
    ensures IsSymbol(ALPHABET[n])
  {
    assert |ALPHABET| == 64;
    SymbolAt(n);
    SymbolMeans(n);
  }

  /** Whole groups of the alphabet, of which the last `pad` characters are padding. */
  ghost predicate Padded(text: string, pad: nat) {
    && |text| % 4 == 0 && pad <= 2 && pad <= |text|
    && (forall i :: 0 <= i < |text| - pad ==> IsSymbol(text[i]))
    && forall i :: |text| - pad <= i < |text| ==> text[i] == '='
  }

  /** Strict decoding accepts exactly whole groups of the alphabet, the last padded with at most two `=`. */
  lemma {:induction false} DecodesPadded(text: string)
    ensures Decode64(text).Some? <==> Padded(text, 0) || Padded(text, 1) || Padded(text, 2)
  {
    NotPadding();
    hide IsSymbol;
    if |text| >= 4 {
      DecodesPadded(text[4..]);
      LaterGroup(text, 0);
      LaterGroup(text, 1);
      LaterGroup(text, 2);
    }
  }

  lemma LaterGroup(text: string, pad: nat)
    requires |text| >= 4 && !IsSymbol('=')
    ensures IsSymbol(text[0]) && IsSymbol(text[1]) && IsSymbol(text[2]) && IsSymbol(text[3]) ==>
              (Padded(text, pad) <==> Padded(text[4..], pad))
    ensures Padded(text, pad) ==> IsSymbol(text[0]) && IsSymbol(text[1])
    ensures Padded(text, pad) && (!IsSymbol(text[2]) || !IsSymbol(text[3])) ==>
              |text| == 4 && (text[2..] == "==" || (IsSymbol(text[2]) && text[3..] == "="))
  {
    hide IsSymbol;
    var t := text[4..];
    if Padded(text, pad) {
      assert forall i :: 0 <= i < |t| ==> t[i] == text[i + 4];
    }
    if Padded(t, pad) {
      assert forall i :: 4 <= i < |text| ==> text[i] == t[i - 4];
    }
  }

  lemma PaddedIs(text: string, pad: nat)
    ensures Padded(text, pad) <==>
            && |text| % 4 == 0 && pad <= 2 && pad <= |text|
            && (forall i :: 0 <= i < |text| - pad ==> text[i] in ALPHABET)
            && forall i :: |text| - pad <= i < |text| ==> text[i] == '='
  {
    hide IsSymbol, ALPHABET;
    forall c: char ensures IsSymbol(c) <==> c in ALPHABET { InAlphabet(c); }
  }

  lemma LenientEncode(b: seq<byte>)
    ensures Lenient64(Encode64(b)) == Some(b)
  {
    hide Decode64, Encode64, Symbols, IsEncoded;
    EncodedChars(b);
    SymbolsOf(Encode64(b));
    DecodeEncode(b);
  }
}
