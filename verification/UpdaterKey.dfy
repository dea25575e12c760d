/** The encrypted updater key: its 158-byte form, its two text wrappings, and opening it. */
module UpdaterKey {
  import opened Options
  import opened Text
  import opened Bytes
  import opened ScryptParameters
  import Base64

  datatype Error = BadWrapper | NoBlob | BadHeader | BadChecksum

  datatype Result<T> = Ok(value: T) | Err(error: Error)

  datatype KeyPair = KeyPair(seed: seq<byte>, publicKey: seq<byte>)

  type Stream = s: seq<byte> | |s| == 104 witness seq(104, _ => 0)
  type Checksum = s: seq<byte> | |s| == 32 witness seq(32, _ => 0)

  /** scrypt with a 104-byte result, from password, salt and parameters. */
  type Kdf = (seq<byte>, seq<byte>, Params) -> Stream

  /** BLAKE2b with a 32-byte digest. */
  type Blake = seq<byte> -> Checksum

  /** `bytes.decode("utf-8", "replace")` */
  type Decoder = seq<byte> -> string

  /** "Ed", the signature algorithm, and the whole of "EdScB2". */
  const SIG_ALG: seq<byte> := [0x45, 0x64]
  const MAGIC: seq<byte> := [0x45, 0x64, 0x53, 0x63, 0x42, 0x32]

  const KEYNUM := 8
  const SECRET := 72

  // ---------- The binary form ----------

  /** The unencrypted content with what it is encrypted under. */
  datatype Content = Content(salt: seq<byte>, opslimit: nat, memlimit: nat, keynum: seq<byte>, secret: seq<byte>)

  predicate WellSized(c: Content) {
    && |c.salt| == 32 && |c.keynum| == 8 && |c.secret| == 64 && c.opslimit < TWO_TO_64 && c.memlimit < TWO_TO_64
  }

  function StreamOf(kdf: Kdf, password: string, salt: seq<byte>, opslimit: nat, memlimit: nat): Stream {
    kdf(Encode(password), salt, Pick(opslimit, memlimit))
  }

  function Check(blake: Blake, keynum: seq<byte>, secret: seq<byte>): Checksum {
    blake(SIG_ALG + keynum + secret)
  }

  function Layout(salt: seq<byte>, ops: seq<byte>, mem: seq<byte>, a: seq<byte>, b: seq<byte>,
                  c: seq<byte>): seq<byte> {
    MAGIC + salt + ops + mem + a + b + c
  }

  function Build(kdf: Kdf, blake: Blake, password: string, c: Content): (blob: seq<byte>)
    requires WellSized(c)
  {
    var stream := StreamOf(kdf, password, c.salt, c.opslimit, c.memlimit);
    Layout(c.salt, Le64(c.opslimit), Le64(c.memlimit),
           Xor(c.keynum, stream[..KEYNUM]), Xor(c.secret, stream[KEYNUM..SECRET]),
           Xor(Check(blake, c.keynum, c.secret), stream[SECRET..]))
  }

  /** The fields of a blob; the last three still encrypted. */
  datatype Fields = Fields(salt: seq<byte>, opslimit: nat, memlimit: nat,
                           keynum: seq<byte>, secret: seq<byte>, checksum: seq<byte>)

  function Parse(blob: seq<byte>): Result<Fields>
    requires |blob| == 158
  {
    if blob[0..2] != MAGIC[0..2] || blob[2..4] != MAGIC[2..4] || blob[4..6] != MAGIC[4..6] then Err(BadHeader)
    else
      Ok(Fields(blob[6..38], FromLittle(blob[38..46]), FromLittle(blob[46..54]),
                blob[54..62], blob[62..126], blob[126..158]))
  }

  /** Decryption, the checksum, and the two halves of the secret. */
  function Open(kdf: Kdf, blake: Blake, password: string, blob: seq<byte>): Result<KeyPair>
    requires |blob| == 158
  {
    match Parse(blob)
    case Err(e) => Err(e)
    case Ok(f) =>
      var stream := StreamOf(kdf, password, f.salt, f.opslimit, f.memlimit);
      var keynum, secret := Xor(f.keynum, stream[..KEYNUM]), Xor(f.secret, stream[KEYNUM..SECRET]);
      if Check(blake, keynum, secret) != Xor(f.checksum, stream[SECRET..]) then Err(BadChecksum)
      else Ok(KeyPair(secret[..32], secret[32..]))
  }

  lemma Cut(a: seq<byte>, b: seq<byte>, c: seq<byte>, d: seq<byte>, e: seq<byte>, f: seq<byte>)
    requires |a| == 32 && |b| == 8 && |c| == 8 && |d| == 8 && |e| == 64 && |f| == 32
    ensures var blob := Layout(a, b, c, d, e, f);
            && |blob| == 158 && blob[..6] == MAGIC
            && Parse(blob) == Ok(Fields(a, FromLittle(b), FromLittle(c), d, e, f))
  {
    hide FromLittle;
    var blob := Layout(a, b, c, d, e, f);
    assert blob[..6] == MAGIC;
    assert blob[0..2] == MAGIC[0..2] && blob[2..4] == MAGIC[2..4] && blob[4..6] == MAGIC[4..6];
    assert blob[6..38] == a;
    assert blob[38..46] == b && blob[46..54] == c;
    assert blob[54..62] == d && blob[62..126] == e && blob[126..158] == f;
  }

  /** What was built opens to the two halves of its secret. */
  lemma BuiltOpens(kdf: Kdf, blake: Blake, password: string, c: Content)
    requires WellSized(c)
    ensures var blob := Build(kdf, blake, password, c);
            && |blob| == 158 && blob[..6] == MAGIC
            && Open(kdf, blake, password, blob) == Ok(KeyPair(c.secret[..32], c.secret[32..]))
  {
    hide Parse, Layout, Xor, FromLittle, Le64, StreamOf, Check;
    var stream := StreamOf(kdf, password, c.salt, c.opslimit, c.memlimit);
    var check := Check(blake, c.keynum, c.secret);
    XorTwice(c.keynum, stream[..KEYNUM]);
    XorTwice(c.secret, stream[KEYNUM..SECRET]);
    XorTwice(check, stream[SECRET..]);
    Le64Read(c.opslimit);
    Le64Read(c.memlimit);
    LeSizes(c.opslimit);
    LeSizes(c.memlimit);
    XorSize(c.keynum, stream[..KEYNUM]);
    XorSize(c.secret, stream[KEYNUM..SECRET]);
    XorSize(check, stream[SECRET..]);
    Cut(c.salt, Le64(c.opslimit), Le64(c.memlimit), Xor(c.keynum, stream[..KEYNUM]),
        Xor(c.secret, stream[KEYNUM..SECRET]), Xor(check, stream[SECRET..]));
  }

  lemma XorSize(a: seq<byte>, b: seq<byte>)
    requires |a| == |b|
    ensures |Xor(a, b)| == |a|
  {
  }

  lemma LeSizes(n: nat)
    requires n < TWO_TO_64
    ensures |Le64(n)| == 8
  {
  }

  lemma LowByte(low: byte, rest: nat)
    ensures (low as int + 256 * rest) % 256 == low && (low as int + 256 * rest) / 256 == rest
  {
  }

  lemma {:induction false} LittleBack(s: seq<byte>)
    ensures FromLittle(s) < Power256(|s|) && Little(FromLittle(s), |s|) == s
  {
    if s != [] {
      LittleBack(s[1..]);
      LowByte(s[0], FromLittle(s[1..]));
      assert s == [s[0]] + s[1..];
    }
  }

  lemma Le64Back(s: seq<byte>)
    requires |s| == 8
    ensures FromLittle(s) < TWO_TO_64 && Le64(FromLittle(s)) == s
  {
    LittleBack(s);
    assert Power256(4) == 0x1_0000_0000;
    assert Power256(8) == TWO_TO_64;
  }

  lemma Pieces(blob: seq<byte>)
    requires |blob| == 158 && Parse(blob).Ok?
    ensures Layout(blob[6..38], blob[38..46], blob[46..54], blob[54..62], blob[62..126], blob[126..158]) == blob
  {
    assert blob[..6] == blob[0..2] + blob[2..4] + blob[4..6];
    assert MAGIC == MAGIC[0..2] + MAGIC[2..4] + MAGIC[4..6];
  }

  /** Conversely, a blob that opens is the one that would be built from what it holds: so its checksum is
      that of the algorithm tag, the key number and the secret. */
  lemma OpenedWasBuilt(kdf: Kdf, blake: Blake, password: string, blob: seq<byte>) returns (c: Content)
    requires |blob| == 158 && Open(kdf, blake, password, blob).Ok?
    ensures WellSized(c) && Build(kdf, blake, password, c) == blob
    ensures Open(kdf, blake, password, blob).value == KeyPair(c.secret[..32], c.secret[32..])
  {
    hide Layout, Xor, FromLittle, Le64, StreamOf, Check;
    var f := Parse(blob).value;
    var stream := StreamOf(kdf, password, f.salt, f.opslimit, f.memlimit);
    c := Content(f.salt, f.opslimit, f.memlimit, Xor(f.keynum, stream[..KEYNUM]),
                 Xor(f.secret, stream[KEYNUM..SECRET]));
    Le64Back(blob[38..46]);
    Le64Back(blob[46..54]);
    XorTwice(f.keynum, stream[..KEYNUM]);
    XorTwice(f.secret, stream[KEYNUM..SECRET]);
    XorTwice(f.checksum, stream[SECRET..]);
    XorSize(f.keynum, stream[..KEYNUM]);
    XorSize(f.secret, stream[KEYNUM..SECRET]);
    Pieces(blob);
  }

  /** The format, byte by byte. A blob of 158 bytes opens if and only if it starts with `EdScB2` and the digest of the
      algorithm tag, the key number and the secret, decrypted, is the one it carries; what comes out is the two halves
      of the secret. The stream is scrypt's for the salt in bytes 6 to 37 and for the limits behind it, operations
      first. */
  lemma OpensIff(kdf: Kdf, blake: Blake, password: string, blob: seq<byte>)
    requires |blob| == 158
    ensures var stream := kdf(Encode(password), blob[6..38], Pick(FromLittle(blob[38..46]), FromLittle(blob[46..54])));
            var keynum, secret := Xor(blob[54..62], stream[..8]), Xor(blob[62..126], stream[8..72]);
            if blob[..6] != [0x45, 0x64, 0x53, 0x63, 0x42, 0x32] then Open(kdf, blake, password, blob) == Err(BadHeader)
            else if blake([0x45, 0x64] + keynum + secret) != Xor(blob[126..158], stream[72..]) then
              Open(kdf, blake, password, blob) == Err(BadChecksum)
            else Open(kdf, blake, password, blob) == Ok(KeyPair(secret[..32], secret[32..]))
  {
    hide Pick, Xor, FromLittle, Encode;
    HeaderIs(blob);
  }

  lemma HeaderIs(blob: seq<byte>)
    requires |blob| == 158
    ensures blob[..6] == [0x45, 0x64, 0x53, 0x63, 0x42, 0x32] <==>
            blob[0..2] == MAGIC[0..2] && blob[2..4] == MAGIC[2..4] && blob[4..6] == MAGIC[4..6]
  {
    assert blob[..6] == blob[0..2] + blob[2..4] + blob[4..6];
    assert MAGIC == MAGIC[0..2] + MAGIC[2..4] + MAGIC[4..6];
  }

  // ---------- The text around it ----------

  const UNTRUSTED := "untrusted comment"
  const TRUSTED := "trusted comment"
  const REST := ": rsign encrypted" + " secret key"
  const COMMENT := UNTRUSTED + REST

  predicate Skipped(line: string) {
    line == "" || At(line, 0, UNTRUSTED) || At(line, 0, TRUSTED)
  }

  predicate IsBlob(candidate: Option<seq<byte>>) {
    candidate.Some? && |candidate.value| == 158 && candidate.value[..6] == MAGIC
  }

  /** The first line that is a blob. `splitlines` drops the terminators, and so does stripping. */
  function FindBlob(lines: seq<string>): (blob: Option<seq<byte>>)
    ensures blob.Some? ==> IsBlob(blob)
  {
    if lines == [] then None
    else
      var line := Strip(lines[0]);
      if !Skipped(line) && IsBlob(Base64.Decode64(line)) then Base64.Decode64(line) else FindBlob(lines[1..])
  }

  /** The trimmed line is no comment, and decodes to 158 bytes that start with `EdScB2`. */
  ghost predicate Holds(line: string, blob: seq<byte>) {
    && !At(Strip(line), 0, "untrusted comment") && !At(Strip(line), 0, "trusted comment")
    && Base64.Decode64(Strip(line)) == Some(blob)
    && |blob| == 158 && blob[..6] == [0x45, 0x64, 0x53, 0x63, 0x42, 0x32]
  }

  /** The blob found is that of the first line that holds one. */
  lemma {:induction false} FirstHolder(lines: seq<string>) returns (i: nat)
    ensures i <= |lines| && (FindBlob(lines).Some? <==> i < |lines|)
    ensures i < |lines| ==> Holds(lines[i], FindBlob(lines).value)
    ensures forall k: nat, other :: k < i ==> !Holds(lines[k], other)
  {
    hide Holds, Skipped, IsBlob;
    if lines == [] {
      i := 0;
    } else {
      forall other ensures HoldsNow(lines[0], other) { HoldsIs(lines[0], other); }
      if !Skipped(Strip(lines[0])) && IsBlob(Base64.Decode64(Strip(lines[0]))) {
        i := 0;
        BlobHeld(lines[0]);
      } else {
        i := FirstHolder(lines[1..]);
        i := i + 1;
        forall k: nat, other | k < i ensures !Holds(lines[k], other) {
          if k > 0 { assert lines[k] == lines[1..][k - 1]; } else { assert HoldsNow(lines[0], other); }
        }
      }
    }
  }

  ghost predicate HoldsNow(line: string, blob: seq<byte>) {
    Holds(line, blob) <==>
    !Skipped(Strip(line)) && IsBlob(Base64.Decode64(Strip(line))) && Base64.Decode64(Strip(line)) == Some(blob)
  }

  lemma BlobHeld(line: string)
    requires !Skipped(Strip(line)) && IsBlob(Base64.Decode64(Strip(line)))
    ensures Base64.Decode64(Strip(line)).Some? && Holds(line, Base64.Decode64(Strip(line)).value)
  {
    HoldsIs(line, Base64.Decode64(Strip(line)).value);
  }

  lemma HoldsIs(line: string, blob: seq<byte>)
    ensures HoldsNow(line, blob)
  {
  }

  function OpenText(kdf: Kdf, blake: Blake, password: string, text: string): Result<KeyPair> {
    match FindBlob(SplitLines(text))
    case None => Err(NoBlob)
    case Some(blob) => Open(kdf, blake, password, blob)
  }

  method DecryptText(kdf: Kdf, blake: Blake, password: string, text: string) returns (r: Result<KeyPair>)
    ensures r == OpenText(kdf, blake, password, text)
  {
    hide Skipped, IsBlob, SplitLines, Open;
    var lines := SplitLines(text);
    assert lines[0..] == lines;
    for i := 0 to |lines|
      invariant FindBlob(lines[i..]) == FindBlob(lines)
    {
      assert lines[i..][1..] == lines[i + 1..];
      var line := Strip(lines[i]);
      if Skipped(line) { continue; }
      var candidate := Base64.Decode64(line);
      if candidate == None { NotABlob(candidate); continue; }
      if |candidate.value| == 158 && candidate.value[..6] == MAGIC {
        ABlob(candidate);
        return Open(kdf, blake, password, candidate.value);
      }
      NotABlob(candidate);
    }
    return Err(NoBlob);
  }

  lemma NotABlob(candidate: Option<seq<byte>>)
    requires candidate.Some? ==> |candidate.value| != 158 || candidate.value[..6] != MAGIC
    ensures !IsBlob(candidate)
  {
  }

  lemma ABlob(candidate: Option<seq<byte>>)
    requires candidate.Some? && |candidate.value| == 158 && candidate.value[..6] == MAGIC
    ensures IsBlob(candidate)
  {
  }

  /** A key that is the text wrapper in base64 once more. */
  method DecryptFromWrapped(kdf: Kdf, blake: Blake, decode: Decoder, wrapped: string, password: string)
    returns (r: Result<KeyPair>)
    ensures r == match Base64.Lenient64(wrapped)
                 case None => Err(BadWrapper)
                 case Some(bytes) => OpenText(kdf, blake, password, decode(bytes))
  {
    hide OpenText;
    var bytes := Base64.Lenient64(wrapped);
    if bytes == None { return Err(BadWrapper); }
    r := DecryptText(kdf, blake, password, decode(bytes.value));
  }

  /** The text of a key file, given the decoding of its bytes: plain, or in base64, or left as it is. */
  function FileText(decode: Decoder, text: string): string {
    if At(LStrip(text), 0, UNTRUSTED) then text
    else match Base64.Lenient64(text)
         case None => text
         case Some(bytes) => decode(bytes)
  }

  function Wrapper(blob: seq<byte>): string {
    COMMENT + "\n" + Base64.Encode64(blob) + "\n"
  }

  lemma WrapperText(blob: seq<byte>)
    ensures Wrapper(blob) ==
            "untrusted comment" + (": rsign encrypted secret key\n" + (Base64.Encode64(blob) + "\n"))
  {
    CommentEnd();
    hide REST;
    WrapperJoin("untrusted comment", REST, "\n", Base64.Encode64(blob) + "\n");
    assert COMMENT + "\n" + Base64.Encode64(blob) + "\n" == COMMENT + "\n" + (Base64.Encode64(blob) + "\n");
  }

  lemma CommentEnd()
    ensures REST + "\n" == ": rsign encrypted secret key\n"
  {
  }

  lemma WrapperJoin(a: string, b: string, c: string, d: string)
    ensures a + b + c + d == a + ((b + c) + d)
  {
  }

  /** A key file is taken as it stands when it begins, behind blanks, with the comment; otherwise it is decoded when it
      can be. */
  lemma FileTextIs(decode: Decoder, text: string)
    ensures At(LStrip(text), 0, "untrusted comment") || Base64.Lenient64(text).None? ==> FileText(decode, text) == text
    ensures !At(LStrip(text), 0, "untrusted comment") && Base64.Lenient64(text).Some? ==>
              FileText(decode, text) == decode(Base64.Lenient64(text).value)
  {
  }

  function Wrapped(blob: seq<byte>): string {
    Base64.Encode64(Encode(Wrapper(blob)))
  }

  method BuildForSelfTest(kdf: Kdf, blake: Blake, password: string, c: Content) returns (wrapped: string)
    requires WellSized(c)
    ensures wrapped == Wrapped(Build(kdf, blake, password, c))
  {
    var params := PickParams(c.opslimit, c.memlimit);
    var stream := kdf(Encode(password), c.salt, params);
    var check := blake(SIG_ALG + c.keynum + c.secret);
    var blob := MAGIC + c.salt + Le64(c.opslimit) + Le64(c.memlimit)
    + Xor(c.keynum, stream[..KEYNUM]) + Xor(c.secret, stream[KEYNUM..SECRET]) + Xor(check, stream[SECRET..]);
    wrapped := Base64.Encode64(Encode(COMMENT + "\n" + Base64.Encode64(blob) + "\n"));
  }

  lemma NoBreakAppend(a: string, b: string)
    requires NoBreak(a) && NoBreak(b)
    ensures NoBreak(a + b)
  {
  }

  lemma CommentIsLine()
    ensures IsLine(COMMENT + "\n") && Terminated(COMMENT + "\n")
    ensures Strip(COMMENT + "\n") == COMMENT && Skipped(COMMENT)
  {
    hide IsSpace, Strip;
    CommentChars();
    var line := COMMENT + "\n";
    assert line[..|line| - 1] == COMMENT;
    NoCarriageReturn(COMMENT);
    assert '\r' !in line;
    StripLine(COMMENT);
  }

  lemma CommentChars()
    ensures NoBreak(COMMENT) && At(COMMENT, 0, UNTRUSTED)
    ensures !IsSpace(COMMENT[0]) && !IsSpace(COMMENT[|COMMENT| - 1])
  {
    hide At;
    assert NoBreak(UNTRUSTED);
    assert NoBreak(": rsign encrypted");
    assert NoBreak(" secret key");
    NoBreakAppend(": rsign encrypted", " secret key");
    NoBreakAppend(UNTRUSTED, REST);
    Starts(UNTRUSTED, REST);
    assert COMMENT[0] == UNTRUSTED[0] == 'u';
    assert COMMENT[|COMMENT| - 1] == REST[|REST| - 1] == 'y';
  }

  lemma Starts(a: string, b: string)
    ensures At(a + b, 0, a)
  {
    assert (a + b)[0..|a|] == a;
  }

  lemma NoCarriageReturn(s: string)
    requires NoBreak(s)
    ensures '\r' !in s
  {
  }

  lemma StripLine(s: string)
    requires s != "" && !IsSpace(s[0]) && !IsSpace(s[|s| - 1])
    ensures Strip(s + "\n") == s
  {
    assert (s + "\n")[..|s|] == s;
    assert LStrip(s + "\n") == s + "\n";
    assert RStrip(s + "\n") == RStrip(s) == s;
  }

  predicate PlainChar(c: char) {
    !IsSpace(c) && !IsBreak(c) && c != '\r' && c != ' '
  }

  lemma EncodedPlain(c: char)
    requires Base64.IsEncoded(c)
    ensures PlainChar(c)
  {
  }

  lemma NewlineBreaks()
    ensures IsBreak('\n')
  {
  }

  lemma EncodedLine(blob: seq<byte>)
    requires blob != []
    ensures var s := Base64.Encode64(blob);
            IsLine(s + "\n") && Terminated(s + "\n") && Strip(s + "\n") == s && !Skipped(s)
  {
    hide *;
    var s := Base64.Encode64(blob);
    Base64.EncodedChars(blob);
    forall c <- s ensures PlainChar(c) { EncodedPlain(c); }
    PlainLine(s);
  }

  lemma PlainLine(s: string)
    requires s != "" && forall c <- s :: PlainChar(c)
    ensures IsLine(s + "\n") && Terminated(s + "\n") && Strip(s + "\n") == s && !Skipped(s)
  {
    hide IsSpace, IsBreak, Strip, At;
    assert (s + "\n")[..|s|] == s;
    NewlineBreaks();
    forall i | 0 <= i < |s| ensures !IsBreak(s[i]) && s[i] != '\r' { assert PlainChar(s[i]); }
    assert PlainChar(s[0]) && PlainChar(s[|s| - 1]);
    StripLine(s);
    HasNoSpace(s, UNTRUSTED, 9);
    HasNoSpace(s, TRUSTED, 7);
  }

  lemma HasNoSpace(s: string, pat: string, k: nat)
    requires ' ' !in s && k < |pat| && pat[k] == ' '
    ensures !At(s, 0, pat)
  {
    assert k < |s| ==> s[k] in s;
    DiffersAt(s, 0, pat, k);
  }

  lemma WrapperOpens(kdf: Kdf, blake: Blake, password: string, blob: seq<byte>)
    requires |blob| == 158 && blob[..6] == MAGIC
    ensures OpenText(kdf, blake, password, Wrapper(blob)) == Open(kdf, blake, password, blob)
    ensures At(LStrip(Wrapper(blob)), 0, UNTRUSTED)
  {
    hide Open, IsLine, Terminated, Strip, Skipped, SplitLines;
    var s := Base64.Encode64(blob);
    var lines := [COMMENT + "\n", s + "\n"];
    CommentIsLine();
    EncodedLine(blob);
    SplitConcat(lines);
    TwoLines(COMMENT + "\n", s + "\n");
    assert Wrapper(blob) == (COMMENT + "\n") + (s + "\n");
    Base64.DecodeEncode(blob);
    ABlob(Some(blob));
    assert lines[1..][0] == s + "\n";
    assert FindBlob(lines[1..]) == Some(blob);
    assert FindBlob(lines) == Some(blob);
    StartsWithComment(s + "\n");
  }

  lemma TwoLines(a: string, b: string)
    ensures Concat([a, b]) == a + b
  {
    assert [b][1..] == [] && Concat([b]) == b + Concat([]) == b;
    assert [a, b][1..] == [b] && Concat([a, b]) == a + Concat([b]);
  }

  lemma StartsWithComment(rest: string)
    ensures At(LStrip(COMMENT + "\n" + rest), 0, UNTRUSTED)
  {
    hide LStrip, At;
    var t := COMMENT + "\n" + rest;
    Regroup(UNTRUSTED, REST, "\n" + rest);
    Starts(UNTRUSTED, REST + ("\n" + rest));
    assert t == COMMENT + ("\n" + rest) == UNTRUSTED + (REST + ("\n" + rest));
    assert LStrip(t) == t by { NothingToStrip(t); }
    assert t[0] == UNTRUSTED[0];
    NothingToStrip(t);
  }

  lemma Regroup(a: string, b: string, c: string)
    ensures a + b + c == a + (b + c)
  {
  }

  lemma NothingToStrip(t: string)
    requires t == "" || !IsSpace(t[0])
    ensures LStrip(t) == t
  {
  }

  /** Building, wrapping, unwrapping and opening: for every password and content the seed and the public
      key come back, from the wrapped form and from a key file of either form. Of the decoder only that
      it undoes the encoder is used. */
  lemma RoundTrip(kdf: Kdf, blake: Blake, decode: Decoder, password: string, c: Content)
    requires WellSized(c)
    requires var text := Wrapper(Build(kdf, blake, password, c)); decode(Encode(text)) == text
    ensures var blob, pair := Build(kdf, blake, password, c), Ok(KeyPair(c.secret[..32], c.secret[32..]));
            && Base64.Lenient64(Wrapped(blob)) == Some(Encode(Wrapper(blob)))
            && OpenText(kdf, blake, password, decode(Encode(Wrapper(blob)))) == pair
            && OpenText(kdf, blake, password, FileText(decode, Wrapper(blob))) == pair
            && OpenText(kdf, blake, password, FileText(decode, Wrapped(blob))) == pair
  {
    hide OpenText, Open, Build, Wrapper, Encode, LStrip;
    var blob := Build(kdf, blake, password, c);
    BuiltOpens(kdf, blake, password, c);
    WrapperOpens(kdf, blake, password, blob);
    Base64.LenientEncode(Encode(Wrapper(blob)));
    EncodedIsNoComment(Encode(Wrapper(blob)));
  }

  lemma EncodedIsNoComment(b: seq<byte>)
    ensures !At(LStrip(Base64.Encode64(b)), 0, UNTRUSTED)
  {
    var s := Base64.Encode64(b);
    Base64.EncodedChars(b);
    assert forall c <- s :: Base64.IsEncoded(c) && !IsSpace(c);
    assert LStrip(s) == s;
    HasNoSpace(s, UNTRUSTED, 9);
  }

  /** Conversely, any text that opens has a line that is a blob built from a content whose secret is what
      was returned. */
  lemma OpenedTextWasBuilt(kdf: Kdf, blake: Blake, password: string, text: string) returns (c: Content)
    requires OpenText(kdf, blake, password, text).Ok?
    ensures WellSized(c)
    ensures FindBlob(SplitLines(text)) == Some(Build(kdf, blake, password, c))
    ensures OpenText(kdf, blake, password, text).value == KeyPair(c.secret[..32], c.secret[32..])
  {
    hide Build, Open, SplitLines, FindBlob;
    FoundIsBlob(SplitLines(text));
    c := OpenedWasBuilt(kdf, blake, password, FindBlob(SplitLines(text)).value);
  }

  lemma FoundIsBlob(lines: seq<string>)
    ensures FindBlob(lines).Some? ==> |FindBlob(lines).value| == 158
  {
  }
}
