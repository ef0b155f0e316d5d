/**
  The unpadded base64url text (section 5 of RFC 4648) under which the SQLite stores keep byte
  strings.  The encoder writes whole quads with '=' padding and strips the padding; the decoder
  rebuilds it from the text length and then scans the characters one by one, the way Python's
  lenient decoder does: characters outside the alphabet are skipped, a complete pad ends the scan,
  and a dangling quad is an error.
*/
module Base64Url {
  import opened Wrappers

  datatype DecodeError = NonAscii | IncorrectPadding

  type Sextet = i: int | 0 <= i < 64

  predicate UrlSafe(c: char) {
    'A' <= c <= 'Z' || 'a' <= c <= 'z' || '0' <= c <= '9' || c == '-' || c == '_'
  }

  /** The URL-safe alphabet. */
  function Symbol(i: Sextet): (c: char)
    ensures Value(c) == Some(i) && UrlSafe(c)
  {
    if i < 26 then 'A' + i as char
    else if i < 52 then 'a' + (i - 26) as char
    else if i < 62 then '0' + (i - 52) as char
    else if i == 62 then '-'
    else '_'
  }

  /** The decoder's table; the standard alphabet's '+' and '/' are still accepted after translation. */
  function Value(c: char): Option<Sextet> {
    if 'A' <= c <= 'Z' then Some(c as int - 'A' as int)
    else if 'a' <= c <= 'z' then Some(c as int - 'a' as int + 26)
    else if '0' <= c <= '9' then Some(c as int - '0' as int + 52)
    else if c == '-' || c == '+' then Some(62)
    else if c == '_' || c == '/' then Some(63)
    else None
  }

  /** One whole quad for three bytes. */
  function Quad(x: Byte, y: Byte, z: Byte): (q: string)
    ensures |q| == 4 && AllUrlSafe(q)
  {
    [Symbol(x / 4), Symbol(x % 4 * 16 + y / 16), Symbol(y % 16 * 4 + z / 64), Symbol(z % 64)]
  }

  /** The quads that end a byte string with one or two bytes left over. */
  function One(x: Byte): (q: string)
    ensures |q| == 4 && UrlSafe(q[0]) && UrlSafe(q[1]) && q[2..] == Pads(2)
  {
    [Symbol(x / 4), Symbol(x % 4 * 16), '=', '=']
  }

  function Two(x: Byte, y: Byte): (q: string)
    ensures |q| == 4 && UrlSafe(q[0]) && UrlSafe(q[1]) && UrlSafe(q[2]) && q[3..] == Pads(1)
  {
    [Symbol(x / 4), Symbol(x % 4 * 16 + y / 16), Symbol(y % 16 * 4), '=']
  }

  function EncodePadded(bs: Bytes): string {
    if |bs| == 0 then ""
    else if |bs| == 1 then One(bs[0])
    else if |bs| == 2 then Two(bs[0], bs[1])
    else Quad(bs[0], bs[1], bs[2]) + EncodePadded(bs[3..])
  }

  function StripPadding(s: string): string {
    if |s| > 0 && s[|s| - 1] == '=' then StripPadding(s[..|s| - 1]) else s
  }

  function BytesToB64url(bs: Bytes): string {
    StripPadding(EncodePadded(bs))
  }

  function Pads(n: nat): string {
    seq(n, _ => '=')
  }

  /** The text with the padding its length calls for. */
  function Pad(s: string): string {
    s + Pads((-|s|) % 4)
  }

  /**
    The decoder's scan: `quad` symbols of the current quad are read, `left` holds their undelivered
    bits and `pads` the consecutive pads.
  */
  function Scan(s: string, quad: nat, left: nat, pads: nat): Result<Bytes, DecodeError>
    requires quad < 4
    requires (quad == 1 ==> left < 64) && (quad == 2 ==> left < 16) && (quad == 3 ==> left < 4)
  {
    if |s| == 0 then
      if quad == 0 then Success([]) else Failure(IncorrectPadding)
    else if s[0] == '=' then
      if quad >= 2 && quad + pads + 1 >= 4 then Success([])
      else Scan(s[1..], quad, left, if quad >= 2 then pads + 1 else pads)
    else match Value(s[0])
      case None => Scan(s[1..], quad, left, pads)
      case Some(v) =>
        match quad
        case 0 => Scan(s[1..], 1, v, 0)
        case 1 => Emit(left * 4 + v / 16, Scan(s[1..], 2, v % 16, 0))
        case 2 => Emit(left * 16 + v / 4, Scan(s[1..], 3, v % 4, 0))
        case _ => Emit(left * 64 + v, Scan(s[1..], 0, 0, 0))
  }

  function Emit(b: Byte, rest: Result<Bytes, DecodeError>): Result<Bytes, DecodeError> {
    match rest
    case Success(bs) => Success([b] + bs)
    case Failure(e) => Failure(e)
  }

  function B64urlToBytes(s: string): Result<Bytes, DecodeError> {
    if exists i | 0 <= i < |s| :: s[i] as int >= 128 then Failure(NonAscii)
    else Scan(Pad(s), 0, 0, 0)
  }

  /** What reading one symbol does in each of the four places of a quad. */
  lemma ScanSymbol(v: Sextet, rest: string, left: nat)
    ensures Scan([Symbol(v)] + rest, 0, left, 0) == Scan(rest, 1, v, 0)
    ensures left < 64 ==> Scan([Symbol(v)] + rest, 1, left, 0) == Emit(left * 4 + v / 16, Scan(rest, 2, v % 16, 0))
    ensures left < 16 ==> Scan([Symbol(v)] + rest, 2, left, 0) == Emit(left * 16 + v / 4, Scan(rest, 3, v % 4, 0))
    ensures left < 4 ==> Scan([Symbol(v)] + rest, 3, left, 0) == Emit(left * 64 + v, Scan(rest, 0, 0, 0))
  {
    assert ([Symbol(v)] + rest)[1..] == rest;
  }

  lemma ScanFirstTwo(x: Byte, y: nat, rest: string)
    requires y < 16
    ensures Scan([Symbol(x / 4)] + ([Symbol(x % 4 * 16 + y)] + rest), 0, 0, 0) == Emit(x, Scan(rest, 2, y, 0))
  {
    hide Scan, Symbol, Value, UrlSafe;
    var v := x % 4 * 16 + y;
    assert v / 16 == x % 4 && v % 16 == y;
    ScanSymbol(x / 4, [Symbol(v)] + rest, 0);
    ScanSymbol(v, rest, x / 4);
  }

  lemma ScanThird(y: Byte, z: nat, rest: string)
    requires z < 4
    ensures Scan([Symbol(y % 16 * 4 + z)] + rest, 2, y / 16, 0) == Emit(y, Scan(rest, 3, z, 0))
  {
    hide Scan, Symbol, Value, UrlSafe;
    var v := y % 16 * 4 + z;
    assert v / 4 == y % 16 && v % 4 == z;
    ScanSymbol(v, rest, y / 16);
  }

  lemma ScanQuad(x: Byte, y: Byte, z: Byte, rest: string)
    ensures Scan(Quad(x, y, z) + rest, 0, 0, 0)
         == Emit(x, Emit(y, Emit(z, Scan(rest, 0, 0, 0))))
  {
    hide Scan, Symbol, Value, UrlSafe;
    var s3 := [Symbol(z % 64)] + rest;
    var s2 := [Symbol(y % 16 * 4 + z / 64)] + s3;
    ScanFirstTwo(x, y / 16, s2);
    ScanThird(y, z / 64, s3);
    ScanSymbol(z % 64, rest, z / 64);
    assert Quad(x, y, z) + rest == [Symbol(x / 4)] + ([Symbol(x % 4 * 16 + y / 16)] + s2);
  }

  lemma ScanPads(left: nat)
    ensures left < 16 ==> Scan("==", 2, left, 0) == Success([])
    ensures left < 4 ==> Scan("=", 3, left, 0) == Success([])
  {
    assert "=="[1..] == "=";
  }

  lemma ScanLastOne(x: Byte)
    ensures Scan(One(x), 0, 0, 0) == Success([x])
  {
    hide Scan, Symbol, Value, UrlSafe;
    ScanFirstTwo(x, 0, "==");
    ScanPads(0);
    assert One(x) == [Symbol(x / 4)] + ([Symbol(x % 4 * 16 + 0)] + "==");
    assert [x] + [] == [x];
  }

  lemma ScanLastTwo(x: Byte, y: Byte)
    ensures Scan(Two(x, y), 0, 0, 0) == Success([x, y])
  {
    hide Scan, Symbol, Value, UrlSafe;
    var s2 := [Symbol(y % 16 * 4 + 0)] + "=";
    ScanFirstTwo(x, y / 16, s2);
    ScanThird(y, 0, "=");
    ScanPads(0);
    assert Two(x, y) == [Symbol(x / 4)] + ([Symbol(x % 4 * 16 + y / 16)] + s2);
    assert [x] + ([y] + []) == [x, y];
  }

  /** The scanner reads back every byte string the encoder writes. */
  lemma {:induction false} ScanEncoded(bs: Bytes)
    ensures Scan(EncodePadded(bs), 0, 0, 0) == Success(bs)
  {
    hide Symbol, Value, One, Two, Quad;
    if |bs| == 0 {
    } else if |bs| == 1 {
      ScanLastOne(bs[0]);
      assert bs == [bs[0]];
    } else if |bs| == 2 {
      ScanLastTwo(bs[0], bs[1]);
      assert bs == [bs[0], bs[1]];
    } else {
      var rest := EncodePadded(bs[3..]);
      ScanEncoded(bs[3..]);
      ScanQuad(bs[0], bs[1], bs[2], rest);
      assert [bs[0]] + ([bs[1]] + ([bs[2]] + bs[3..])) == bs;
    }
  }

  predicate AllUrlSafe(s: string) {
    forall c | c in s :: UrlSafe(c)
  }

  lemma CoreLength(n: nat)
    ensures (4 * n + 2) / 3 == if n < 3 then [0, 2, 3][n] else (4 * (n - 3) + 2) / 3 + 4
  {
  }

  /** How an encoding is made up: core symbols, pads, and a whole number of quads. */
  predicate Shaped(text: string, core: string, n: nat, bytes: nat) {
    && text == core + Pads(n) && AllUrlSafe(core)
    && n < 4 && (|core| + n) % 4 == 0 && |core| == (4 * bytes + 2) / 3
  }

  lemma ShortShape(bs: Bytes) returns (core: string, n: nat)
    requires |bs| < 3
    ensures Shaped(EncodePadded(bs), core, n, |bs|)
  {
    hide Symbol, Value, One, Two, UrlSafe;
    if |bs| == 0 {
      core, n := "", 0;
    } else if |bs| == 1 {
      var q := One(bs[0]);
      core, n := [q[0], q[1]], 2;
      assert q == core + q[2..];
    } else {
      var q := Two(bs[0], bs[1]);
      core, n := [q[0], q[1], q[2]], 1;
      assert q == core + q[3..];
    }
  }

  /** One quad more in front. */
  lemma LongerShape(q: string, text: string, core: string, n: nat, bytes: nat)
    requires |q| == 4 && AllUrlSafe(q) && Shaped(text, core, n, bytes)
    ensures Shaped(q + text, q + core, n, bytes + 3)
  {
    hide UrlSafe, Pads;
    CoreLength(bytes + 3);
    assert q + (core + Pads(n)) == (q + core) + Pads(n);
  }

  /** An encoding is URL-safe symbols, 4 for every 3 bytes, followed by its pads, a whole number of quads long. */
  lemma {:induction false} EncodedShape(bs: Bytes) returns (core: string, n: nat)
    ensures Shaped(EncodePadded(bs), core, n, |bs|)
  {
    hide Quad, Shaped;
    if |bs| < 3 {
      core, n := ShortShape(bs);
    } else {
      core, n := EncodedShape(bs[3..]);
      LongerShape(Quad(bs[0], bs[1], bs[2]), EncodePadded(bs[3..]), core, n, |bs| - 3);
      core := Quad(bs[0], bs[1], bs[2]) + core;
    }
  }

  lemma {:induction false} StripExactly(core: string, n: nat)
    requires AllUrlSafe(core)
    ensures StripPadding(core + Pads(n)) == core
  {
    if n == 0 {
      assert core + Pads(0) == core;
      assert |core| > 0 ==> core[|core| - 1] in core;
    } else {
      assert (core + Pads(n))[..|core| + n - 1] == core + Pads(n - 1);
      StripExactly(core, n - 1);
    }
  }

  lemma PadsDue(n: int, p: int)
    requires 0 <= p < 4 && (n + p) % 4 == 0
    ensures (-n) % 4 == p
  {
    var k, r := (n + p) / 4, (-n) % 4;
    assert -n == 4 * ((-n) / 4) + r && n + p == 4 * k;
    assert r - p == 4 * (-k - (-n) / 4);
  }

  /** The padding rebuilt from -len mod 4 is exactly the padding that was stripped. */
  lemma PaddingRebuilt(bs: Bytes)
    ensures Pad(BytesToB64url(bs)) == EncodePadded(bs)
    ensures AllUrlSafe(BytesToB64url(bs))
  {
    hide EncodePadded, StripPadding, UrlSafe, Pads;
    var core, n := EncodedShape(bs);
    StripExactly(core, n);
    PadsDue(|core|, n);
  }

  /** The text is URL-safe and as short as four symbols for three bytes allow. */
  lemma TextShape(bs: Bytes)
    ensures AllUrlSafe(BytesToB64url(bs)) && |BytesToB64url(bs)| == (4 * |bs| + 2) / 3
  {
    var core, n := EncodedShape(bs);
    StripExactly(core, n);
  }

  /** Every byte string survives the trip through its text. */
  lemma RoundTrip(bs: Bytes)
    ensures B64urlToBytes(BytesToB64url(bs)) == Success(bs)
  {
    PaddingRebuilt(bs);
    ScanEncoded(bs);
    var s := BytesToB64url(bs);
    assert forall i | 0 <= i < |s| :: s[i] in s && UrlSafe(s[i]);
  }

  /** Distinct byte strings get distinct texts, so the text can serve as a primary key. */
  lemma Injective(a: Bytes, b: Bytes)
    ensures BytesToB64url(a) == BytesToB64url(b) <==> a == b
  {
    RoundTrip(a);
    RoundTrip(b);
  }

  // ---- The text symbol by symbol ----

  const ALPHABET := "ABCDEFGHIJKLMNOPQRSTUVWXYZ" + "abcdefghijklmnopqrstuvwxyz" + "0123456789" + "-_"

  /** Past its end a byte string continues with zeros. */
  function ByteAt(bs: Bytes, i: nat): Byte {
    if i < |bs| then bs[i] else 0
  }

  function Power2(k: nat): (p: nat)
    ensures 1 <= p
  {
    if k == 0 then 1 else 2 * Power2(k - 1)
  }

  /** The bit of that number, counted from the most significant one of the first byte. */
  function Bit(bs: Bytes, n: nat): nat {
    ByteAt(bs, n / 8) / Power2(7 - n % 8) % 2
  }

  /** The six bits from 6k on, as a number. */
  function SixBits(bs: Bytes, k: nat): (g: nat)
    ensures g < 64
  {
    var n := 6 * k;
    32 * Bit(bs, n) + 16 * Bit(bs, n + 1) + 8 * Bit(bs, n + 2) + 4 * Bit(bs, n + 3) + 2 * Bit(bs, n + 4)
    + Bit(bs, n + 5)
  }

  lemma UpperCase(i: nat)
    requires i < 26
    ensures "ABCDEFGHIJKLMNOPQRSTUVWXYZ"[i] == 'A' + i as char
  {
  }

  lemma LowerCase(i: nat)
    requires i < 26
    ensures "abcdefghijklmnopqrstuvwxyz"[i] == 'a' + i as char
  {
  }

  lemma Decimal(i: nat)
    requires i < 10
    ensures "0123456789"[i] == '0' + i as char
  {
  }

  lemma SymbolInAlphabet(i: Sextet)
    ensures |ALPHABET| == 64 && Symbol(i) == ALPHABET[i]
  {
    if i < 26 {
      UpperCase(i);
    } else if i < 52 {
      LowerCase(i - 26);
    } else if i < 62 {
      Decimal(i - 52);
    }
  }

  /** A number shifted right once more, and the bit that falls off. */
  lemma Halves(b: Byte)
    ensures b / 128 < 2 && b / 64 == 2 * (b / 128) + b / 64 % 2 && b / 32 == 2 * (b / 64) + b / 32 % 2
    ensures b / 16 == 2 * (b / 32) + b / 16 % 2 && b / 8 == 2 * (b / 16) + b / 8 % 2
    ensures b / 4 == 2 * (b / 8) + b / 4 % 2 && b / 2 == 2 * (b / 4) + b / 2 % 2 && b == 2 * (b / 2) + b % 2
  {
  }

  lemma BitOfByte(bs: Bytes, i: nat, j: nat)
    requires j < 8
    ensures Bit(bs, 8 * i + j) == ByteAt(bs, i) / Power2(7 - j) % 2
  {
    hide Power2;
    assert (8 * i + j) / 8 == i && (8 * i + j) % 8 == j;
  }

  lemma Powers()
    ensures Power2(0) == 1 && Power2(1) == 2 && Power2(2) == 4 && Power2(3) == 8
    ensures Power2(4) == 16 && Power2(5) == 32 && Power2(6) == 64 && Power2(7) == 128
  {
  }

  lemma BitsOfByte(bs: Bytes, i: nat)
    ensures var b, n := ByteAt(bs, i), 8 * i;
            && Bit(bs, n) == b / 128 % 2 && Bit(bs, n + 1) == b / 64 % 2 && Bit(bs, n + 2) == b / 32 % 2
            && Bit(bs, n + 3) == b / 16 % 2 && Bit(bs, n + 4) == b / 8 % 2 && Bit(bs, n + 5) == b / 4 % 2
            && Bit(bs, n + 6) == b / 2 % 2 && Bit(bs, n + 7) == b % 2
  {
    hide Bit, ByteAt, Power2;
    Powers();
    BitOfByte(bs, i, 0);
    BitOfByte(bs, i, 1);
    BitOfByte(bs, i, 2);
    BitOfByte(bs, i, 3);
    BitOfByte(bs, i, 4);
    BitOfByte(bs, i, 5);
    BitOfByte(bs, i, 6);
    BitOfByte(bs, i, 7);
  }

  /** A byte in its bits. */
  lemma ByteBits(bs: Bytes, i: nat)
    ensures var b, n := ByteAt(bs, i), 8 * i;
            && b / 64 == 2 * Bit(bs, n) + Bit(bs, n + 1)
            && b / 16 == 4 * (b / 64) + 2 * Bit(bs, n + 2) + Bit(bs, n + 3)
            && b / 4 == 4 * (b / 16) + 2 * Bit(bs, n + 4) + Bit(bs, n + 5)
            && b == 4 * (b / 4) + 2 * Bit(bs, n + 6) + Bit(bs, n + 7)
            && Bit(bs, n) < 2 && Bit(bs, n + 1) < 2 && Bit(bs, n + 2) < 2 && Bit(bs, n + 3) < 2
            && Bit(bs, n + 4) < 2 && Bit(bs, n + 5) < 2 && Bit(bs, n + 6) < 2 && Bit(bs, n + 7) < 2
  {
    hide Bit, ByteAt;
    BitsOfByte(bs, i);
    Halves(ByteAt(bs, i));
  }

  /** The four groups of three bytes. */
  lemma GroupsOfThree(bs: Bytes)
    ensures var x, y, z := ByteAt(bs, 0), ByteAt(bs, 1), ByteAt(bs, 2);
            && SixBits(bs, 0) == x / 4 && SixBits(bs, 1) == x % 4 * 16 + y / 16
            && SixBits(bs, 2) == y % 16 * 4 + z / 64 && SixBits(bs, 3) == z % 64
  {
    hide Bit, ByteAt;
    ByteBits(bs, 0);
    ByteBits(bs, 1);
    ByteBits(bs, 2);
  }

  lemma BitsLater(bs: Bytes, n: nat)
    requires 3 <= |bs|
    ensures Bit(bs, n + 24) == Bit(bs[3..], n)
  {
    assert (n + 24) / 8 == n / 8 + 3 && (n + 24) % 8 == n % 8;
  }

  lemma GroupsLater(bs: Bytes, k: nat)
    requires 3 <= |bs| && 4 <= k
    ensures SixBits(bs, k) == SixBits(bs[3..], k - 4)
  {
    hide Bit;
    var n := 6 * (k - 4);
    BitsLater(bs, n);
    BitsLater(bs, n + 1);
    BitsLater(bs, n + 2);
    BitsLater(bs, n + 3);
    BitsLater(bs, n + 4);
    BitsLater(bs, n + 5);
  }

  /** How an encoding begins, whatever its length. */
  lemma FirstQuad(bs: Bytes)
    requires |bs| > 0
    ensures var s := EncodePadded(bs);
            && |s| >= 4 && s[0] == Symbol(ByteAt(bs, 0) / 4)
            && s[1] == Symbol(ByteAt(bs, 0) % 4 * 16 + ByteAt(bs, 1) / 16)
            && (|bs| > 1 ==> s[2] == Symbol(ByteAt(bs, 1) % 16 * 4 + ByteAt(bs, 2) / 64))
            && (|bs| > 2 ==> s[3] == Symbol(ByteAt(bs, 2) % 64))
  {
    hide Symbol, Value, UrlSafe, Pads;
  }

  lemma FirstSymbols(bs: Bytes, k: nat)
    requires k < 4 && |bs| > 0 && (k == 2 ==> |bs| > 1) && (k == 3 ==> |bs| > 2)
    ensures k < |EncodePadded(bs)| && EncodePadded(bs)[k] == Symbol(SixBits(bs, k))
  {
    hide SixBits, Symbol, EncodePadded, ByteAt;
    FirstQuad(bs);
    GroupsOfThree(bs);
  }

  lemma {:induction false} EncodedBySymbol(bs: Bytes, k: nat)
    requires k < (4 * |bs| + 2) / 3
    ensures k < |EncodePadded(bs)| && EncodePadded(bs)[k] == Symbol(SixBits(bs, k))
  {
    hide SixBits, Symbol, Quad;
    CoreLength(|bs|);
    if k < 4 {
      hide EncodePadded;
      FirstSymbols(bs, k);
    } else {
      EncodedBySymbol(bs[3..], k - 4);
      GroupsLater(bs, k);
    }
  }

  /** Each symbol is the alphabet's at the next six bits, most significant first, zero-filled at the end. */
  lemma TextBySymbol(bs: Bytes, k: nat)
    requires k < |BytesToB64url(bs)|
    ensures BytesToB64url(bs)[k] == ALPHABET[SixBits(bs, k)]
  {
    hide ALPHABET, SixBits, Symbol, EncodePadded, BytesToB64url;
    TextShape(bs);
    EncodedBySymbol(bs, k);
    SymbolInAlphabet(SixBits(bs, k));
    PaddingRebuilt(bs);
    assert Pad(BytesToB64url(bs))[k] == BytesToB64url(bs)[k];
  }

  // ---- What the decoder makes of other texts ----

  /** The bits read but not yet delivered in each place of a quad. */
  function Waiting(quad: nat): nat
    requires quad < 4
  {
    if quad == 0 then 0 else 8 - 2 * quad
  }

  lemma ScanEnd(quad: nat, left: nat, p: nat)
    requires quad < 4 && p < 4 && (quad + p) % 4 == 0
    requires (quad == 1 ==> left < 64) && (quad == 2 ==> left < 16) && (quad == 3 ==> left < 4)
    ensures Scan(Pads(p), quad, left, 0) == if p == 3 then Failure(IncorrectPadding) else Success([])
  {
    if p == 1 {
      assert Pads(1) == "=";
    } else if p == 2 {
      assert Pads(2) == "==";
      ScanPads(left);
    } else if p == 3 {
      assert Pads(3) == "===" && "==="[1..] == "==" && "=="[1..] == "=";
      assert Scan("=", 1, left, 0) == Scan("", 1, left, 0);
    }
  }

  lemma {:induction false} ScanSymbols(s: string, quad: nat, left: nat, p: nat)
    requires AllUrlSafe(s) && quad < 4 && p < 4 && (quad + |s| + p) % 4 == 0
    requires (quad == 1 ==> left < 64) && (quad == 2 ==> left < 16) && (quad == 3 ==> left < 4)
    ensures var r := Scan(s + Pads(p), quad, left, 0);
            && (p == 3 ==> r == Failure(IncorrectPadding))
            && (p != 3 ==> r.Success? && |r.value| == (Waiting(quad) + 6 * |s|) / 8)
    decreases |s|
  {
    if |s| == 0 {
      assert s + Pads(p) == Pads(p);
      ScanEnd(quad, left, p);
    } else {
      var rest := s[1..] + Pads(p);
      assert s[0] in s && (s + Pads(p))[1..] == rest && forall c | c in s[1..] :: c in s;
      var v: Sextet := Value(s[0]).value;
      if quad == 0 {
        ScanSymbols(s[1..], 1, v, p);
      } else if quad == 1 {
        ScanSymbols(s[1..], 2, v % 16, p);
      } else if quad == 2 {
        ScanSymbols(s[1..], 3, v % 4, p);
      } else {
        ScanSymbols(s[1..], 0, 0, p);
      }
    }
  }

  lemma RoundedUp(n: int)
    ensures var p := (-n) % 4; (n + p) % 4 == 0 && (p == 3 <==> n % 4 == 1)
  {
    var p, q, r := (-n) % 4, (-n) / 4, n / 4;
    assert -n == 4 * q + p && n == 4 * r + n % 4;
    assert n + p == 4 * (-q) && p + n % 4 == 4 * (-q - r);
  }

  /** A text of the alphabet decodes exactly if its last quad is not a single symbol, to six bits a symbol. */
  lemma DecodesSymbols(s: string)
    requires AllUrlSafe(s)
    ensures if |s| % 4 == 1 then B64urlToBytes(s) == Failure(IncorrectPadding)
            else B64urlToBytes(s).Success? && |B64urlToBytes(s).value| == 6 * |s| / 8
  {
    hide Scan;
    var p := (-|s|) % 4;
    RoundedUp(|s|);
    ScanSymbols(s, 0, 0, p);
    assert forall i | 0 <= i < |s| :: s[i] in s && UrlSafe(s[i]);
  }

  /** A text with a character outside ASCII is refused for it, and no other text is. */
  lemma NonAsciiRefused(s: string)
    ensures B64urlToBytes(s) == Failure(NonAscii) <==> exists i | 0 <= i < |s| :: s[i] as int >= 128
  {
    hide Scan;
    ScanError(Pad(s), 0, 0, 0);
  }

  lemma {:induction false} ScanError(s: string, quad: nat, left: nat, pads: nat)
    requires quad < 4
    requires (quad == 1 ==> left < 64) && (quad == 2 ==> left < 16) && (quad == 3 ==> left < 4)
    ensures Scan(s, quad, left, pads) != Failure(NonAscii)
    decreases |s|
  {
    if |s| > 0 {
      if s[0] == '=' {
        ScanError(s[1..], quad, left, if quad >= 2 then pads + 1 else pads);
      } else if Value(s[0]).None? {
        ScanError(s[1..], quad, left, pads);
      } else {
        var v: Sextet := Value(s[0]).value;
        if quad == 0 {
          ScanError(s[1..], 1, v, 0);
        } else if quad == 1 {
          ScanError(s[1..], 2, v % 16, 0);
        } else if quad == 2 {
          ScanError(s[1..], 3, v % 4, 0);
        } else {
          ScanError(s[1..], 0, 0, 0);
        }
      }
    }
  }

  /** Where the scan stands after a character, and the byte it delivers. */
  function Advance(c: char, quad: nat, left: nat, pads: nat): (nat, nat, nat, Option<Byte>)
    requires InQuad(quad, left)
  {
    if c == '=' then (quad, left, if quad >= 2 then pads + 1 else pads, None)
    else match Value(c)
      case None => (quad, left, pads, None)
      case Some(v) =>
        if quad == 0 then (1, v, 0, None)
        else if quad == 1 then (2, v % 16, 0, Some(left * 4 + v / 16))
        else if quad == 2 then (3, v % 4, 0, Some(left * 16 + v / 4))
        else (0, 0, 0, Some(left * 64 + v))
  }

  predicate InQuad(quad: nat, left: nat) {
    quad < 4 && (quad == 1 ==> left < 64) && (quad == 2 ==> left < 16) && (quad == 3 ==> left < 4)
  }

  lemma ScanAdvances(c: char, rest: string, quad: nat, left: nat, pads: nat)
    requires InQuad(quad, left)
    ensures var (quad', left', pads', b) := Advance(c, quad, left, pads);
            && InQuad(quad', left')
            && Scan([c] + rest, quad, left, pads) ==
               if c == '=' && quad >= 2 && quad + pads + 1 >= 4 then Success([])
               else if b.Some? then Emit(b.value, Scan(rest, quad', left', pads')) else Scan(rest, quad', left', pads')
  {
    hide Value;
    assert ([c] + rest)[1..] == rest;
  }

  /** Characters the scan cannot tell apart. */
  predicate SameSymbol(c: char, d: char) {
    (c == '=' <==> d == '=') && Value(c) == Value(d)
  }

  /** Texts that differ only in such characters, and in skipped ones, scan alike. */
  lemma {:induction false} ScanSame(s: string, u: string, n: string, t: string, quad: nat, left: nat, pads: nat)
    requires InQuad(quad, left) && |s| == |u| && forall i | 0 <= i < |s| :: SameSymbol(s[i], u[i])
    requires forall i | 0 <= i < |n| :: Value(n[i]).None? && n[i] != '='
    ensures Scan(s + n + t, quad, left, pads) == Scan(u + t, quad, left, pads)
    decreases |s| + |n|
  {
    hide Scan, Value, Emit, InQuad;
    if |s| > 0 {
      assert s + n + t == [s[0]] + (s[1..] + n + t) && u + t == [u[0]] + (u[1..] + t);
      ScanAdvances(s[0], s[1..] + n + t, quad, left, pads);
      ScanAdvances(u[0], u[1..] + t, quad, left, pads);
      var (quad', left', pads', _) := Advance(s[0], quad, left, pads);
      ScanSame(s[1..], u[1..], n, t, quad', left', pads');
    } else if |n| > 0 {
      assert s + n + t == [n[0]] + (n[1..] + t) && u + t == t && "" + n[1..] + t == n[1..] + t && "" + t == t;
      ScanAdvances(n[0], n[1..] + t, quad, left, pads);
      ScanSame("", "", n[1..], t, quad, left, pads);
    } else {
      assert s + n + t == t && u + t == t;
    }
  }

  /** The standard alphabet's last two symbols in place of the URL-safe ones. */
  function Standard(s: string): string {
    seq(|s|, i requires 0 <= i < |s| => if s[i] == '-' then '+' else if s[i] == '_' then '/' else s[i])
  }

  predicate Noise(c: char) {
    c as int < 128 && !UrlSafe(c) && c != '+' && c != '/' && c != '='
  }

  /**
    The decoder also reads the standard alphabet, and skips other ASCII characters, which count only
    towards the padding that the length calls for.
  */
  lemma DecodesAlike(a: string, n: string, b: string)
    requires |n| % 4 == 0 && forall i | 0 <= i < |n| :: Noise(n[i])
    ensures B64urlToBytes(Standard(a) + n + b) == B64urlToBytes(a + b)
  {
    hide Scan, InQuad;
    var s, u := Standard(a) + n + b, a + b;
    assert |s| == |u| + |n| && (-|s|) % 4 == (-|u|) % 4 by { SamePadding(|u|, |n|); }
    var pads := Pads((-|u|) % 4);
    assert InQuad(0, 0) by { EmptyQuad(); }
    ScanSame(Standard(a), a, n, b + pads, 0, 0, 0);
    assert Pad(s) == Standard(a) + n + (b + pads) && Pad(u) == a + (b + pads);
    assert (exists i | 0 <= i < |s| :: s[i] as int >= 128) <==> (exists i | 0 <= i < |u| :: u[i] as int >= 128) by {
      if i :| 0 <= i < |s| && s[i] as int >= 128 {
        assert (i < |a| && u[i] == s[i]) || (i >= |a| + |n| && u[i - |n|] == s[i]);
      }
      if i :| 0 <= i < |u| && u[i] as int >= 128 {
        assert s[if i < |a| then i else i + |n|] == u[i];
      }
    }
  }

  lemma EmptyQuad()
    ensures InQuad(0, 0)
  {
  }

  lemma SamePadding(u: int, n: int)
    requires n % 4 == 0
    ensures (-(u + n)) % 4 == (-u) % 4
  {
    var p, k := (-u) % 4, n / 4;
    RoundedUp(u);
    assert u + n + p == 4 * ((u + p) / 4 + k);
    PadsDue(u + n, p);
  }
}
