/**
 * PasswordUtil: lower-case hex encoding of byte arrays, hex decoding, salt
 * generation and salted password hashing.
 *
 * Java bytes are signed, so a byte is the integer range [-128, 127]. The hash
 * function (SHA-256) and the random source (SecureRandom) are library code and
 * enter the model as parameters.
 */
module PasswordUtil {
  import opened Wrappers

  newtype JByte = x: int | -128 <= x < 128

  /** The lookup table HEX of the source. */
  const HEX: string := "0123456789abcdef"

  /** The (byte) cast of an int: keeps the low 8 bits, read as two's complement. */
  function ToJByte(v: int): (b: JByte)
    ensures (b as int - v) % 256 == 0
    ensures -128 <= v < 128 ==> b as int == v
  {
    ((v + 128) % 256 - 128) as JByte
  }

  /** The byte read as an unsigned value in [0, 255]. */
  function Unsigned(b: JByte): (u: int)
    ensures 0 <= u < 256 && (u - b as int) % 256 == 0
  {
    if b < 0 then b as int + 256 else b as int
  }

  /**
   * (b >> 4) & 0xF: the arithmetic shift of the sign-extended byte is a floor
   * division by 16 (Dafny's / is floor division for a positive divisor), and
   * the mask keeps that value modulo 16.
   */
  function HighNibble(b: JByte): int {
    (b as int / 16) % 16
  }

  /** b & 0xF. */
  function LowNibble(b: JByte): int {
    b as int % 16
  }

  /** The two nibbles rebuild the unsigned value of the byte, negative bytes included. */
  lemma NibblesOfByte(b: JByte)
    ensures 0 <= HighNibble(b) < 16 && 0 <= LowNibble(b) < 16
    ensures HighNibble(b) * 16 + LowNibble(b) == Unsigned(b)
  {
  }

  /** The two chars the loop body of toHex appends for one byte. */
  function ByteHex(b: JByte): string {
    [HEX[HighNibble(b)], HEX[LowNibble(b)]]
  }

  /** The string toHex builds: the bytes' hex pairs, in order. */
  function HexOf(bytes: seq<JByte>): string {
    if |bytes| == 0 then "" else HexOf(bytes[..|bytes| - 1]) + ByteHex(bytes[|bytes| - 1])
  }

  predicate IsLowerHexChar(c: char) {
    c in HEX
  }

  predicate IsLowerHex(s: string) {
    forall i :: 0 <= i < |s| ==> IsLowerHexChar(s[i])
  }

  /** Two chars per byte, high nibble then low nibble, each taken from HEX. */
  lemma {:induction false} HexOfShape(bytes: seq<JByte>)
    ensures |HexOf(bytes)| == 2 * |bytes|
    ensures forall k :: 0 <= k < |bytes| ==>
      HexOf(bytes)[2 * k] == HEX[HighNibble(bytes[k])] && HexOf(bytes)[2 * k + 1] == HEX[LowNibble(bytes[k])]
    decreases |bytes|
  {
    if |bytes| > 0 {
      var init := bytes[..|bytes| - 1];
      HexOfShape(init);
      var h := HexOf(bytes);
      assert h == HexOf(init) + ByteHex(bytes[|bytes| - 1]);
      forall k | 0 <= k < |bytes|
        ensures h[2 * k] == HEX[HighNibble(bytes[k])] && h[2 * k + 1] == HEX[LowNibble(bytes[k])]
      {
        if k < |init| {
          assert bytes[k] == init[k];
        }
      }
    }
  }

  /** Char i of the encoding is a nibble digit of byte i / 2. */
  lemma HexOfAt(bytes: seq<JByte>, i: int)
    requires 0 <= i < 2 * |bytes|
    ensures |HexOf(bytes)| == 2 * |bytes|
    ensures HexOf(bytes)[i] ==
      if i % 2 == 0 then HEX[HighNibble(bytes[i / 2])] else HEX[LowNibble(bytes[i / 2])]
  {
    HexOfShape(bytes);
    var k := i / 2;
    assert i == 2 * k || i == 2 * k + 1;
  }

  /** Every char of toHex's output is one of the sixteen lower-case hex digits. */
  lemma HexOfIsLowerHex(bytes: seq<JByte>)
    ensures IsLowerHex(HexOf(bytes))
  {
    var h := HexOf(bytes);
    HexOfShape(bytes);
    forall i | 0 <= i < |h| ensures IsLowerHexChar(h[i]) {
      HexOfAt(bytes, i);
      NibblesOfByte(bytes[i / 2]);
    }
  }

  /**
   * toHex: appends the two hex digits of every byte to a StringBuilder sized
   * for twice the input.
   */
  method ToHex(bytes: array<JByte>) returns (s: string)
    ensures s == HexOf(bytes[..])
    ensures |s| == 2 * bytes.Length && IsLowerHex(s)
  {
    s := "";
    var i := 0;
    while i < bytes.Length
      invariant 0 <= i <= bytes.Length
      invariant s == HexOf(bytes[..i])
    {
      var b := bytes[i];
      s := s + [HEX[HighNibble(b)]] + [HEX[LowNibble(b)]];
      assert bytes[..i + 1][..i] == bytes[..i];
      i := i + 1;
    }
    assert bytes[..i] == bytes[..];
    HexOfShape(bytes[..]);
    HexOfIsLowerHex(bytes[..]);
  }

  /** Character.digit(c, 16) on ASCII: the digit's value, or -1 for a char that is not a hex digit. */
  function HexDigit(c: char): (d: int)
    ensures -1 <= d < 16
  {
    if '0' <= c <= '9' then c as int - '0' as int
    else if 'a' <= c <= 'f' then c as int - 'a' as int + 10
    else if 'A' <= c <= 'F' then c as int - 'A' as int + 10
    else -1
  }

  /** (byte) ((digit(hi) << 4) + digit(lo)): one byte of fromHex's output. */
  function PairByte(hi: char, lo: char): JByte {
    ToJByte(HexDigit(hi) * 16 + HexDigit(lo))
  }

  /** The exception fromHex throws: charAt past the end on an odd-length input. */
  datatype HexError = StringIndexOutOfBounds(index: int)

  /** The bytes fromHex produces from an even-length string. */
  function PairBytes(hex: string): (r: seq<JByte>)
    requires |hex| % 2 == 0
    ensures |r| == |hex| / 2
  {
    seq(|hex| / 2, k requires 0 <= k < |hex| / 2 => PairByte(hex[2 * k], hex[2 * k + 1]))
  }

  /** fromHex as a whole: half as many bytes as chars, or the exception for an odd length. */
  function DecodeHex(hex: string): Result<seq<JByte>, HexError> {
    if |hex| % 2 == 1 then Failure(StringIndexOutOfBounds(|hex|)) else Success(PairBytes(hex))
  }

  /**
   * fromHex: allocates len / 2 bytes and fills them two chars at a time. On an
   * odd length the last round reads charAt(len), which throws before the store.
   */
  method FromHex(hex: string) returns (r: Result<array<JByte>, HexError>)
    ensures r.Failure? <==> |hex| % 2 == 1
    ensures r.Failure? ==> r.error == StringIndexOutOfBounds(|hex|)
    ensures r.Success? ==> r.value.Length == |hex| / 2 && r.value[..] == PairBytes(hex)
  {
    var len := |hex|;
    var data := new JByte[len / 2];
    var i := 0;
    while i < len
      invariant 0 <= i && i % 2 == 0 && (i <= len || i == len + 1)
      invariant i <= len
      invariant forall k :: 0 <= k < i / 2 ==> data[k] == PairByte(hex[2 * k], hex[2 * k + 1])
    {
      if i + 1 >= len {
        return Failure(StringIndexOutOfBounds(i + 1));
      }
      data[i / 2] := PairByte(hex[i], hex[i + 1]);
      i := i + 2;
    }
    assert data[..] == PairBytes(hex);
    return Success(data);
  }

  lemma HexDigitOfHex(n: int)
    requires 0 <= n < 16
    ensures HexDigit(HEX[n]) == n
  {
  }

  /** Decoding the two chars of a byte gives the byte back. */
  lemma PairByteOfByteHex(b: JByte)
    ensures PairByte(HEX[HighNibble(b)], HEX[LowNibble(b)]) == b
  {
    NibblesOfByte(b);
    HexDigitOfHex(HighNibble(b));
    HexDigitOfHex(LowNibble(b));
  }

  /** Round trip: fromHex(toHex(b)) == b for every byte sequence. */
  lemma DecodeOfHex(bytes: seq<JByte>)
    ensures DecodeHex(HexOf(bytes)) == Success(bytes)
  {
    var s := HexOf(bytes);
    HexOfShape(bytes);
    Halves(|bytes|);
    var d := PairBytes(s);
    forall k | 0 <= k < |bytes| ensures d[k] == bytes[k] {
      PairBytesAt(s, k);
      DecodeOfHexAt(bytes, k);
    }
    assert d == bytes;
  }

  lemma PairBytesAt(hex: string, k: int)
    requires |hex| % 2 == 0 && 0 <= k < |hex| / 2
    ensures PairBytes(hex)[k] == PairByte(hex[2 * k], hex[2 * k + 1])
  {
  }

  lemma Halves(n: nat)
    ensures (2 * n) % 2 == 0 && (2 * n) / 2 == n
  {
  }

  /** The two chars toHex writes for byte k decode to byte k. */
  lemma DecodeOfHexAt(bytes: seq<JByte>, k: int)
    requires 0 <= k < |bytes|
    ensures |HexOf(bytes)| == 2 * |bytes|
    ensures PairByte(HexOf(bytes)[2 * k], HexOf(bytes)[2 * k + 1]) == bytes[k]
  {
    HexOfShape(bytes);
    PairByteOfByteHex(bytes[k]);
  }

  lemma HexDigitIndex(c: char)
    requires IsLowerHexChar(c)
    ensures 0 <= HexDigit(c) < 16 && HEX[HexDigit(c)] == c
  {
  }

  /** Casting an unsigned byte value to a Java byte keeps both of its nibbles. */
  lemma NibblesOfCast(v: int)
    requires 0 <= v < 256
    ensures HighNibble(ToJByte(v)) == v / 16 && LowNibble(ToJByte(v)) == v % 16
  {
    var b := ToJByte(v);
    if v < 128 {
      assert b as int == v;
    } else {
      assert b as int == v - 256;
      assert (v - 256) / 16 == v / 16 - 16;
      assert (v - 256) % 16 == v % 16;
    }
  }

  /** A byte decoded from two lower-case hex chars splits back into the same two nibbles. */
  lemma NibblesOfPairByte(hi: char, lo: char)
    requires IsLowerHexChar(hi) && IsLowerHexChar(lo)
    ensures HEX[HighNibble(PairByte(hi, lo))] == hi && HEX[LowNibble(PairByte(hi, lo))] == lo
  {
    HexDigitIndex(hi);
    HexDigitIndex(lo);
    var dh, dl := HexDigit(hi), HexDigit(lo);
    var v := dh * 16 + dl;
    assert v / 16 == dh && v % 16 == dl;
    NibblesOfCast(v);
  }

  /** Round trip: toHex(fromHex(s)) == s for every even-length lower-case hex string. */
  lemma HexOfDecode(s: string)
    requires |s| % 2 == 0 && IsLowerHex(s)
    ensures HexOf(PairBytes(s)) == s
  {
    var bytes := PairBytes(s);
    var h := HexOf(bytes);
    assert |h| == |s| by {
      HexOfShape(bytes);
    }
    forall i | 0 <= i < |s| ensures h[i] == s[i] {
      var k := i / 2;
      Parity(i);
      HexOfDecodePair(s, bytes, k);
      if i == 2 * k {
        assert h[2 * k] == s[2 * k];
      } else {
        assert h[2 * k + 1] == s[2 * k + 1];
      }
    }
    assert h == s;
  }

  /** Re-encoding the byte decoded from chars 2k and 2k + 1 gives those two chars back. */
  lemma HexOfDecodePair(s: string, bytes: seq<JByte>, k: int)
    requires |s| % 2 == 0 && IsLowerHex(s) && bytes == PairBytes(s)
    requires 0 <= k < |s| / 2
    ensures |HexOf(bytes)| == |s|
    ensures HexOf(bytes)[2 * k] == s[2 * k] && HexOf(bytes)[2 * k + 1] == s[2 * k + 1]
  {
    HexOfShape(bytes);
    var hi, lo := s[2 * k], s[2 * k + 1];
    assert IsLowerHexChar(hi) && IsLowerHexChar(lo);
    PairBytesAt(s, k);
    NibblesOfPairByte(hi, lo);
  }

  lemma Parity(i: int)
    requires i >= 0
    ensures i == 2 * (i / 2) || i == 2 * (i / 2) + 1
  {
  }


  /** Upper-case input decodes, but re-encodes in lower case: the second round trip needs lower-case input. */
  lemma UpperCaseDoesNotRoundTrip()
    ensures DecodeHex("AB") == Success([-85 as JByte])
    ensures HexOf([-85 as JByte]) == "ab"
  {
    assert HexDigit('A') == 10 && HexDigit('B') == 11;
    assert PairByte('A', 'B') == -85 as JByte;
    assert PairBytes("AB") == [PairByte('A', 'B')];
    assert HexOf([-85 as JByte]) == HexOf([]) + ByteHex(-85 as JByte);
  }

  const SaltBytes: nat := 16
  const DigestBytes: nat := 32

  /**
   * generateSaltHex: a 16-byte array filled by SecureRandom.nextBytes, then
   * hex-encoded. The random bytes are the parameter.
   */
  method GenerateSaltHex(random: seq<JByte>) returns (salt: string)
    requires |random| == SaltBytes
    ensures salt == HexOf(random)
    ensures |salt| == 2 * SaltBytes && IsLowerHex(salt)
    ensures DecodeHex(salt) == Success(random)
  {
    var bytes := new JByte[SaltBytes];
    forall i | 0 <= i < SaltBytes {
      bytes[i] := random[i];
    }
    assert bytes[..] == random;
    salt := ToHex(bytes);
    DecodeOfHex(random);
  }

  /** password.getBytes("UTF-8") for one char (a Unicode scalar value). */
  function Utf8Char(c: char): seq<JByte> {
    var cp := c as int;
    if cp < 0x80 then [ToJByte(cp)]
    else if cp < 0x800 then [ToJByte(0xC0 + cp / 0x40), ToJByte(0x80 + cp % 0x40)]
    else if cp < 0x1_0000 then
      [ToJByte(0xE0 + cp / 0x1000), ToJByte(0x80 + (cp / 0x40) % 0x40), ToJByte(0x80 + cp % 0x40)]
    else
      [ToJByte(0xF0 + cp / 0x4_0000), ToJByte(0x80 + (cp / 0x1000) % 0x40),
       ToJByte(0x80 + (cp / 0x40) % 0x40), ToJByte(0x80 + cp % 0x40)]
  }

  function Utf8(s: string): seq<JByte> {
    if s == "" then [] else Utf8(s[..|s| - 1]) + Utf8Char(s[|s| - 1])
  }

  /** A message digest: SHA-256 is left abstract. */
  type Digest = seq<JByte> -> seq<JByte>

  /** What the model assumes of SHA-256: every message digests to 32 bytes. */
  ghost predicate Produces32Bytes(digest: Digest) {
    forall m :: |digest(m)| == DigestBytes
  }

  /** hashPassword: hex of the digest of the salt's bytes followed by the UTF-8 bytes of the password. */
  function HashHex(digest: Digest, password: string, saltHex: string): Result<string, HexError> {
    match DecodeHex(saltHex)
    case Failure(e) => Failure(e)
    case Success(salt) => Success(HexOf(digest(salt + Utf8(password))))
  }

  /** A salted hash is 64 lower-case hex chars, and hashing a generated salt cannot fail. */
  lemma HashHexShape(digest: Digest, password: string, saltHex: string)
    requires Produces32Bytes(digest) && |saltHex| % 2 == 0
    ensures HashHex(digest, password, saltHex).Success?
    ensures |HashHex(digest, password, saltHex).value| == 2 * DigestBytes
    ensures IsLowerHex(HashHex(digest, password, saltHex).value)
  {
    HexOfShape(digest(PairBytes(saltHex) + Utf8(password)));
    HexOfIsLowerHex(digest(PairBytes(saltHex) + Utf8(password)));
  }

  /** Hashing with a salt made from random bytes digests exactly those bytes before the password. */
  lemma HashOfGeneratedSalt(digest: Digest, password: string, random: seq<JByte>)
    ensures HashHex(digest, password, HexOf(random)) == Success(HexOf(digest(random + Utf8(password))))
  {
    DecodeOfHex(random);
  }

  /**
   * hashPassword: decodes the salt, digests salt bytes then password bytes,
   * and hex-encodes the digest. The decoding exception is rethrown.
   */
  method HashPassword(digest: Digest, password: string, saltHex: string) returns (r: Result<string, HexError>)
    ensures r == HashHex(digest, password, saltHex)
  {
    var decoded := FromHex(saltHex);
    if decoded.Failure? {
      return Failure(decoded.error);
    }
    var salt := decoded.value;
    var hashed := digest(salt[..] + Utf8(password));
    var out := new JByte[|hashed|](i requires 0 <= i < |hashed| => hashed[i]);
    assert out[..] == hashed;
    var hex := ToHex(out);
    return Success(hex);
  }
}
