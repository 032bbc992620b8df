/**
 * A concrete `Library` that satisfies `Lawful`, showing the laws the core
 * relies on are consistent. It is not the real library: the "Base64" spells
 * each byte as two letters 'A'..'P' and rejects any other character, the "UTF-8" spends three bytes per character,
 * and the "cipher" is PKCS#5 padding alone (RFC 8018 section 6.1.1) with no
 * block cipher.
 */
module PrimitivesWitness {
  import opened Wrappers
  import opened Primitives

  /** The letter 'A' + d for a digit 0 <= d < 16. */
  function Letter(d: int): char
    requires 0 <= d < 16
  {
    ('A' as int + d) as char
  }

  predicate IsLetterDigit(c: char) {
    'A' <= c <= 'P'
  }

  function ByteChars(b: Bytes): string {
    seq(2 * |b|, i requires 0 <= i < 2 * |b| =>
      if i % 2 == 0 then Letter(b[i / 2] as int / 16) else Letter(b[i / 2] as int % 16))
  }

  function CharBytes(s: string): Option<Bytes> {
    if |s| % 2 == 0 && forall i | 0 <= i < |s| :: IsLetterDigit(s[i]) then
      Some(seq(|s| / 2, j requires 0 <= j < |s| / 2 =>
        ((s[2 * j] as int - 'A' as int) * 16 + (s[2 * j + 1] as int - 'A' as int)) as Byte))
    else None
  }

  function ScalarOf(v: int): char {
    if 0 <= v < 0xD800 || 0xE000 <= v < 0x11_0000 then v as char else '\U{FFFD}'
  }

  /** The 3-byte big-endian form of a character's scalar value. */
  function CharChunk(c: char): Bytes {
    var v := c as int;
    [(v / 65536) as Byte, ((v / 256) % 256) as Byte, (v % 256) as Byte]
  }

  function ThreeByteEncode(s: string): Bytes {
    if s == [] then [] else CharChunk(s[0]) + ThreeByteEncode(s[1..])
  }

  function ThreeByteDecode(b: Bytes): string {
    if |b| < 3 then []
    else [ScalarOf(b[0] as int * 65536 + b[1] as int * 256 + b[2] as int)] + ThreeByteDecode(b[3..])
  }

  /** PKCS#5 padding: `n` bytes of value `n`, 1 <= n <= 16, up to the next block boundary. */
  function Pad(m: Bytes): Bytes {
    var n := BlockSize - |m| % BlockSize;
    m + seq(n, _ => n as Byte)
  }

  function Unpad(c: Bytes): Option<Bytes> {
    if |c| == 0 || |c| % BlockSize != 0 then None
    else
      var n := c[|c| - 1] as int;
      if 1 <= n <= BlockSize && (forall i | |c| - n <= i < |c| :: c[i] == c[|c| - 1])
      then Some(c[..|c| - n])
      else None
  }

  function Witness(): Library {
    Library(
      ByteChars,
      CharBytes,
      ThreeByteEncode,
      ThreeByteDecode,
      (k: Bytes, iv: Bytes, m: Bytes) => Pad(m),
      (k: Bytes, iv: Bytes, c: Bytes) => Unpad(c),
      (doc: string) => None)
  }

  lemma ByteCharsRoundTrip(b: Bytes)
    ensures CharBytes(ByteChars(b)) == Some(b)
  {
    var s := ByteChars(b);
    forall i | 0 <= i < |s|
      ensures IsLetterDigit(s[i])
    {
    }
    var d := CharBytes(s).value;
    forall j | 0 <= j < |b|
      ensures d[j] == b[j]
    {
      assert s[2 * j] as int - 'A' as int == b[j] as int / 16;
      assert s[2 * j + 1] as int - 'A' as int == b[j] as int % 16;
    }
    assert d == b;
  }

  lemma DivBy256(a: int, q: int, r: int)
    requires a == 256 * q + r && 0 <= r < 256
    ensures a / 256 == q && a % 256 == r
  {
  }

  lemma DivBy65536(a: int, q: int, r: int)
    requires a == 65536 * q + r && 0 <= r < 65536
    ensures a / 65536 == q
  {
  }

  lemma CharChunkRebuild(c: char)
    ensures CharChunk(c)[0] as int * 65536 + CharChunk(c)[1] as int * 256 + CharChunk(c)[2] as int == c as int
  {
    var v := c as int;
    var hi, r := v / 65536, v % 65536;
    var m, l := r / 256, r % 256;
    DivBy256(r, m, l);
    DivBy65536(v, hi, r);
    DivBy256(v, 256 * hi + m, l);
    DivBy256(256 * hi + m, hi, m);
  }

  lemma {:induction false} ThreeByteRoundTrip(s: string)
    ensures ThreeByteDecode(ThreeByteEncode(s)) == s
  {
    if s != [] {
      var b := ThreeByteEncode(s);
      assert b == CharChunk(s[0]) + ThreeByteEncode(s[1..]);
      assert b[3..] == ThreeByteEncode(s[1..]);
      CharChunkRebuild(s[0]);
      ThreeByteRoundTrip(s[1..]);
    }
  }

  lemma PadRoundTrip(m: Bytes)
    ensures |Pad(m)| == PaddedLength(|m|)
    ensures Unpad(Pad(m)) == Some(m)
  {
    var n := BlockSize - |m| % BlockSize;
    var c := Pad(m);
    assert |c| == |m| + n;
    assert c[|c| - 1] as int == n;
    assert c[..|c| - n] == m;
  }

  /** The witness satisfies every law. */
  lemma WitnessIsLawful()
    ensures Lawful(Witness())
  {
    var lib := Witness();
    forall b: Bytes
      ensures lib.base64Decode(lib.base64Encode(b)) == Some(b)
    {
      ByteCharsRoundTrip(b);
    }
    forall s: string
      ensures lib.utf8Decode(lib.utf8Encode(s)) == s
    {
      ThreeByteRoundTrip(s);
    }
    forall k: Bytes, iv: Bytes, m: Bytes
      ensures lib.cbcDecrypt(k, iv, lib.cbcEncrypt(k, iv, m)) == Some(m)
      ensures |lib.cbcEncrypt(k, iv, m)| == PaddedLength(|m|)
    {
      PadRoundTrip(m);
    }
  }
}
