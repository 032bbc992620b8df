/**
 * The library primitives the core calls but does not implement: the Base64
 * codec of RFC 4648 section 4 (`java.util.Base64`), the UTF-8 charset, AES
 * (FIPS 197) in CBC mode (NIST SP 800-38A section 6.2) with PKCS#5 padding
 * (RFC 8018 section 6.1.1), and the Jackson lookup of the JSON field `key`.
 *
 * They are kept abstract: a `Library` is any choice of these functions, and
 * `Lawful` states the only facts the core depends on.
 */
module Primitives {
  import opened Wrappers
  import opened JavaText

  /** An octet; Java's signed `byte` is read as its unsigned value. */
  newtype Byte = b: int | 0 <= b < 256
  type Bytes = seq<Byte>

  /** The AES block size in bytes. */
  const BlockSize: nat := 16

  /** Key sizes AES accepts: 128, 192 or 256 bits. */
  predicate AesKeyLength(n: nat) {
    n == 16 || n == 24 || n == 32
  }

  /** Length of PKCS#5-padded data: always at least one byte of padding, up to a whole block. */
  function PaddedLength(n: nat): nat {
    BlockSize * (n / BlockSize + 1)
  }

  /** The characters of the basic Base64 alphabet (RFC 4648 section 4), padding included. */
  predicate InBase64Alphabet(c: char) {
    || 'A' <= c <= 'Z'
    || 'a' <= c <= 'z'
    || '0' <= c <= '9'
    || c == '+'
    || c == '/'
    || c == '='
  }

  datatype Library = Library(
    base64Encode: Bytes -> string,
    /** `None` where the Java decoder throws `IllegalArgumentException`. */
    base64Decode: string -> Option<Bytes>,
    utf8Encode: string -> Bytes,
    /** Total: malformed input is replaced, never rejected. */
    utf8Decode: Bytes -> string,
    /** AES/CBC/PKCS5Padding encryption under (key, iv). */
    cbcEncrypt: (Bytes, Bytes, Bytes) -> Bytes,
    /** `None` where `doFinal` rejects the block size or the padding. */
    cbcDecrypt: (Bytes, Bytes, Bytes) -> Option<Bytes>,
    /** `readTree(doc).get("key").asText()`; `None` where that throws. */
    jsonKeyField: string -> Option<string>
  )

  /**
   * The laws of the primitives: each decoder undoes its encoder, Base64 output
   * holds no whitespace, the basic Base64 decoder rejects any string with a
   * character outside the alphabet, and CBC output is the padded length.
   */
  ghost predicate Lawful(lib: Library) {
    && lib.base64Encode([]) == []
    && (forall b :: lib.base64Decode(lib.base64Encode(b)) == Some(b))
    && (forall b, i | 0 <= i < |lib.base64Encode(b)| :: !IsWhitespace(lib.base64Encode(b)[i]))
    && (forall s: string, i | 0 <= i < |s| && !InBase64Alphabet(s[i]) :: lib.base64Decode(s).None?)
    && (forall s :: lib.utf8Decode(lib.utf8Encode(s)) == s)
    && (forall k, iv, m :: AesKeyLength(|k|) && |iv| == BlockSize ==>
          lib.cbcDecrypt(k, iv, lib.cbcEncrypt(k, iv, m)) == Some(m))
    && (forall k, iv, m :: AesKeyLength(|k|) && |iv| == BlockSize ==>
          |lib.cbcEncrypt(k, iv, m)| == PaddedLength(|m|))
  }

  /** Base64 encoding is injective, a consequence of the round-trip law. */
  lemma Base64EncodeInjective(lib: Library, a: Bytes, b: Bytes)
    requires Lawful(lib)
    requires lib.base64Encode(a) == lib.base64Encode(b)
    ensures a == b
  {
    assert Some(a) == lib.base64Decode(lib.base64Encode(a));
  }

  /** The encoding of a non-empty byte string is never blank. */
  lemma Base64EncodeNotBlank(lib: Library, b: Bytes)
    requires Lawful(lib)
    requires |b| > 0
    ensures !IsBlank(lib.base64Encode(b))
  {
    if lib.base64Encode(b) == [] {
      Base64EncodeInjective(lib, b, []);
    }
    assert !IsWhitespace(lib.base64Encode(b)[0]);
  }

  /** The empty string decodes to no bytes. */
  lemma Base64DecodesEmpty(lib: Library)
    requires Lawful(lib)
    ensures lib.base64Decode("") == Some([])
  {
    assert lib.base64Decode(lib.base64Encode([])) == Some([]);
  }

  /** Padding adds between one byte and one whole block. */
  lemma PaddedLengthBounds(n: nat)
    ensures n < PaddedLength(n) <= n + BlockSize
    ensures PaddedLength(n) % BlockSize == 0
  {
  }
}
