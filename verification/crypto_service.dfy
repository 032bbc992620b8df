/**
 * `CryptoService`: the transport envelope is Base64(iv ++ ciphertext), with a
 * 16-byte IV and AES/CBC/PKCS5Padding ciphertext. The key is whatever the
 * configured key provider's `getKey()` returned (or the error it threw); the
 * IV stands for the bytes `SecureRandom.nextBytes` produced.
 */
module CryptoService {
  import opened Wrappers
  import opened Primitives
  import opened JavaText
  import KeyCache

  /** Length of the IV prefix. */
  const IvLength: nat := 16

  /** Shortest decodable envelope: the IV and at least one ciphertext byte. */
  const MinEnvelopeLength: nat := IvLength + 1

  /** The exception a failure wraps. */
  datatype Cause =
    | KeyUnavailable(keyError: KeyCache.KeyError) // getKey() threw
    | InvalidAesKey(got: nat)                     // SecretKeySpec or Cipher.init rejected the key
    | MalformedBase64                             // the Base64 decoder rejected the envelope
    | TooShort(got: nat)                          // "Ciphertext too short"
    | CipherRejected                              // doFinal rejected the block size or the padding

  /** Every failure surfaces as one of the two RuntimeExceptions. */
  datatype CryptoError =
    | EncryptFailed(cause: Cause)   // "Failed to encrypt"
    | DecryptFailed(cause: Cause)   // "Failed to decrypt"

  /** The combined array: the IV first, then the ciphertext. */
  function Frame(iv: Bytes, ciphertext: Bytes): (combined: Bytes)
    ensures |combined| == |iv| + |ciphertext|
    ensures combined[..|iv|] == iv
    ensures combined[|iv|..] == ciphertext
  {
    iv + ciphertext
  }

  /** The inverse of `Frame`: the first 16 bytes are the IV, the rest the ciphertext. */
  function Split(combined: Bytes): (parts: (Bytes, Bytes))
    requires |combined| >= IvLength
    ensures |parts.0| == IvLength
    ensures Frame(parts.0, parts.1) == combined
  {
    (combined[..IvLength], combined[IvLength..])
  }

  /** Splitting a framed envelope recovers exactly the IV and the ciphertext. */
  lemma SplitFrame(iv: Bytes, ciphertext: Bytes)
    requires |iv| == IvLength
    ensures Split(Frame(iv, ciphertext)) == (iv, ciphertext)
  {
    var combined := Frame(iv, ciphertext);
    assert combined[..IvLength] == iv;
    assert combined[IvLength..] == ciphertext;
  }

  /** The two `System.arraycopy` calls that build the combined array in `encrypt`. */
  method CopyCombined(iv: Bytes, ciphertext: Bytes) returns (combined: Bytes)
    ensures combined == Frame(iv, ciphertext)
  {
    var a := new Byte[|iv| + |ciphertext|];
    var i := 0;
    while i < |iv|
      invariant 0 <= i <= |iv|
      invariant forall k | 0 <= k < i :: a[k] == iv[k]
    {
      a[i] := iv[i];
      i := i + 1;
    }
    var j := 0;
    while j < |ciphertext|
      invariant 0 <= j <= |ciphertext|
      invariant forall k | 0 <= k < |iv| :: a[k] == iv[k]
      invariant forall k | 0 <= k < j :: a[|iv| + k] == ciphertext[k]
    {
      a[|iv| + j] := ciphertext[j];
      j := j + 1;
    }
    combined := a[..];
  }

  /** The two `System.arraycopy` calls that take the combined array apart in `decrypt`. */
  method CopySplit(combined: Bytes) returns (iv: Bytes, ciphertext: Bytes)
    requires |combined| >= MinEnvelopeLength
    ensures (iv, ciphertext) == Split(combined)
    ensures |ciphertext| >= 1
  {
    var ivArray := new Byte[IvLength];
    var ctArray := new Byte[|combined| - IvLength];
    var i := 0;
    while i < IvLength
      invariant 0 <= i <= IvLength
      invariant forall k | 0 <= k < i :: ivArray[k] == combined[k]
    {
      ivArray[i] := combined[i];
      i := i + 1;
    }
    var j := 0;
    while j < ctArray.Length
      invariant 0 <= j <= ctArray.Length
      invariant ivArray[..] == combined[..IvLength]
      invariant forall k | 0 <= k < j :: ctArray[k] == combined[IvLength + k]
    {
      ctArray[j] := combined[IvLength + j];
      j := j + 1;
    }
    iv, ciphertext := ivArray[..], ctArray[..];
    assert ciphertext == combined[IvLength..];
  }

  /** `encrypt(plaintext)` with key-provider outcome `key` and fresh IV `iv`. */
  function Encrypt(key: Result<KeyCache.Key, KeyCache.KeyError>, plaintext: string, iv: Bytes, lib: Library)
    : (r: Result<string, CryptoError>)
    requires |iv| == IvLength
    ensures r.Err? ==> r.error.EncryptFailed?
    ensures key.Err? ==> r == Err(EncryptFailed(KeyUnavailable(key.error)))
    ensures key.Ok? && !AesKeyLength(|key.value|) ==> r == Err(EncryptFailed(InvalidAesKey(|key.value|)))
    ensures r.Ok? <==> key.Ok? && AesKeyLength(|key.value|)
  {
    match key
    case Err(e) => Err(EncryptFailed(KeyUnavailable(e)))
    case Ok(k) =>
      if !AesKeyLength(|k|) then Err(EncryptFailed(InvalidAesKey(|k|)))
      else
        var ciphertext := lib.cbcEncrypt(k, iv, lib.utf8Encode(plaintext));
        Ok(lib.base64Encode(Frame(iv, ciphertext)))
  }

  /** `decrypt(envelope)` with key-provider outcome `key`. */
  function Decrypt(key: Result<KeyCache.Key, KeyCache.KeyError>, envelope: string, lib: Library)
    : (r: Result<string, CryptoError>)
    ensures r.Err? ==> r.error.DecryptFailed?
    ensures key.Err? ==> r == Err(DecryptFailed(KeyUnavailable(key.error)))
    ensures key.Ok? && |key.value| == 0 ==> r == Err(DecryptFailed(InvalidAesKey(0)))
    ensures key.Ok? && |key.value| > 0 && lib.base64Decode(envelope).None? ==>
              r == Err(DecryptFailed(MalformedBase64))
    ensures key.Ok? && |key.value| > 0 && lib.base64Decode(envelope).Some?
              && |lib.base64Decode(envelope).value| < MinEnvelopeLength ==>
              r == Err(DecryptFailed(TooShort(|lib.base64Decode(envelope).value|)))
    ensures r.Ok? ==>
              && key.Ok? && AesKeyLength(|key.value|)
              && lib.base64Decode(envelope).Some?
              && |lib.base64Decode(envelope).value| >= MinEnvelopeLength
              && lib.cbcDecrypt(key.value, Split(lib.base64Decode(envelope).value).0,
                                Split(lib.base64Decode(envelope).value).1).Some?
              && r.value == lib.utf8Decode(lib.cbcDecrypt(key.value, Split(lib.base64Decode(envelope).value).0,
                                                          Split(lib.base64Decode(envelope).value).1).value)
    ensures (&& key.Ok? && AesKeyLength(|key.value|)
             && lib.base64Decode(envelope).Some?
             && |lib.base64Decode(envelope).value| >= MinEnvelopeLength
             && lib.cbcDecrypt(key.value, Split(lib.base64Decode(envelope).value).0,
                               Split(lib.base64Decode(envelope).value).1).Some?)
            ==> r.Ok?
    ensures (&& key.Ok? && 0 < |key.value| && !AesKeyLength(|key.value|)
             && lib.base64Decode(envelope).Some?
             && |lib.base64Decode(envelope).value| >= MinEnvelopeLength)
            ==> r == Err(DecryptFailed(InvalidAesKey(|key.value|)))
    ensures (&& key.Ok? && AesKeyLength(|key.value|)
             && lib.base64Decode(envelope).Some?
             && |lib.base64Decode(envelope).value| >= MinEnvelopeLength
             && lib.cbcDecrypt(key.value, Split(lib.base64Decode(envelope).value).0,
                               Split(lib.base64Decode(envelope).value).1).None?)
            ==> r == Err(DecryptFailed(CipherRejected))
  {
    match key
    case Err(e) => Err(DecryptFailed(KeyUnavailable(e)))
    case Ok(k) =>
      if |k| == 0 then Err(DecryptFailed(InvalidAesKey(0)))
      else
        match lib.base64Decode(envelope)
        case None => Err(DecryptFailed(MalformedBase64))
        case Some(combined) =>
          if |combined| < MinEnvelopeLength then Err(DecryptFailed(TooShort(|combined|)))
          else
            var (iv, ciphertext) := Split(combined);
            if !AesKeyLength(|k|) then Err(DecryptFailed(InvalidAesKey(|k|)))
            else
              match lib.cbcDecrypt(k, iv, ciphertext)
              case None => Err(DecryptFailed(CipherRejected))
              case Some(plain) => Ok(lib.utf8Decode(plain))
  }

  /**
   * The envelope decodes to the IV followed by the ciphertext of the UTF-8
   * bytes, so its first 16 bytes are the IV; a single-block plaintext (under
   * 16 bytes) gives a 32-byte envelope.
   */
  lemma EnvelopeLayout(key: KeyCache.Key, plaintext: string, iv: Bytes, lib: Library)
    requires Lawful(lib)
    requires |iv| == IvLength && AesKeyLength(|key|)
    ensures Encrypt(Ok(key), plaintext, iv, lib).Ok?
    ensures lib.base64Decode(Encrypt(Ok(key), plaintext, iv, lib).value) ==
              Some(iv + lib.cbcEncrypt(key, iv, lib.utf8Encode(plaintext)))
    ensures |lib.base64Decode(Encrypt(Ok(key), plaintext, iv, lib).value).value| ==
              IvLength + PaddedLength(|lib.utf8Encode(plaintext)|)
    ensures lib.base64Decode(Encrypt(Ok(key), plaintext, iv, lib).value).value[..IvLength] == iv
  {
    var combined := Frame(iv, lib.cbcEncrypt(key, iv, lib.utf8Encode(plaintext)));
    assert lib.base64Decode(lib.base64Encode(combined)) == Some(combined);
  }

  /** `decrypt("")` fails as too short: the empty string decodes to zero bytes. */
  lemma DecryptEmptyFails(key: KeyCache.Key, lib: Library)
    requires Lawful(lib)
    requires |key| > 0
    ensures Decrypt(Ok(key), "", lib) == Err(DecryptFailed(TooShort(0)))
  {
    Base64DecodesEmpty(lib);
  }

  /** Round trip: decrypting an envelope under the key that made it gives back the plaintext. */
  lemma RoundTrip(key: KeyCache.Key, plaintext: string, iv: Bytes, lib: Library)
    requires Lawful(lib)
    requires |iv| == IvLength && AesKeyLength(|key|)
    ensures Encrypt(Ok(key), plaintext, iv, lib).Ok?
    ensures Decrypt(Ok(key), Encrypt(Ok(key), plaintext, iv, lib).value, lib) == Ok(plaintext)
  {
    var message := lib.utf8Encode(plaintext);
    var ciphertext := lib.cbcEncrypt(key, iv, message);
    EnvelopeLayout(key, plaintext, iv, lib);
    PaddedLengthBounds(|message|);
    SplitFrame(iv, ciphertext);
    assert lib.cbcDecrypt(key, iv, ciphertext) == Some(message);
  }

  /** Encryptions of the same plaintext under different IVs give different envelopes. */
  lemma DistinctIvsGiveDistinctEnvelopes(key: KeyCache.Key, plaintext: string, iv1: Bytes, iv2: Bytes, lib: Library)
    requires Lawful(lib)
    requires |iv1| == IvLength && |iv2| == IvLength && AesKeyLength(|key|)
    requires iv1 != iv2
    ensures Encrypt(Ok(key), plaintext, iv1, lib) != Encrypt(Ok(key), plaintext, iv2, lib)
  {
    EnvelopeLayout(key, plaintext, iv1, lib);
    EnvelopeLayout(key, plaintext, iv2, lib);
  }

  /** An envelope is never blank, whatever the plaintext: it encodes at least the IV. */
  lemma EnvelopeIsNotBlank(key: KeyCache.Key, plaintext: string, iv: Bytes, lib: Library)
    requires Lawful(lib)
    requires |iv| == IvLength && AesKeyLength(|key|)
    ensures Encrypt(Ok(key), plaintext, iv, lib).Ok?
    ensures !IsBlank(Encrypt(Ok(key), plaintext, iv, lib).value)
  {
    Base64EncodeNotBlank(lib, iv + lib.cbcEncrypt(key, iv, lib.utf8Encode(plaintext)));
  }

  /** Any envelope holding a character outside the Base64 alphabet fails as malformed. */
  lemma NonAlphabetEnvelopeFails(key: KeyCache.Key, envelope: string, i: nat, lib: Library)
    requires Lawful(lib)
    requires |key| > 0
    requires i < |envelope| && !InBase64Alphabet(envelope[i])
    ensures Decrypt(Ok(key), envelope, lib) == Err(DecryptFailed(MalformedBase64))
  {
  }

  /** `decrypt("not-valid-base64!")` fails as malformed Base64: '-' and '!' are outside the alphabet. */
  lemma DecryptInvalidBase64Fails(key: KeyCache.Key, lib: Library)
    requires Lawful(lib)
    requires |key| > 0
    ensures Decrypt(Ok(key), "not-valid-base64!", lib) == Err(DecryptFailed(MalformedBase64))
  {
    NonAlphabetEnvelopeFails(key, "not-valid-base64!", 3, lib);
  }
}
