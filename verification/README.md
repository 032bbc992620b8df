# Token encryption service: key caching and envelope framing in Dafny

This project models the core of a small Java service that encrypts string
payloads with AES-256 behind a pluggable key provider:

- **Key providers.** `LocalKeyProvider.getKey()` takes the key from the
  environment variable `AES_KEY_B64`. `AesKeyProvider.getKey()` takes it from
  that variable when it is set and not blank. Otherwise it fetches the AWS
  Secrets Manager secret named by `crypto.aes-key-secret-name` and reads its
  JSON field `key`. Either way the value is Base64, must decode to exactly
  32 bytes, and is cached after the first success.
- **`CryptoService`.** `encrypt` draws a 16-byte IV and encrypts the UTF-8
  bytes with AES/CBC/PKCS5Padding. It returns Base64(iv ++ ciphertext).
  `decrypt` decodes the envelope and rejects anything shorter than 17 bytes.
  It splits the rest at offset 16 and decrypts. Every failure is rethrown as
  "Failed to encrypt" or "Failed to decrypt".

## How it is modelled

- `wrappers.dfy` holds `Option` and `Result`. They stand for Java's `null`
  and for thrown exceptions.
- `java_text.dfy` holds `String.isBlank()` and `Character.isWhitespace`.
- `primitives.dfy` holds the library primitives:
  - the Base64 codec of RFC 4648 section 4;
  - UTF-8;
  - AES (FIPS 197) in CBC mode (NIST SP 800-38A section 6.2) with PKCS#5
    padding (RFC 8018 section 6.1.1);
  - Jackson's lookup of field `key`.

  These are function-valued fields of a `Library` record. The predicate
  `Lawful` states the only facts the core relies on. Each decoder undoes its
  encoder. Base64 of no bytes is the empty string, and Base64 output
  contains no whitespace. The basic Base64 decoder rejects any string
  holding a character outside its alphabet. CBC output has the padded
  length `16 * (n / 16 + 1)`. Every property that depends on the primitives
  takes `Lawful(lib)` as a precondition.
- `primitives_witness.dfy` builds one concrete `Library`, with PKCS#5
  padding standing in for the cipher and each byte spelled as two letters
  'A'..'P' standing in for Base64, and proves it `Lawful`
  (`PrimitivesWitness.WitnessIsLawful`). So the laws are consistent.
- `key_cache.dfy` holds what both providers share. This is the key type, the
  error kinds, `DecodeKey` (Base64 plus the 32-byte check) and the cache
  discipline.
  - The Java `volatile byte[] cachedKey` becomes an explicit
    `Option<Key>`. It is passed into `Lookup` and returned in a `Reply`.
  - Each reply also records which sources the call read, in order. These are
    the environment variable, the secret-name setting, the region setting
    and Secrets Manager. So "a cache hit reads nothing" and "the secret
    store is never entered" can be stated directly.
  - `Replay` runs a sequence of calls. Each call may see different
    environment or remote values.
- `local_key_provider.dfy` and `aes_key_provider.dfy` hold one provider
  each. The remote store's answer for the configured secret is an input
  (`Inputs.secretString`). So is whether the configured region name is
  known to `Regions.fromName` (`Inputs.regionKnown`).
- `crypto_service.dfy` holds framing, splitting, `Encrypt` and `Decrypt`.
  `CopyCombined` and `CopySplit` model the `System.arraycopy` loops. The key
  is the outcome of the provider's `getKey()` call. The IV is a parameter
  standing for the `SecureRandom` bytes.
- `end_to_end.dfy` composes `CryptoService` with each caching provider.

### Behaviour worth noting

- Decryption never fails on malformed UTF-8. `new String(bytes, UTF_8)`
  replaces malformed input (src/main/java/com/br/crypto/CryptoService.java:70),
  so `utf8Decode` is total.
- `LocalKeyProvider` has no fallback source. An unset or blank AES_KEY_B64
  is an error (LocalKeyProvider.java lines 25-31). Only `AesKeyProvider`
  falls back to Secrets Manager.
- `AesKeyProvider` reports a wrong-length key in two ways. On the override
  path the length exception propagates as it is (line 49). On the remote
  path the same exception (line 78) is thrown inside the `try` and caught at
  line 83. It surfaces as `SecretsManagerFailure(InvalidKeyLength(n))`.
- `Regions.fromName` (AesKeyProvider.java line 62) runs before the `try`.
  An unknown region is therefore an unwrapped error (`UnknownRegion`), not a
  Secrets Manager failure.
- An override that is not valid Base64 makes the Java decoder throw
  `IllegalArgumentException` (line 47). That error is not wrapped
  (`InvalidBase64`).

## Model

| member | source | states |
|---|---|---|
| JavaText.BlankCharacters | src/main/java/com/br/crypto/AesKeyProvider.java:46-57 | The blank test of `String.isBlank()` used by the override and secret-name checks (and at LocalKeyProvider.java line 26). The empty string and ASCII whitespace are blank. A letter, U+00A0 and U+202F are not, since `Character.isWhitespace` excludes non-breaking spaces. A concatenation is blank iff both parts are. |
| KeyCache.DecodeKey | src/main/java/com/br/crypto/AesKeyProvider.java:47-50 | A Base64 key is accepted iff it decodes and has exactly 32 bytes. The accepted key is the decoding. An undecodable value and a wrong length are distinct errors, and the latter carries the decoded length. |
| KeyCache.DecodeKeyOfEncoded | src/main/java/com/br/crypto/LocalKeyProvider.java:33-39 | The Base64 encoding of any byte string is accepted exactly when it has 32 bytes. Otherwise it fails with the wrong length (31 or 33 bytes fail). |
| KeyCache.Lookup | src/main/java/com/br/crypto/AesKeyProvider.java:34-42 | A cache hit returns the cached key, reads no source and keeps the cache. A miss returns the resolution's outcome. The cache then holds the key after a success and is unchanged after a failure. Validity (32 bytes) is preserved. |
| KeyCache.Replay | src/main/java/com/br/crypto/LocalKeyProvider.java:15-43 | The harness the sequence lemmas are stated over: n successive calls, each threading the cache to the next, give n replies. Its own contract says only that. |
| KeyCache.ReplayStep | src/main/java/com/br/crypto/AesKeyProvider.java:24-42 | In a sequence of calls, each call acts on the cache the previous call left. |
| KeyCache.ReplayFromResolved | src/main/java/com/br/crypto/AesKeyProvider.java:35-37 | From a resolved cache, every call is a hit on the cached key that reads no source. |
| KeyCache.ReplayKeepsFirstKey | src/main/java/com/br/crypto/AesKeyProvider.java:35-42 | After the first successful call, every later call returns the identical key, keeps it cached and reads no source, whatever its inputs. |
| KeyCache.ReplayFailureLeavesCache | src/main/java/com/br/crypto/AesKeyProvider.java:48-51 | A failing call leaves the cache exactly as it found it. |
| KeyCache.ReplayStoresAtMostOnce | src/main/java/com/br/crypto/AesKeyProvider.java:39-82 | Once a call has stored a key into the empty cache, no later call stores again. The cache goes from unresolved to resolved at most once. |
| KeyCache.ReplayKeepsKeysValid | src/main/java/com/br/crypto/AesKeyProvider.java:47-81 | If every resolution accepts only 32-byte keys, every key returned or cached over any sequence of calls is 32 bytes. Both providers' `Resolve` guarantee that premise. |
| LocalKeyProvider.Resolve | src/main/java/com/br/crypto/LocalKeyProvider.java:25-39 | Reads only AES_KEY_B64. It fails "not configured" iff the variable is unset or blank, with no fallback. Otherwise the outcome is the checked decoding, and any key it yields is the Base64 decoding of the variable. |
| LocalKeyProvider.GetKey | src/main/java/com/br/crypto/LocalKeyProvider.java:15-43 | A hit returns the cache and reads nothing. A miss reads AES_KEY_B64. A returned key is 32 bytes, is the decoded variable and is cached. A failure leaves the cache unset. |
| LocalKeyProvider.LaterCallsIgnoreEnvironment | src/main/java/com/br/crypto/LocalKeyProvider.java:16-23 | In a sequence of calls, each call is `GetKey` on the cache the previous call left. After the first success, later calls return the identical key without reading AES_KEY_B64, even if it has changed or been unset. |
| LocalKeyProvider.EncodedKeyIsAccepted | src/main/java/com/br/crypto/LocalKeyProvider.java:33-42 | A 32-byte key given Base64-encoded in AES_KEY_B64 is exactly the key returned and cached. |
| LocalKeyProvider.WrongLengthKeyIsRejected | src/main/java/com/br/crypto/LocalKeyProvider.java:25-39 | A non-empty key of any other length fails with its length and leaves the cache unset. The empty key encodes to the empty string, which is rejected as unset. |
| AesKeyProvider.FetchRemote | src/main/java/com/br/crypto/AesKeyProvider.java:69-85 | Every failure inside the remote block is wrapped as a Secrets Manager failure. It succeeds iff a secret string was fetched, its field `key` was found and that field decodes to 32 bytes. The key is that decoding. |
| AesKeyProvider.Resolve | src/main/java/com/br/crypto/AesKeyProvider.java:44-85 | A non-blank override decides alone and reads only the environment. Without one, a null or blank secret name fails "not configured" having read only the environment and the name, so neither the region nor the store is read. With a configured name, an unknown region fails `UnknownRegion` (unwrapped). A known region runs the remote block, which reads the store. So the store is read iff there is no override, the name is configured and the region is known. A failure is wrapped iff the store was read. |
| AesKeyProvider.GetKey | src/main/java/com/br/crypto/AesKeyProvider.java:34-87 | A hit returns the cache and reads nothing. On a miss with an override, the result is the checked override decoding and only the environment is read. A returned key is 32 bytes and cached. A failure leaves the cache unchanged. |
| AesKeyProvider.OverrideActsLikeLocalProvider | src/main/java/com/br/crypto/AesKeyProvider.java:45-53 | With a non-blank override, the provider behaves exactly as `LocalKeyProvider` and never enters the secret store. |
| AesKeyProvider.RemoteKeyIsSecretField | src/main/java/com/br/crypto/AesKeyProvider.java:73-82 | Without an override, a successful call has read the store. Its key is the Base64 decoding of the secret's JSON field `key`. |
| AesKeyProvider.RemoteFailuresAreWrapped | src/main/java/com/br/crypto/AesKeyProvider.java:69-85 | With no override, a configured name and a known region, a failing call has read all four sources. Its error is a Secrets Manager failure, whose cause is a failed fetch, a missing field `key`, invalid Base64 or a wrong length. The cache stays unset. |
| AesKeyProvider.RemoteKeyIsAccepted | src/main/java/com/br/crypto/AesKeyProvider.java:73-82 | A secret whose field `key` encodes a 32-byte key yields exactly that key, and it is cached. The call reads the environment, the secret name, the region and the store, in that order. |
| AesKeyProvider.SecretStoreReadUntilCached | src/main/java/com/br/crypto/AesKeyProvider.java:35-42 | After the call that fills the cache, no later call stores a key or reads the secret store, and each returns the same key. |
| AesKeyProvider.RemoteWrongLengthIsWrapped | src/main/java/com/br/crypto/AesKeyProvider.java:77-84 | A secret whose field `key` encodes the wrong number of bytes fails as a wrapped Secrets Manager failure carrying the length, and leaves the cache unset. |
| CryptoService.Frame | src/main/java/com/br/crypto/CryptoService.java:38-40 | The combined array has the IV as its prefix and the ciphertext as the rest. |
| CryptoService.Split | src/main/java/com/br/crypto/CryptoService.java:58-62 | The split yields a 16-byte IV, and re-framing the two parts gives back the input. |
| CryptoService.SplitFrame | src/main/java/com/br/crypto/CryptoService.java:58-62 | Splitting `iv ++ ciphertext` with a 16-byte IV recovers exactly the IV and the ciphertext. |
| CryptoService.CopyCombined | src/main/java/com/br/crypto/CryptoService.java:38-40 | The two array copies build exactly `iv ++ ciphertext`. |
| CryptoService.CopySplit | src/main/java/com/br/crypto/CryptoService.java:58-62 | On an input of at least 17 bytes, the two array copies yield exactly the split parts, with a non-empty ciphertext. |
| CryptoService.Encrypt | src/main/java/com/br/crypto/CryptoService.java:24-46 | Every failure is "Failed to encrypt". A key-provider error is wrapped as it is, and a key AES rejects fails with its length. It succeeds iff the key has an AES length. |
| CryptoService.Decrypt | src/main/java/com/br/crypto/CryptoService.java:48-74 | Every failure is "Failed to decrypt". A key-provider error is wrapped as it is. An empty key fails as an invalid key of length 0 before the envelope is decoded. Invalid Base64 and envelopes shorter than 17 bytes are rejected before the cipher is used. A non-AES key length fails with its length, and a cipher rejection of the split parts fails as such. It succeeds iff the key has an AES length, the envelope decodes to at least 17 bytes and the cipher accepts the split parts. The plaintext is then the UTF-8 decoding of the cipher output. |
| CryptoService.EnvelopeLayout | src/main/java/com/br/crypto/CryptoService.java:29-42 | The envelope decodes to `iv ++ ciphertext`. Its first 16 bytes are the IV, and its length is 16 plus the padded plaintext length. |
| CryptoService.DecryptEmptyFails | src/test/java/com/br/crypto/CryptoServiceIntegrationTest.java:78-82 | `decrypt("")` fails as too short: the empty string decodes to zero bytes. |
| CryptoService.RoundTrip | src/main/java/com/br/crypto/CryptoService.java:24-74 | Decrypting an envelope under the key that made it gives back the plaintext. |
| CryptoService.DistinctIvsGiveDistinctEnvelopes | src/main/java/com/br/crypto/CryptoService.java:29-42 | The same plaintext encrypted under two different IVs gives two different envelopes. |
| CryptoService.EnvelopeIsNotBlank | src/test/java/com/br/crypto/CryptoServiceTest.java:36-38 | With an AES-length key, encryption succeeds and the envelope is never blank, even for an empty plaintext, because it always encodes the 16-byte IV. |
| CryptoService.NonAlphabetEnvelopeFails | src/main/java/com/br/crypto/CryptoService.java:50-53 | With a non-empty key, an envelope holding any character outside the Base64 alphabet fails as malformed Base64, before the length guard and the cipher. |
| CryptoService.DecryptInvalidBase64Fails | src/test/java/com/br/crypto/CryptoServiceIntegrationTest.java:72-76 | `decrypt("not-valid-base64!")` fails as malformed Base64 under any non-empty key. |
| Primitives.Base64EncodeInjective | src/main/java/com/br/crypto/CryptoService.java:42 | Equal envelopes come from equal byte arrays (Base64 encoding is injective). |
| Primitives.Base64EncodeNotBlank | src/main/java/com/br/crypto/LocalKeyProvider.java:26 | The Base64 encoding of a non-empty key is never blank, so it passes the blank check. |
| Primitives.Base64DecodesEmpty | src/main/java/com/br/crypto/CryptoService.java:53 | The empty string decodes to zero bytes. |
| Primitives.PaddedLengthBounds | src/main/java/com/br/crypto/CryptoService.java:15 | PKCS#5 padding adds between 1 and 16 bytes and ends on a block boundary. |
| EndToEnd.RoundTripThroughLocalProvider | src/main/java/com/br/crypto/LocalKeyProvider.java:16-42 | A plaintext encrypted with the key from a successful `getKey()` decrypts back under the next `getKey()`, whatever AES_KEY_B64 then holds. |
| EndToEnd.RoundTripThroughAesProvider | src/main/java/com/br/crypto/AesKeyProvider.java:34-82 | The same holds for `AesKeyProvider`, whatever the override or the secret then holds. |
| EndToEnd.KeyFailureSurfacesWrapped | src/main/java/com/br/crypto/CryptoService.java:43-73 | A key-provider failure makes `encrypt` fail with "Failed to encrypt" and `decrypt` with "Failed to decrypt", each wrapping the provider's error. It can only happen while the cache is empty. |

## Left out

- The AWS Secrets Manager client is not modelled: building it, the
  credentials chain and the `getSecretValue` network call (AesKeyProvider.java
  lines 61-70). This is remote I/O. Its answer is the input
  `secretString`. The region lookup is kept only as the input
  `regionKnown`, because it decides whether an unknown-region error is
  raised.
- Jackson JSON parsing is a foreign library. It is the abstract
  `jsonKeyField`, which may fail.
- The internals of AES, CBC chaining and PKCS#5 padding are library
  primitives. They are abstract functions constrained only by `Lawful`.
- The internals of the Base64 encoder and decoder are a library. They are
  abstract, with a round-trip law, a no-whitespace law and a law that a
  character outside the alphabet is rejected. Which strings of alphabet
  characters the decoder rejects (bad length, misplaced `=`) is not
  assumed. Their encoded
  length is not assumed, so the 44-character length of the envelope for
  "hello-world" is not proved. No law gives the length of UTF-8 output
  either. `CryptoService.EnvelopeLayout` proves the decoded envelope is
  `16 + PaddedLength(n)` bytes, where n is the UTF-8 length. That is 32
  bytes only when n is below 16, which is assumed here, not derived from
  the plaintext.
- `SecureRandom` IV generation is randomness. The IV is a parameter.
  "Different output on every call" is proved as "different IVs give
  different envelopes".
- Tamper detection is not modelled. There is no MAC, so rejection of a
  tampered envelope is only probable and cannot be stated as a guarantee.
- The `volatile` field and the `synchronized` double-checked locking are
  concurrency. The cache is modelled one call at a time.
- Spring annotations, profile selection, `CryptoProperties`,
  `AwsProperties` and the test logger are wiring with no logic. The
  `KeyProvider` interface itself is not part of this model. A provider is
  represented by the outcome of its `getKey()` call.
- The text of exception messages is not modelled. Error kinds and the
  reported key length are.
- Java strings may hold unpaired surrogates, and `getBytes(UTF_8)` replaces
  them. Dafny strings are sequences of Unicode scalar values, so those
  strings are not modelled. The UTF-8 law is stated for every Dafny string.
- A `null` key from a provider and Java's signed `byte` are not modelled.
  Keys are byte sequences, and bytes are unsigned values 0..255.
- Aliasing of the cached key is not modelled. `getKey()` returns the cached
  `byte[]` itself (AesKeyProvider.java lines 36, 52 and 82;
  LocalKeyProvider.java lines 17 and 42). A caller could mutate that shared
  array. The only caller never does: `new SecretKeySpec(key, AES)` copies
  it (CryptoService.java lines 27 and 51). Here a key is an immutable
  value, so "the identical key" means equal contents.
- `null` plaintexts and envelopes are not modelled. `encrypt(null)` and
  `decrypt(null)` throw `NullPointerException` (CryptoService.java lines 36
  and 53), which is wrapped as "Failed to encrypt" or "Failed to decrypt".
  Dafny strings cannot be null.
