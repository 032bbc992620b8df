/**
 * `CryptoService` wired to a caching key provider: the key used to decrypt
 * comes from a later `getKey()` call than the one used to encrypt, and the
 * cache makes it the same key whatever the sources say by then.
 */
module EndToEnd {
  import opened Wrappers
  import opened Primitives
  import opened KeyCache
  import LocalKeyProvider
  import AesKeyProvider
  import CryptoService

  /** Round trip through `LocalKeyProvider`, even if AES_KEY_B64 has changed or gone before decrypting. */
  lemma RoundTripThroughLocalProvider(
    cache: Option<Key>, envAtEncrypt: Option<string>, envAtDecrypt: Option<string>,
    plaintext: string, iv: Bytes, lib: Library)
    requires Lawful(lib)
    requires ValidCache(cache)
    requires |iv| == CryptoService.IvLength
    requires LocalKeyProvider.GetKey(cache, envAtEncrypt, lib).result.Ok?
    ensures CryptoService.Encrypt(LocalKeyProvider.GetKey(cache, envAtEncrypt, lib).result, plaintext, iv, lib).Ok?
    ensures CryptoService.Decrypt(
              LocalKeyProvider.GetKey(LocalKeyProvider.GetKey(cache, envAtEncrypt, lib).cache, envAtDecrypt, lib).result,
              CryptoService.Encrypt(LocalKeyProvider.GetKey(cache, envAtEncrypt, lib).result, plaintext, iv, lib).value,
              lib) == Ok(plaintext)
  {
    var first := LocalKeyProvider.GetKey(cache, envAtEncrypt, lib);
    var key := first.result.value;
    assert |key| == KeyLength;
    assert LocalKeyProvider.GetKey(first.cache, envAtDecrypt, lib).result == Ok(key);
    CryptoService.RoundTrip(key, plaintext, iv, lib);
  }

  /** Round trip through `AesKeyProvider`, even if the override or the secret has changed before decrypting. */
  lemma RoundTripThroughAesProvider(
    cache: Option<Key>, atEncrypt: AesKeyProvider.Inputs, atDecrypt: AesKeyProvider.Inputs,
    plaintext: string, iv: Bytes, lib: Library)
    requires Lawful(lib)
    requires ValidCache(cache)
    requires |iv| == CryptoService.IvLength
    requires AesKeyProvider.GetKey(cache, atEncrypt, lib).result.Ok?
    ensures CryptoService.Encrypt(AesKeyProvider.GetKey(cache, atEncrypt, lib).result, plaintext, iv, lib).Ok?
    ensures CryptoService.Decrypt(
              AesKeyProvider.GetKey(AesKeyProvider.GetKey(cache, atEncrypt, lib).cache, atDecrypt, lib).result,
              CryptoService.Encrypt(AesKeyProvider.GetKey(cache, atEncrypt, lib).result, plaintext, iv, lib).value,
              lib) == Ok(plaintext)
  {
    var first := AesKeyProvider.GetKey(cache, atEncrypt, lib);
    var key := first.result.value;
    assert |key| == KeyLength;
    assert AesKeyProvider.GetKey(first.cache, atDecrypt, lib).result == Ok(key);
    CryptoService.RoundTrip(key, plaintext, iv, lib);
  }

  /** A key provider that cannot produce a key makes both operations fail, each with its own message. */
  lemma KeyFailureSurfacesWrapped(cache: Option<Key>, inputs: AesKeyProvider.Inputs,
                                  plaintext: string, envelope: string, iv: Bytes, lib: Library)
    requires |iv| == CryptoService.IvLength
    requires AesKeyProvider.GetKey(cache, inputs, lib).result.Err?
    ensures CryptoService.Encrypt(AesKeyProvider.GetKey(cache, inputs, lib).result, plaintext, iv, lib) ==
              Err(CryptoService.EncryptFailed(CryptoService.KeyUnavailable(AesKeyProvider.GetKey(cache, inputs, lib).result.error)))
    ensures CryptoService.Decrypt(AesKeyProvider.GetKey(cache, inputs, lib).result, envelope, lib) ==
              Err(CryptoService.DecryptFailed(CryptoService.KeyUnavailable(AesKeyProvider.GetKey(cache, inputs, lib).result.error)))
    ensures cache == None
  {
  }
}
