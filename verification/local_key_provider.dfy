/**
 * `LocalKeyProvider.getKey()`: the key comes only from the environment
 * variable AES_KEY_B64; there is no fallback source.
 */
module LocalKeyProvider {
  import opened Wrappers
  import opened Primitives
  import opened JavaText
  import opened KeyCache

  /** Resolve the key from the value of AES_KEY_B64 (`None` when the variable is unset). */
  function Resolve(env: Option<string>, lib: Library): (r: Resolution)
    ensures r.consulted == [AesKeyEnv]
    ensures ValidResolution(r)
    ensures r.result == Err(NotConfigured(AesKeyEnv)) <==> env.None? || IsBlank(env.value)
    ensures env.Some? && !IsBlank(env.value) ==> r.result == DecodeKey(env.value, lib)
    ensures r.result.Ok? ==> env.Some? && lib.base64Decode(env.value) == Some(r.result.value)
  {
    if env.None? || IsBlank(env.value) then
      Resolution(Err(NotConfigured(AesKeyEnv)), [AesKeyEnv])
    else
      Resolution(DecodeKey(env.value, lib), [AesKeyEnv])
  }

  /** One `getKey()` call on the provider whose cached key is `cache`. */
  function GetKey(cache: Option<Key>, env: Option<string>, lib: Library): (r: Reply)
    ensures cache.Some? ==> r == Reply(cache, Ok(cache.value), [])
    ensures cache.None? ==> r.consulted == [AesKeyEnv]
    ensures cache.None? && r.result.Ok? ==>
              |r.result.value| == KeyLength && env.Some? && lib.base64Decode(env.value) == Some(r.result.value)
    ensures cache.None? && (env.None? || IsBlank(env.value)) ==> r == Reply(None, Err(NotConfigured(AesKeyEnv)), [AesKeyEnv])
    ensures r.result.Ok? ==> r.cache == Some(r.result.value)
    ensures r.result.Err? ==> r.cache == cache
    ensures ValidCache(cache) ==> ValidCache(r.cache)
  {
    Lookup(cache, Resolve(env, lib))
  }

  /** `Resolve` as the per-call resolver of a `Replay`; a call observes the value of AES_KEY_B64. */
  function Resolver(lib: Library): Option<string> -> Resolution {
    env => Resolve(env, lib)
  }

  /**
   * Over successive calls, the i-th seeing AES_KEY_B64 as `envs[i]`: each call
   * is `GetKey` on the cache the previous one left, and after the first
   * success every later call returns the identical key without reading
   * AES_KEY_B64, even if it has changed or been unset.
   */
  lemma LaterCallsIgnoreEnvironment(cache: Option<Key>, envs: seq<Option<string>>, lib: Library, i: nat, j: nat)
    requires i < j < |envs|
    requires Replay(cache, Resolver(lib), envs)[i].result.Ok?
    ensures Replay(cache, Resolver(lib), envs)[i] ==
              GetKey(CacheBefore(cache, Replay(cache, Resolver(lib), envs), i), envs[i], lib)
    ensures Replay(cache, Resolver(lib), envs)[j] ==
              GetKey(Some(Replay(cache, Resolver(lib), envs)[i].result.value), envs[j], lib)
    ensures Replay(cache, Resolver(lib), envs)[j].result == Replay(cache, Resolver(lib), envs)[i].result
    ensures Replay(cache, Resolver(lib), envs)[j].consulted == []
  {
    ReplayStep(cache, Resolver(lib), envs, i);
    ReplayKeepsFirstKey(cache, Resolver(lib), envs, i, j);
  }

  /** A 32-byte key supplied Base64-encoded in AES_KEY_B64 is the key returned and cached. */
  lemma EncodedKeyIsAccepted(lib: Library, key: Key)
    requires Lawful(lib)
    requires |key| == KeyLength
    ensures GetKey(None, Some(lib.base64Encode(key)), lib) == Reply(Some(key), Ok(key), [AesKeyEnv])
  {
    Base64EncodeNotBlank(lib, key);
    DecodeKeyOfEncoded(lib, key);
  }

  /**
   * A key of any other length, encoded in AES_KEY_B64, is rejected and nothing
   * is cached; the empty key encodes to the empty string, which counts as unset.
   */
  lemma WrongLengthKeyIsRejected(lib: Library, key: Key)
    requires Lawful(lib)
    requires |key| != KeyLength
    ensures GetKey(None, Some(lib.base64Encode(key)), lib) ==
              if |key| == 0 then Reply(None, Err(NotConfigured(AesKeyEnv)), [AesKeyEnv])
              else Reply(None, Err(InvalidKeyLength(|key|)), [AesKeyEnv])
  {
    if |key| > 0 {
      Base64EncodeNotBlank(lib, key);
    }
    DecodeKeyOfEncoded(lib, key);
  }
}
