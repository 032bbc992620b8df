/**
 * What both key providers share: the key type, the error kinds, the decoding
 * of a Base64 key with its length check, and the cache discipline of
 * `getKey()` -- return the cached key if there is one, otherwise resolve and
 * store the key on success only.
 *
 * The Java cache is a `volatile byte[]` guarded by double-checked locking;
 * here it is an explicit state passed in and returned, one call at a time.
 */
module KeyCache {
  import opened Wrappers
  import opened Primitives

  /** AES-256 key length in bytes. */
  const KeyLength: nat := 32

  type Key = Bytes

  /** The configuration and remote sources a resolution may read, in the order it reads them. */
  datatype Source =
    | AesKeyEnv          // environment variable AES_KEY_B64
    | SecretNameSetting  // crypto.aes-key-secret-name
    | AwsRegionSetting   // aws.region, parsed by Regions.fromName
    | SecretsManager     // the getSecretValue call

  datatype KeyError =
    | NotConfigured(setting: Source)        // a required setting is null or blank
    | InvalidBase64                          // the Base64 decoder rejected the text
    | InvalidKeyLength(got: nat)             // "AES-256 key must be 32 bytes; got n"
    | UnknownRegion                          // Regions.fromName rejected the region
    | SecretUnavailable                      // getSecretValue failed or held no string
    | SecretKeyFieldMissing                  // the secret is not JSON with a field `key`
    | SecretsManagerFailure(cause: KeyError) // "Failed to load AES key from Secrets Manager"

  /** What one attempt to produce a key yields, and which sources it read. */
  datatype Resolution = Resolution(result: Result<Key, KeyError>, consulted: seq<Source>)

  /** One `getKey()` call: the cache afterwards, the outcome, and the sources read. */
  datatype Reply = Reply(cache: Option<Key>, result: Result<Key, KeyError>, consulted: seq<Source>)

  predicate ValidCache(cache: Option<Key>) {
    cache.Some? ==> |cache.value| == KeyLength
  }

  predicate ValidResolution(res: Resolution) {
    res.result.Ok? ==> |res.result.value| == KeyLength
  }

  /** Base64-decode a key and insist on exactly 32 bytes. */
  function DecodeKey(b64: string, lib: Library): (r: Result<Key, KeyError>)
    ensures r.Ok? <==> lib.base64Decode(b64).Some? && |lib.base64Decode(b64).value| == KeyLength
    ensures r.Ok? ==> lib.base64Decode(b64) == Some(r.value)
    ensures r == Err(InvalidBase64) <==> lib.base64Decode(b64).None?
    ensures r.Err? && r.error.InvalidKeyLength? ==>
              lib.base64Decode(b64).Some? && r.error.got == |lib.base64Decode(b64).value| != KeyLength
    ensures r.Err? ==> r.error == InvalidBase64 || r.error.InvalidKeyLength?
  {
    match lib.base64Decode(b64)
    case None => Err(InvalidBase64)
    case Some(key) =>
      if |key| != KeyLength then Err(InvalidKeyLength(|key|)) else Ok(key)
  }

  /** Decoding the encoding of a key accepts it exactly when it is 32 bytes long. */
  lemma DecodeKeyOfEncoded(lib: Library, key: Key)
    requires Lawful(lib)
    ensures DecodeKey(lib.base64Encode(key), lib) ==
              (if |key| == KeyLength then Ok(key) else Err(InvalidKeyLength(|key|)))
  {
    assert lib.base64Decode(lib.base64Encode(key)) == Some(key);
  }

  /**
   * The cache step of `getKey()`. A hit returns the cached key and reads no
   * source; a miss takes the resolution and stores its key only on success.
   */
  function Lookup(cache: Option<Key>, res: Resolution): (r: Reply)
    ensures cache.Some? ==> r.result == Ok(cache.value) && r.consulted == [] && r.cache == cache
    ensures cache.None? ==> r.result == res.result && r.consulted == res.consulted
    ensures r.result.Ok? ==> r.cache == Some(r.result.value)
    ensures r.result.Err? ==> r.cache == cache
    ensures ValidCache(cache) && ValidResolution(res) ==>
              ValidCache(r.cache) && (r.result.Ok? ==> |r.result.value| == KeyLength)
  {
    match cache
    case Some(key) => Reply(cache, Ok(key), [])
    case None =>
      match res.result
      case Ok(key) => Reply(Some(key), res.result, res.consulted)
      case Err(_) => Reply(None, res.result, res.consulted)
  }

  /**
   * A sequence of `getKey()` calls from `cache`: the i-th call observes
   * `inputs[i]`, and on a miss resolves it with `resolve`.
   */
  function Replay<I>(cache: Option<Key>, resolve: I -> Resolution, inputs: seq<I>): (replies: seq<Reply>)
    ensures |replies| == |inputs|
    decreases |inputs|
  {
    if inputs == [] then []
    else
      var first := Lookup(cache, resolve(inputs[0]));
      [first] + Replay(first.cache, resolve, inputs[1..])
  }

  /** The cache as the i-th call of a replay finds it. */
  function CacheBefore(cache: Option<Key>, replies: seq<Reply>, i: nat): Option<Key>
    requires i <= |replies|
  {
    if i == 0 then cache else replies[i - 1].cache
  }

  /** Each call of a replay is one `Lookup` on the cache the previous call left. */
  lemma {:induction false} ReplayStep<I>(cache: Option<Key>, resolve: I -> Resolution, inputs: seq<I>, i: nat)
    requires i < |inputs|
    ensures Replay(cache, resolve, inputs)[i] ==
              Lookup(CacheBefore(cache, Replay(cache, resolve, inputs), i), resolve(inputs[i]))
    decreases i
  {
    var first := Lookup(cache, resolve(inputs[0]));
    var rest := Replay(first.cache, resolve, inputs[1..]);
    assert Replay(cache, resolve, inputs) == [first] + rest;
    if i > 0 {
      ReplayStep(first.cache, resolve, inputs[1..], i - 1);
      assert CacheBefore(cache, Replay(cache, resolve, inputs), i) == CacheBefore(first.cache, rest, i - 1);
    }
  }

  /** From a resolved cache every call is a hit on that key. */
  lemma {:induction false} ReplayFromResolved<I>(key: Key, resolve: I -> Resolution, inputs: seq<I>, j: nat)
    requires j < |inputs|
    ensures Replay(Some(key), resolve, inputs)[j] == Reply(Some(key), Ok(key), [])
    decreases j
  {
    if j > 0 {
      ReplayFromResolved(key, resolve, inputs[1..], j - 1);
    }
  }

  /**
   * After the first success, every later call returns the identical key,
   * keeps it cached, and reads no source, whatever its inputs are.
   */
  lemma {:induction false} ReplayKeepsFirstKey<I>(cache: Option<Key>, resolve: I -> Resolution, inputs: seq<I>, i: nat, j: nat)
    requires i < j < |inputs|
    requires Replay(cache, resolve, inputs)[i].result.Ok?
    ensures Replay(cache, resolve, inputs)[j] ==
              Reply(Some(Replay(cache, resolve, inputs)[i].result.value), Replay(cache, resolve, inputs)[i].result, [])
    decreases i
  {
    var first := Lookup(cache, resolve(inputs[0]));
    if i == 0 {
      ReplayFromResolved(first.result.value, resolve, inputs[1..], j - 1);
    } else {
      ReplayKeepsFirstKey(first.cache, resolve, inputs[1..], i - 1, j - 1);
    }
  }

  /** A failing call leaves the cache as it found it. */
  lemma ReplayFailureLeavesCache<I>(cache: Option<Key>, resolve: I -> Resolution, inputs: seq<I>, i: nat)
    requires i < |inputs|
    requires Replay(cache, resolve, inputs)[i].result.Err?
    ensures Replay(cache, resolve, inputs)[i].cache == CacheBefore(cache, Replay(cache, resolve, inputs), i)
  {
    ReplayStep(cache, resolve, inputs, i);
  }

  /** The i-th call stores a key into an empty cache. */
  predicate Stores(cache: Option<Key>, replies: seq<Reply>, i: nat)
    requires i < |replies|
  {
    CacheBefore(cache, replies, i).None? && replies[i].cache.Some?
  }

  /** The cache goes from unresolved to resolved at most once: after a store, no later call stores. */
  lemma ReplayStoresAtMostOnce<I>(cache: Option<Key>, resolve: I -> Resolution, inputs: seq<I>, i: nat, j: nat)
    requires i < j < |inputs|
    requires Stores(cache, Replay(cache, resolve, inputs), i)
    ensures !Stores(cache, Replay(cache, resolve, inputs), j)
  {
    ReplayStep(cache, resolve, inputs, i);
    if j - 1 > i {
      ReplayKeepsFirstKey(cache, resolve, inputs, i, j - 1);
    }
  }

  /** Every key a replay returns or caches is 32 bytes, when every resolution yields only 32-byte keys. */
  lemma {:induction false} ReplayKeepsKeysValid<I>(cache: Option<Key>, resolve: I -> Resolution, inputs: seq<I>, i: nat)
    requires ValidCache(cache)
    requires forall k | 0 <= k < |inputs| :: ValidResolution(resolve(inputs[k]))
    requires i < |inputs|
    ensures ValidCache(Replay(cache, resolve, inputs)[i].cache)
    ensures Replay(cache, resolve, inputs)[i].result.Ok? ==> |Replay(cache, resolve, inputs)[i].result.value| == KeyLength
    decreases i
  {
    var first := Lookup(cache, resolve(inputs[0]));
    if i > 0 {
      assert ValidResolution(resolve(inputs[0]));
      ReplayKeepsKeysValid(first.cache, resolve, inputs[1..], i - 1);
    }
  }
}
