/**
 * `AesKeyProvider.getKey()`: the key comes from the AES_KEY_B64 override when
 * it is set and not blank, otherwise from the AWS Secrets Manager secret named
 * by `crypto.aes-key-secret-name`, whose JSON field `key` holds it in Base64.
 */
module AesKeyProvider {
  import opened Wrappers
  import opened Primitives
  import opened JavaText
  import opened KeyCache
  import LocalKeyProvider

  /**
   * What one call can observe. The remote store is not modelled: its answer
   * for the configured secret name is `secretString` (`None` when
   * `getSecretValue` throws or the secret holds no string).
   */
  datatype Inputs = Inputs(
    aesKeyB64: Option<string>,
    secretName: Option<string>,
    regionKnown: bool,
    secretString: Option<string>
  )

  /** Whether the override supplies the key. */
  predicate HasOverride(inputs: Inputs) {
    inputs.aesKeyB64.Some? && !IsBlank(inputs.aesKeyB64.value)
  }

  /** Whether `crypto.aes-key-secret-name` is set and not blank. */
  predicate HasSecretName(inputs: Inputs) {
    inputs.secretName.Some? && !IsBlank(inputs.secretName.value)
  }

  /**
   * The `try` block of the remote path: parse the secret, take field `key`,
   * decode it and check its length. Every failure in it, the wrong length
   * included, is rethrown wrapped as a Secrets Manager failure.
   */
  function FetchRemote(secretString: Option<string>, lib: Library): (r: Result<Key, KeyError>)
    ensures r.Err? ==> r.error.SecretsManagerFailure?
    ensures r.Ok? <==>
              && secretString.Some?
              && lib.jsonKeyField(secretString.value).Some?
              && DecodeKey(lib.jsonKeyField(secretString.value).value, lib).Ok?
    ensures r.Ok? ==>
              && |r.value| == KeyLength
              && lib.base64Decode(lib.jsonKeyField(secretString.value).value) == Some(r.value)
  {
    match secretString
    case None => Err(SecretsManagerFailure(SecretUnavailable))
    case Some(doc) =>
      match lib.jsonKeyField(doc)
      case None => Err(SecretsManagerFailure(SecretKeyFieldMissing))
      case Some(b64) =>
        match DecodeKey(b64, lib)
        case Ok(key) => Ok(key)
        case Err(e) => Err(SecretsManagerFailure(e))
  }

  /** Resolve the key: override first, then the secret-name check, the region, and the remote fetch. */
  function Resolve(inputs: Inputs, lib: Library): (r: Resolution)
    ensures ValidResolution(r)
    ensures HasOverride(inputs) ==>
              r == Resolution(DecodeKey(inputs.aesKeyB64.value, lib), [AesKeyEnv])
    ensures !HasOverride(inputs) ==> |r.consulted| >= 2 && r.consulted[..2] == [AesKeyEnv, SecretNameSetting]
    ensures r.result == Err(NotConfigured(SecretNameSetting)) <==>
              !HasOverride(inputs) && (inputs.secretName.None? || IsBlank(inputs.secretName.value))
    ensures r.result == Err(NotConfigured(SecretNameSetting)) ==> r.consulted == [AesKeyEnv, SecretNameSetting]
    ensures r.result == Err(NotConfigured(SecretNameSetting)) ==> SecretsManager !in r.consulted
    ensures SecretsManager in r.consulted ==> r.result == FetchRemote(inputs.secretString, lib)
    ensures r.result.Err? ==> (r.result.error.SecretsManagerFailure? <==> SecretsManager in r.consulted)
    ensures r.result == Err(UnknownRegion) <==> !HasOverride(inputs) && HasSecretName(inputs) && !inputs.regionKnown
    ensures !HasOverride(inputs) && HasSecretName(inputs) ==> (SecretsManager in r.consulted <==> inputs.regionKnown)
    ensures !HasOverride(inputs) && HasSecretName(inputs) && inputs.regionKnown ==>
              r == Resolution(FetchRemote(inputs.secretString, lib),
                              [AesKeyEnv, SecretNameSetting, AwsRegionSetting, SecretsManager])
  {
    if HasOverride(inputs) then
      Resolution(DecodeKey(inputs.aesKeyB64.value, lib), [AesKeyEnv])
    else if !HasSecretName(inputs) then
      Resolution(Err(NotConfigured(SecretNameSetting)), [AesKeyEnv, SecretNameSetting])
    else if !inputs.regionKnown then
      Resolution(Err(UnknownRegion), [AesKeyEnv, SecretNameSetting, AwsRegionSetting])
    else
      Resolution(FetchRemote(inputs.secretString, lib),
                 [AesKeyEnv, SecretNameSetting, AwsRegionSetting, SecretsManager])
  }

  /** One `getKey()` call on the provider whose cached key is `cache`. */
  function GetKey(cache: Option<Key>, inputs: Inputs, lib: Library): (r: Reply)
    ensures cache.Some? ==> r == Reply(cache, Ok(cache.value), [])
    ensures cache.None? && HasOverride(inputs) ==>
              r.consulted == [AesKeyEnv] && r.result == DecodeKey(inputs.aesKeyB64.value, lib)
    ensures cache.None? && r.result.Ok? ==> |r.result.value| == KeyLength
    ensures r.result.Ok? ==> r.cache == Some(r.result.value)
    ensures r.result.Err? ==> r.cache == cache
    ensures ValidCache(cache) ==> ValidCache(r.cache)
  {
    Lookup(cache, Resolve(inputs, lib))
  }

  /** With an override present, this provider behaves exactly like `LocalKeyProvider` and never enters the secret store. */
  lemma OverrideActsLikeLocalProvider(cache: Option<Key>, inputs: Inputs, lib: Library)
    requires HasOverride(inputs)
    ensures GetKey(cache, inputs, lib) == LocalKeyProvider.GetKey(cache, inputs.aesKeyB64, lib)
    ensures SecretsManager !in GetKey(cache, inputs, lib).consulted
  {
  }

  /** Without an override, a successful call's key is the decoded field `key` of the fetched secret. */
  lemma RemoteKeyIsSecretField(inputs: Inputs, lib: Library)
    requires !HasOverride(inputs)
    requires GetKey(None, inputs, lib).result.Ok?
    ensures SecretsManager in GetKey(None, inputs, lib).consulted
    ensures inputs.secretString.Some? && lib.jsonKeyField(inputs.secretString.value).Some?
    ensures lib.base64Decode(lib.jsonKeyField(inputs.secretString.value).value) ==
              Some(GetKey(None, inputs, lib).result.value)
  {
    assert Resolve(inputs, lib).result.Ok?;
  }

  /** A secret whose field `key` encodes the wrong number of bytes fails wrapped, not with the bare length error. */
  lemma RemoteWrongLengthIsWrapped(inputs: Inputs, lib: Library, key: Key, doc: string)
    requires Lawful(lib)
    requires !HasOverride(inputs) && HasSecretName(inputs)
    requires inputs.regionKnown && inputs.secretString == Some(doc)
    requires lib.jsonKeyField(doc) == Some(lib.base64Encode(key))
    requires |key| != KeyLength
    ensures GetKey(None, inputs, lib).result == Err(SecretsManagerFailure(InvalidKeyLength(|key|)))
    ensures GetKey(None, inputs, lib).cache == None
  {
    DecodeKeyOfEncoded(lib, key);
  }

  /**
   * Once the remote block runs, every failure in it -- the fetch, the JSON
   * field, the Base64 decoding, the length -- surfaces wrapped as a Secrets
   * Manager failure, and the cache stays unset.
   */
  lemma RemoteFailuresAreWrapped(inputs: Inputs, lib: Library)
    requires !HasOverride(inputs) && HasSecretName(inputs) && inputs.regionKnown
    requires GetKey(None, inputs, lib).result.Err?
    ensures GetKey(None, inputs, lib).cache == None
    ensures GetKey(None, inputs, lib).consulted == [AesKeyEnv, SecretNameSetting, AwsRegionSetting, SecretsManager]
    ensures GetKey(None, inputs, lib).result.error.SecretsManagerFailure?
    ensures var cause := GetKey(None, inputs, lib).result.error.cause;
            || (cause == SecretUnavailable && inputs.secretString.None?)
            || (cause == SecretKeyFieldMissing && inputs.secretString.Some?
                && lib.jsonKeyField(inputs.secretString.value).None?)
            || cause == InvalidBase64
            || cause.InvalidKeyLength?
  {
    assert Resolve(inputs, lib).result == FetchRemote(inputs.secretString, lib);
  }

  /** A secret whose field `key` encodes a 32-byte key yields that key, which is cached. */
  lemma RemoteKeyIsAccepted(inputs: Inputs, lib: Library, key: Key, doc: string)
    requires Lawful(lib)
    requires !HasOverride(inputs) && HasSecretName(inputs)
    requires inputs.regionKnown && inputs.secretString == Some(doc)
    requires lib.jsonKeyField(doc) == Some(lib.base64Encode(key))
    requires |key| == KeyLength
    ensures GetKey(None, inputs, lib) ==
              Reply(Some(key), Ok(key), [AesKeyEnv, SecretNameSetting, AwsRegionSetting, SecretsManager])
  {
    DecodeKeyOfEncoded(lib, key);
  }

  /** `Resolve` as the per-call resolver of a `Replay`. */
  function Resolver(lib: Library): Inputs -> Resolution {
    inputs => Resolve(inputs, lib)
  }

  /**
   * Over successive calls, the secret store is read by no call after the one
   * that fills the cache: every later call is a hit that reads no source and
   * returns the same key.
   */
  lemma SecretStoreReadUntilCached(cache: Option<Key>, inputs: seq<Inputs>, lib: Library, i: nat, j: nat)
    requires i < j < |inputs|
    requires Stores(cache, Replay(cache, Resolver(lib), inputs), i)
    ensures !Stores(cache, Replay(cache, Resolver(lib), inputs), j)
    ensures SecretsManager !in Replay(cache, Resolver(lib), inputs)[j].consulted
    ensures Replay(cache, Resolver(lib), inputs)[j].result == Replay(cache, Resolver(lib), inputs)[i].result
  {
    ReplayStoresAtMostOnce(cache, Resolver(lib), inputs, i, j);
    ReplayStep(cache, Resolver(lib), inputs, i);
    ReplayKeepsFirstKey(cache, Resolver(lib), inputs, i, j);
  }
}
