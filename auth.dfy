/**
 * The credential vault (`config-store.ts`, its auth part) and the token broker
 * of `src/lib/auth.ts`: the session cache holding at most one installation
 * token, and the exchange key → app JWT → installation id → installation token.
 */
module Auth {
  import opened Wrappers
  import opened GitHub

  /**
   * CryptoJS AES in passphrase mode. `decrypt` is partial: `None` stands for
   * the library throwing or the plaintext not being UTF-8.
   */
  datatype Aes = Aes(encrypt: (string, string) -> string, decrypt: (string, string) -> Option<string>)

  /** A cipher whose ciphertexts are non-empty and decrypt back under the same passphrase. */
  ghost predicate Sound(aes: Aes)
  {
    forall key, pass :: aes.encrypt(key, pass) != "" && aes.decrypt(aes.encrypt(key, pass), pass) == Some(key)
  }

  /**
   * The auth fields of the persisted config store. Only `encryptedPem` is
   * written to local storage; `rawPem` lives in memory for the session.
   */
  class ConfigStore {
    var encryptedPem: string
    var rawPem: string
    var isHydrated: bool

    constructor ()
      ensures encryptedPem == "" && rawPem == "" && !isHydrated
    {
      encryptedPem := "";
      rawPem := "";
      isHydrated := false;
    }

    /** The store after a page load: the persisted ciphertext comes back, the key does not. */
    constructor Restored(persisted: string)
      ensures encryptedPem == persisted && rawPem == "" && isHydrated
    {
      encryptedPem := persisted;
      rawPem := "";
      isHydrated := true;
    }

    /**
     * `setAuth(pem, password)`: with a (truthy) password the key is encrypted and
     * stored too; without one (`""` stands for undefined) only the key is held.
     */
    method SetAuth(pem: string, password: string, aes: Aes)
      modifies this
      ensures rawPem == pem && isHydrated == old(isHydrated)
      ensures encryptedPem == (if password != "" then aes.encrypt(pem, password) else old(encryptedPem))
    {
      if password != "" {
        encryptedPem := aes.encrypt(pem, password);
      }
      rawPem := pem;
    }

    method Logout()
      modifies this
      ensures encryptedPem == "" && rawPem == "" && isHydrated == old(isHydrated)
    {
      encryptedPem := "";
      rawPem := "";
    }

    method SetHydrated(val: bool)
      modifies this
      ensures isHydrated == val && encryptedPem == old(encryptedPem) && rawPem == old(rawPem)
    {
      isHydrated := val;
    }
  }

  /** The `github_token` entry of session storage. */
  class TokenCache {
    var token: Option<string>

    constructor ()
      ensures token == None
    {
      token := None;
    }
  }

  datatype AuthError =
    | NotAuthenticated   // no decrypted key in memory
    | UpstreamAuthError  // signing or one of the two exchanges failed

  /** What one `getAuthToken` call returns, which remote calls it makes and how many identifiers they mint. */
  datatype BrokerRun = BrokerRun(outcome: Result<string, AuthError>, calls: seq<Call>, minted: nat)

  /**
   * The broker run for a cache entry `cached`, in-memory key `key`, on a remote
   * whose next call is number `at` and whose next identifier is `next`.
   */
  function Broker(cached: Option<string>, key: string, faults: set<nat>, at: nat, next: Id): (run: BrokerRun)
    ensures cached.Some? && cached.value != "" ==> run == BrokerRun(Ok(cached.value), [], 0)
    ensures run.outcome.Ok? ==> run.outcome.value != ""
    ensures run.outcome == Err(NotAuthenticated) <==> (cached.None? || cached.value == "") && key == ""
    ensures run.calls != [] ==> run.calls[0] == SignAppJwt(key) && key != ""
    ensures run.minted <= |run.calls| <= 3
    ensures run.outcome.Ok? && run.calls != [] ==>
      run.minted == |run.calls| == 3 && AllSucceed(faults, at, 3)
    ensures run.outcome == Err(UpstreamAuthError) ==>
      run.minted == |run.calls| - 1 && at + run.minted in faults &&
      AllSucceed(faults, at, run.minted)
  {
    if cached.Some? && cached.value != "" then BrokerRun(Ok(cached.value), [], 0)
    else if key == "" then BrokerRun(Err(NotAuthenticated), [], 0)
    else if at in faults then BrokerRun(Err(UpstreamAuthError), [SignAppJwt(key)], 0)
    else if at + 1 in faults then
      BrokerRun(Err(UpstreamAuthError), [SignAppJwt(key), GetInstallationId(next)], 1)
    else if at + 2 in faults then
      BrokerRun(Err(UpstreamAuthError), [SignAppJwt(key), GetInstallationId(next), CreateInstallationToken(next, next + 1)], 2)
    else
      BrokerRun(Ok(TokenText(next + 2)), [SignAppJwt(key), GetInstallationId(next), CreateInstallationToken(next, next + 1)], 3)
  }

  /**
   * `getAuthToken()`: a non-empty cached token is returned untouched; otherwise
   * a key must be in memory, and the token the exchange yields is cached.
   */
  method GetAuthToken(cache: TokenCache, store: ConfigStore, remote: Remote) returns (r: Result<string, AuthError>)
    modifies cache, remote
    ensures var run := Broker(old(cache.token), store.rawPem, remote.faults, |old(remote.trace)|, old(remote.next));
      r == run.outcome && remote.trace == old(remote.trace) + run.calls && remote.next == old(remote.next) + run.minted
    ensures cache.token == (if r.Ok? then Some(r.value) else old(cache.token))
    ensures remote.head == old(remote.head) && remote.files == old(remote.files)
  {
    if cache.token.Some? && cache.token.value != "" {
      return Ok(cache.token.value);
    }
    var key := store.rawPem;
    if key == "" {
      return Err(NotAuthenticated);
    }
    var jwt := remote.Create(SignAppJwt(key));
    if jwt.None? {
      return Err(UpstreamAuthError);
    }
    var installation := remote.Create(GetInstallationId(jwt.value));
    if installation.None? {
      return Err(UpstreamAuthError);
    }
    var minted := remote.Create(CreateInstallationToken(jwt.value, installation.value));
    if minted.None? {
      return Err(UpstreamAuthError);
    }
    var token := TokenText(minted.value);
    cache.token := Some(token);
    return Ok(token);
  }

  /** `clearAllAuthCache()`. */
  method ClearAllAuthCache(cache: TokenCache)
    modifies cache
    ensures cache.token == None
  {
    cache.token := None;
  }

  /** `hasAuth()`. */
  predicate HasAuth(store: ConfigStore)
    reads store
  {
    store.rawPem != ""
  }

  /** `getPemFromCache()`. */
  function GetPemFromCache(store: ConfigStore): string
    reads store
  {
    store.rawPem
  }

  /**
   * A token once obtained is served from the cache by the next call, with no
   * remote call, whatever the key and the remote then are.
   */
  lemma TokenReused(cached: Option<string>, key: string, faults: set<nat>, at: nat, next: Id,
                    key': string, faults': set<nat>, at': nat, next': Id)
    requires Broker(cached, key, faults, at, next).outcome.Ok?
    ensures var t := Broker(cached, key, faults, at, next).outcome.value;
      Broker(Some(t), key', faults', at', next') == BrokerRun(Ok(t), [], 0)
  {
  }

  /**
   * After the cache is cleared, `hasAuth` decides the next call: without a key
   * it fails with no remote call; with one it re-brokers, signing exactly the
   * key `getPemFromCache` returns.
   */
  lemma ClearedCacheRebrokers(store: ConfigStore, faults: set<nat>, at: nat, next: Id)
    ensures var run := Broker(None, store.rawPem, faults, at, next);
      (!HasAuth(store) <==> run.outcome == Err(NotAuthenticated)) &&
      (!HasAuth(store) ==> run.calls == []) &&
      (HasAuth(store) ==> run.calls != [] && run.calls[0] == SignAppJwt(GetPemFromCache(store)))
  {
  }
}
