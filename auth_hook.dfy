/**
 * `useAuthStore` (`src/hooks/use-auth.ts`): a bridge from the older auth store
 * interface to the config store and the token broker.
 */
module AuthHook {
  import opened Wrappers
  import opened GitHub
  import opened Auth

  class AuthStore {
    var isAuth: bool
    var privateKey: Option<string>

    /** The store's initial state: a snapshot of the key in memory when it is created. */
    constructor (store: ConfigStore)
      ensures isAuth == HasAuth(store) && privateKey == Some(store.rawPem)
    {
      isAuth := store.rawPem != "";
      privateKey := Some(store.rawPem);
    }

    /** `getAuthToken`: exactly the broker's answer and effects. */
    method GetToken(cache: TokenCache, store: ConfigStore, remote: Remote) returns (r: Result<string, AuthError>)
      modifies cache, remote
      ensures var run := Broker(old(cache.token), store.rawPem, remote.faults, |old(remote.trace)|, old(remote.next));
        r == run.outcome && remote.trace == old(remote.trace) + run.calls && remote.next == old(remote.next) + run.minted
      ensures cache.token == (if r.Ok? then Some(r.value) else old(cache.token))
      ensures remote.head == old(remote.head) && remote.files == old(remote.files)
      ensures isAuth == old(isAuth) && privateKey == old(privateKey)
    {
      r := GetAuthToken(cache, store, remote);
    }

    /**
     * `logout`: clears the token cache and this store's fields. The config
     * store's key is left in memory.
     */
    method Logout(cache: TokenCache, store: ConfigStore)
      modifies this, cache
      ensures cache.token == None && !isAuth && privateKey == None
      ensures store.rawPem == old(store.rawPem) && store.encryptedPem == old(store.encryptedPem)
    {
      ClearAllAuthCache(cache);
      isAuth := false;
      privateKey := None;
    }
  }

  /**
   * Logging out through this store does not sign out of the broker: with the
   * key still in memory, the next token request re-brokers instead of failing.
   */
  lemma LogoutKeepsBrokering(key: string, faults: set<nat>, at: nat, next: Id)
    requires key != ""
    ensures var run := Broker(None, key, faults, at, next);
      run.outcome != Err(NotAuthenticated) && run.calls != [] && run.calls[0] == SignAppJwt(key)
  {
  }
}
