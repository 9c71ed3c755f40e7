/**
 * The login page's submit handler (`src/app/login/page.tsx`): unlock mode when
 * a ciphertext is stored, first-time setup otherwise.
 */
module Login {
  import opened Wrappers
  import Js
  import opened Auth

  const PemHeader: string := "-----BEGIN"
  const WrongPassword: string := "密码错误，无法解密密钥"
  const MissingInput: string := "请同时上传文件并设置密码"

  /** What a submit does. */
  datatype Outcome =
    | Unlocked(pem: string)                        // decrypted key held in memory
    | Initialized(pem: string, password: string)   // key encrypted under a new password
    | Rejected(message: string)                    // error shown, auth untouched

  /** The submit decision, from the stored ciphertext and the two form fields. */
  function Decide(encryptedPem: string, password: string, pemFile: string, aes: Aes): (o: Outcome)
    ensures encryptedPem != "" ==> !o.Initialized?
    ensures encryptedPem == "" ==> !o.Unlocked?
    ensures o.Rejected? ==> o.message in {WrongPassword, MissingInput}
  {
    if encryptedPem != "" then
      match aes.decrypt(encryptedPem, password)
      case Some(text) => if Js.StartsWith(text, PemHeader) then Unlocked(text) else Rejected(WrongPassword)
      case None => Rejected(WrongPassword)
    else if pemFile == "" || password == "" then Rejected(MissingInput)
    else Initialized(pemFile, password)
  }

  class LoginPage {
    var password: string
    var pemFileContent: string
    var error: string
    /** Whether the handler navigated to the home page. */
    var navigatedHome: bool

    constructor ()
      ensures password == "" && pemFileContent == "" && error == "" && !navigatedHome
    {
      password := "";
      pemFileContent := "";
      error := "";
      navigatedHome := false;
    }

    /** `handleAction`. */
    method HandleAction(store: ConfigStore, aes: Aes)
      modifies this, store
      ensures var o := Decide(old(store.encryptedPem), password, pemFileContent, aes);
        match o
        case Unlocked(pem) =>
          store.rawPem == pem && store.encryptedPem == old(store.encryptedPem) && navigatedHome && error == old(error)
        case Initialized(pem, pass) =>
          store.rawPem == pem && store.encryptedPem == aes.encrypt(pem, pass) && navigatedHome && error == old(error)
        case Rejected(message) =>
          error == message && store.rawPem == old(store.rawPem) && store.encryptedPem == old(store.encryptedPem) &&
          navigatedHome == old(navigatedHome)
      ensures store.isHydrated == old(store.isHydrated)
      ensures password == old(password) && pemFileContent == old(pemFileContent)
    {
      if store.encryptedPem != "" {
        var decrypted := aes.decrypt(store.encryptedPem, password);
        if decrypted.Some? && Js.StartsWith(decrypted.value, PemHeader) {
          store.SetAuth(decrypted.value, "", aes);
          navigatedHome := true;
        } else {
          error := WrongPassword;
        }
      } else {
        if pemFileContent == "" || password == "" {
          error := MissingInput;
          return;
        }
        store.SetAuth(pemFileContent, password, aes);
        navigatedHome := true;
      }
    }
  }

  /** In unlock mode the key is taken iff the decrypted text carries the PEM header. */
  lemma UnlockIffHeader(encryptedPem: string, password: string, pemFile: string, aes: Aes)
    requires encryptedPem != ""
    ensures var o := Decide(encryptedPem, password, pemFile, aes);
      o.Unlocked? <==> (aes.decrypt(encryptedPem, password).Some? && Js.StartsWith(aes.decrypt(encryptedPem, password).value, PemHeader))
    ensures var o := Decide(encryptedPem, password, pemFile, aes);
      o.Unlocked? ==> Some(o.pem) == aes.decrypt(encryptedPem, password)
    ensures var o := Decide(encryptedPem, password, pemFile, aes);
      !o.Unlocked? ==> o == Rejected(WrongPassword)
  {
  }

  /** In setup mode both inputs are required, and nothing else is checked. */
  lemma SetupNeedsBothInputs(password: string, pemFile: string, aes: Aes)
    ensures Decide("", password, pemFile, aes) ==
      if pemFile == "" || password == "" then Rejected(MissingInput) else Initialized(pemFile, password)
  {
  }

  /**
   * With a sound cipher, setting up with a PEM key and then unlocking with the
   * same password yields that key again.
   */
  lemma SetupThenUnlock(pem: string, password: string, anyFile: string, aes: Aes)
    requires Sound(aes) && password != "" && Js.StartsWith(pem, PemHeader)
    ensures Decide("", password, pem, aes) == Initialized(pem, password)
    ensures Decide(aes.encrypt(pem, password), password, anyFile, aes) == Unlocked(pem)
  {
    assert aes.decrypt(aes.encrypt(pem, password), password) == Some(pem);
  }

  /**
   * Setup accepts a file without the PEM header, and with a sound cipher such a
   * vault then rejects its own password.
   */
  lemma HeaderlessSetupLocksOut(pem: string, password: string, anyFile: string, aes: Aes)
    requires Sound(aes) && password != "" && pem != "" && !Js.StartsWith(pem, PemHeader)
    ensures Decide("", password, pem, aes) == Initialized(pem, password)
    ensures Decide(aes.encrypt(pem, password), password, anyFile, aes) == Rejected(WrongPassword)
  {
    assert aes.decrypt(aes.encrypt(pem, password), password) == Some(pem);
  }
}
