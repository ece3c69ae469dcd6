/** The registration screen: storing a new credential record. */
module Register {
  import opened DeviceStore
  import Login

  /** `saveUserData`: overwrite the nickname, phone number and password keys
      with the given values, whatever they are (empty text included). */
  function SaveUserData(store: Store, nickname: string, phoneNumber: string, password: string): (r: Store)
    ensures NicknameKey in r && r[NicknameKey] == nickname
    ensures PhoneKey in r && r[PhoneKey] == phoneNumber
    ensures PasswordKey in r && r[PasswordKey] == password
    ensures r.Keys == store.Keys + CredentialKeys
    ensures SameOutside(store, r, CredentialKeys)
  {
    store[NicknameKey := nickname][PhoneKey := phoneNumber][PasswordKey := password]
  }

  /** The registration screen's success flag. */
  datatype RegisterScreen = RegisterScreen(registrationSuccess: bool)

  datatype RegisterResult = RegisterResult(store: Store, screen: RegisterScreen)

  /** The Register button: save, then report success. There is no failure
      path. */
  function PressRegister(store: Store, screen: RegisterScreen, nickname: string, phoneNumber: string, password: string): (r: RegisterResult)
    ensures r.screen.registrationSuccess
    ensures r.store == SaveUserData(store, nickname, phoneNumber, password)
    ensures r.store[NicknameKey] == nickname && r.store[PhoneKey] == phoneNumber && r.store[PasswordKey] == password
    ensures SameOutside(store, r.store, CredentialKeys)
    ensures Login.Verify(r.store, nickname, password) && Login.Verify(r.store, phoneNumber, password)
  {
    RegisterResult(SaveUserData(store, nickname, phoneNumber, password), screen.(registrationSuccess := true))
  }

  /** Round trip: right after registering, both the nickname and the phone
      number log in with the registered password, and the nickname resolves
      to the registered nickname. */
  lemma RegisterThenVerify(store: Store, nickname: string, phoneNumber: string, password: string)
    ensures Login.Verify(SaveUserData(store, nickname, phoneNumber, password), nickname, password)
    ensures Login.Verify(SaveUserData(store, nickname, phoneNumber, password), phoneNumber, password)
    ensures Login.GetNickname(SaveUserData(store, nickname, phoneNumber, password), phoneNumber).value == nickname
  {
  }

  /** After registering, exactly the registered identifiers with exactly the
      registered password log in, whatever was stored before. */
  lemma VerifyAfterRegister(store: Store, nickname: string, phoneNumber: string, password: string,
                            identifier: string, attempt: string)
    ensures Login.Verify(SaveUserData(store, nickname, phoneNumber, password), identifier, attempt)
      <==> (identifier == nickname || identifier == phoneNumber) && attempt == password
  {
  }

  /** Overwrite: a second registration replaces the first; the first
      identifier only still logs in if it is also one of the new
      identifiers, and then only with the new password. */
  lemma OverwriteForgetsOld(store: Store, n1: string, p1: string, pw1: string,
                            n2: string, p2: string, pw2: string, attempt: string)
    requires n1 != n2 && n1 != p2
    ensures !Login.Verify(SaveUserData(SaveUserData(store, n1, p1, pw1), n2, p2, pw2), n1, attempt)
  {
  }

  /** Registration ignores its previous content: registering the same
      values over any two stores gives the same credential behaviour. */
  lemma RegisterIgnoresHistory(s1: Store, s2: Store, nickname: string, phoneNumber: string, password: string,
                               identifier: string, attempt: string)
    ensures Login.Verify(SaveUserData(s1, nickname, phoneNumber, password), identifier, attempt)
      == Login.Verify(SaveUserData(s2, nickname, phoneNumber, password), identifier, attempt)
  {
  }

  /** Registering twice in a row with the same values is the same as
      registering once. */
  lemma RegisterIdempotent(store: Store, nickname: string, phoneNumber: string, password: string)
    ensures SaveUserData(SaveUserData(store, nickname, phoneNumber, password), nickname, phoneNumber, password)
      == SaveUserData(store, nickname, phoneNumber, password)
  {
  }
}
