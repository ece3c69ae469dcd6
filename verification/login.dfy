/** The login screen: credential check, nickname resolution, and the state
    the Login button updates. */
module Login {
  import opened Optional
  import opened DeviceStore

  /** `verifyUserData`: the identifier must equal the stored nickname or the
      stored phone number, and the password must equal the stored password.
      All comparisons are exact; an absent key matches nothing. */
  function Verify(store: Store, identifier: string, password: string): (ok: bool)
    ensures ok <==>
      && PasswordKey in store && store[PasswordKey] == password
      && ((NicknameKey in store && store[NicknameKey] == identifier)
          || (PhoneKey in store && store[PhoneKey] == identifier))
  {
    var savedNickname := Lookup(store, NicknameKey);
    var savedPhoneNumber := Lookup(store, PhoneKey);
    var savedPassword := Lookup(store, PasswordKey);
    (MatchesStored(identifier, savedNickname) || MatchesStored(identifier, savedPhoneNumber))
      && MatchesStored(password, savedPassword)
  }

  /** `getNickname(for:)`: the stored nickname when the identifier names the
      stored user by nickname or phone number, none otherwise. The password
      plays no part. */
  function GetNickname(store: Store, identifier: string): (r: Option<string>)
    ensures r.Some? <==>
      && NicknameKey in store
      && (store[NicknameKey] == identifier || (PhoneKey in store && store[PhoneKey] == identifier))
    ensures r.Some? ==> r.value == store[NicknameKey]
  {
    var savedNickname := Lookup(store, NicknameKey);
    var savedPhoneNumber := Lookup(store, PhoneKey);
    if MatchesStored(identifier, savedNickname) || MatchesStored(identifier, savedPhoneNumber) then
      savedNickname
    else
      None
  }

  /** The login screen's feedback flags. */
  datatype LoginScreen = LoginScreen(loginSuccess: bool, loginFailed: bool, isLoggedIn: bool)

  /** The screen as first shown: no feedback, not logged in. */
  const InitialScreen: LoginScreen := LoginScreen(false, false, false)

  /** The screen and store after pressing Login. */
  datatype LoginResult = LoginResult(store: Store, screen: LoginScreen)

  /** The Login button: on success set the success flag, clear the failure
      flag, save the resolved nickname and navigate; on failure set the
      failure flag and clear the success flag. */
  function PressLogin(store: Store, screen: LoginScreen, identifier: string, password: string): (r: LoginResult)
    ensures Verify(store, identifier, password) ==>
      r.screen == LoginScreen(true, false, true)
    ensures !Verify(store, identifier, password) ==>
      r.screen == LoginScreen(false, true, screen.isLoggedIn)
    ensures r.store == store
  {
    if Verify(store, identifier, password) then
      var store' := match GetNickname(store, identifier)
        case Some(nickname) => store[NicknameKey := nickname]
        case None => store;
      LoginResult(store', screen.(loginSuccess := true, loginFailed := false, isLoggedIn := true))
    else
      LoginResult(store, screen.(loginFailed := true, loginSuccess := false))
  }

  /** With no password stored, or neither nickname nor phone stored,
      nothing authenticates; in particular a fresh device rejects every
      login. */
  lemma IncompleteStoreRejects(store: Store, identifier: string, password: string)
    requires PasswordKey !in store || (NicknameKey !in store && PhoneKey !in store)
    ensures !Verify(store, identifier, password)
    ensures !PressLogin(store, InitialScreen, identifier, password).screen.isLoggedIn
  {
  }

  /** A successful login by phone number resolves to the stored nickname,
      not to the phone number, whenever a nickname is stored. */
  lemma PhoneLoginResolvesNickname(store: Store, password: string)
    requires PhoneKey in store && NicknameKey in store
    requires Verify(store, store[PhoneKey], password)
    ensures GetNickname(store, store[PhoneKey]) == Some(store[NicknameKey])
  {
  }

  /** A successful login resolves a nickname exactly when one is stored. */
  lemma VerifiedResolves(store: Store, identifier: string, password: string)
    requires Verify(store, identifier, password)
    ensures GetNickname(store, identifier).Some? <==> NicknameKey in store
  {
  }

  /** Matching is exact: an identifier that lower-cases like the stored
      nickname but is not equal to it (nor to the stored phone number) is
      rejected, whatever the password. */
  lemma IdentifierCaseSensitive(lower: string -> string, store: Store, identifier: string, password: string)
    requires NicknameKey in store && lower(identifier) == lower(store[NicknameKey])
    requires identifier != store[NicknameKey]
    requires PhoneKey !in store || identifier != store[PhoneKey]
    ensures !Verify(store, identifier, password)
  {
  }

  /** A password that lower-cases like the stored one but is not equal to
      it is rejected, whatever the identifier. */
  lemma PasswordCaseSensitive(lower: string -> string, store: Store, identifier: string, password: string)
    requires PasswordKey in store && lower(password) == lower(store[PasswordKey])
    requires password != store[PasswordKey]
    ensures !Verify(store, identifier, password)
  {
  }

  /** Worked example of exact matching: a change of letter case or a
      leading space is enough to be rejected. */
  lemma CaseSensitiveExample()
    ensures var store := map[NicknameKey := "alice", PhoneKey := "5551234", PasswordKey := "hunter2"];
      && Verify(store, "alice", "hunter2")
      && !Verify(store, "Alice", "hunter2")
      && !Verify(store, "alice", "Hunter2")
      && !Verify(store, " alice", "hunter2")
  {
  }

  /** The worked example: both identifiers authenticate with the right
      password; a wrong password or an unknown name does not. */
  lemma Scenario()
    ensures var store := map[NicknameKey := "alice", PhoneKey := "5551234", PasswordKey := "hunter2"];
      && Verify(store, "alice", "hunter2")
      && Verify(store, "5551234", "hunter2")
      && !Verify(store, "alice", "wrong")
      && !Verify(store, "bob", "hunter2")
  {
  }
}
