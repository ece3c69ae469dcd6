/** The edit-profile screen: the initial e-mail it derives, and its name
    field, which is bound to the login nickname. */
module EditProfile {
  import opened Optional
  import opened Text
  import opened DeviceStore
  import Login

  const EmailDomain: string := "@gmail.com"
  /** Used in place of the nickname only when no nickname is stored; it is
      not passed through lower-casing. */
  const DefaultLocalPart: string := "john.doe"

  /** The e-mail field's initial value: the stored nickname lower-cased, or
      the default when no nickname is stored, followed by the domain. */
  function InitialEmail(lower: Lowercase, store: Store): (email: string)
    ensures EndsWith(email, EmailDomain)
    ensures NicknameKey in store ==> email[..|email| - |EmailDomain|] == lower(store[NicknameKey])
    ensures NicknameKey !in store ==> email == "john.doe@gmail.com"
  {
    var local := match Lookup(store, NicknameKey)
      case Some(nickname) => lower(nickname)
      case None => DefaultLocalPart;
    var email := local + EmailDomain;
    assert email[|email| - |EmailDomain|..] == EmailDomain;
    email
  }

  /** The local part of an initial e-mail: everything before the domain. */
  function LocalPart(email: string): (local: string)
    requires EndsWith(email, EmailDomain)
    ensures local + EmailDomain == email
  {
    email[..|email| - |EmailDomain|]
  }

  /** A stored but empty nickname does not fall back to the default: with
      lower-casing mapping empty text to empty text, the e-mail is just the
      domain. */
  lemma EmptyNicknameNoDefault(lower: Lowercase, store: Store)
    requires NicknameKey in store && store[NicknameKey] == ""
    requires lower("") == ""
    ensures InitialEmail(lower, store) == EmailDomain
  {
  }

  /** The e-mail depends on the store only through the stored nickname. */
  lemma EmailDependsOnNickname(lower: Lowercase, s1: Store, s2: Store)
    requires NicknameKey in s1 <==> NicknameKey in s2
    requires NicknameKey in s1 ==> s1[NicknameKey] == s2[NicknameKey]
    ensures InitialEmail(lower, s1) == InitialEmail(lower, s2)
  {
  }

  /** Editing the name field: the field writes the login nickname key. */
  function EditName(store: Store, name: string): (r: Store)
    ensures NicknameKey in r && r[NicknameKey] == name
    ensures r.Keys == store.Keys + {NicknameKey}
    ensures SameOutside(store, r, {NicknameKey})
  {
    store[NicknameKey := name]
  }

  /** After renaming, the new name logs in with the stored password, the
      phone number keeps working, and the old name no longer logs in unless
      it is also the stored phone number. */
  lemma EditNameChangesLogin(store: Store, name: string, identifier: string, password: string)
    ensures Login.Verify(EditName(store, name), identifier, password) <==>
      && PasswordKey in store && store[PasswordKey] == password
      && (identifier == name || (PhoneKey in store && store[PhoneKey] == identifier))
  {
  }

  /** Concretely: with a full record stored, renaming to a fresh name locks
      out the old nickname but not the phone number. */
  lemma RenameLocksOutOldNickname(store: Store, name: string)
    requires CredentialKeys <= store.Keys
    requires name != store[NicknameKey] && store[NicknameKey] != store[PhoneKey]
    ensures Login.Verify(EditName(store, name), name, store[PasswordKey])
    ensures Login.Verify(EditName(store, name), store[PhoneKey], store[PasswordKey])
    ensures !Login.Verify(EditName(store, name), store[NicknameKey], store[PasswordKey])
  {
  }

  /** A rename is also what the next e-mail derivation sees. */
  lemma EditNameThenEmail(lower: Lowercase, store: Store, name: string)
    ensures LocalPart(InitialEmail(lower, EditName(store, name))) == lower(name)
  {
  }
}
