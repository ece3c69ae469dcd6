/** The device key-value store (`UserDefaults` / `@AppStorage`) that the
    login, registration and profile screens share, as an explicit value. */
module DeviceStore {
  import opened Optional

  /** String keys to string values. A key that was never written is absent. */
  type Store = map<string, string>

  const NicknameKey: string := "userNickname"
  const PhoneKey: string := "userPhoneNumber"
  const PasswordKey: string := "userPassword"
  /** The dark-mode preference; stored as text here, and never touched by
      the credential operations. */
  const DarkModeKey: string := "isDarkMode"

  /** The three keys the credential record is spread over. */
  const CredentialKeys: set<string> := {NicknameKey, PhoneKey, PasswordKey}

  /** The store as the app starts on a fresh device. */
  const EmptyStore: Store := map[]

  /** `UserDefaults.string(forKey:)`: the stored text, or none when absent. */
  function Lookup(store: Store, key: string): Option<string>
  {
    if key in store then Some(store[key]) else None
  }

  /** Swift's `text == optionalText`: a present value equal to `text`; an
      absent value never compares equal. */
  predicate MatchesStored(text: string, stored: Option<string>) {
    stored == Some(text)
  }

  /** Two stores agree on every key outside `keys`. */
  ghost predicate SameOutside(a: Store, b: Store, keys: set<string>) {
    forall k :: k !in keys ==> (k in a <==> k in b) && (k in a ==> a[k] == b[k])
  }
}
