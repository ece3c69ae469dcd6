# ReadWorld: search filter and device credential store

A Dafny model of the small amount of logic in the ReadWorld reading app.
Everything else in the app is SwiftUI layout. The model covers three pieces.
The catalog search is a pure function of the search text and the book list.
The credential operations and the e-mail derivation share one device
key-value store (`UserDefaults` / `@AppStorage`):

- **Catalog search** (`filteredBooks` on the bookstore screen). An empty search
  text shows the recommended books unchanged. Otherwise the screen shows, in
  their original order, the books whose lower-cased title contains the
  lower-cased search text.
- **Credential store.** Registration overwrites the nickname, phone number and
  password keys. Login compares the identifier exactly against the stored
  nickname or phone number, and the password exactly against the stored
  password. The edit-profile name field is bound to the same nickname key, so
  a rename changes the login nickname.
- **Default e-mail.** The edit-profile screen starts its e-mail field at the
  lower-cased stored nickname followed by `@gmail.com`. It uses `john.doe`
  only when no nickname is stored.

Modules, one per file:

- `Optional`: `Option`, standing for Swift's optionals.
- `Text`: explicit substring containment, a search loop proved to decide it,
  and suffixes.
- `DeviceStore`: the store as `map<string, string>`, its four keys, and
  Swift's optional comparison.
- `Catalog`: `Book` and the search filter.
- `Login`, `Register`, `EditProfile`: one module per screen.
- `Session`: the screens acting in turn on one store, and the shape every
  reachable store has.

Lower-casing (`lowercased()`) is Unicode case mapping from Swift's library.
The model takes it as a parameter `lower: string -> string` and assumes
nothing about it beyond being a function. One lemma (`EmptyNicknameNoDefault`)
also needs `lower("") == ""`, and states it as a precondition.

Three facts about the code shape the model:

- The code reads each of the three credential keys separately. So a store
  holding only a nickname is possible: a rename on a fresh device produces
  one. Every key is modelled on its own.
- The profile name field writes the login nickname key.
- A successful login writes back the nickname already stored, so the store
  does not change (`Login.PressLogin`).

## Model

| member | source | states |
|---|---|---|
| Catalog.FilteredBooks | readworld/BookstoreView.swift:7-13 | an empty search text gives the recommended list itself; otherwise every shown book's lower-cased title contains the lower-cased search text, every such book is shown, and the result is an order-preserving sub-list in which each matching book occurs exactly as often as in the list |
| Catalog.Hits | readworld/BookstoreView.swift:11 | the filter on a lower-cased needle keeps order, keeps only hits, and keeps each hit exactly as many times as it occurs in the list (multiset count) |
| Catalog.FilterBooks | readworld/BookstoreView.swift:7-13 | a front-to-back loop over the list, testing each title with the substring search and appending each hit, computes the same list as the functional filter |
| Catalog.FilterShrinks | readworld/BookstoreView.swift:11 | the search never shows more books than are recommended, and shows only recommended books |
| Catalog.FilterCounts | readworld/BookstoreView.swift:11 | for a non-empty search, each book occurs in the result as often as in the list if its title matches, and not at all otherwise |
| Catalog.SameLowerSameResult | readworld/BookstoreView.swift:11 | two non-empty search texts with the same lower-cased form show the same books |
| Catalog.EmptyNeedleKeepsAll | readworld/BookstoreView.swift:11 | filtering on the empty needle keeps every book, in order |
| Catalog.LowerEmptyShowsAll | readworld/BookstoreView.swift:8-11 | a non-empty search text whose lower-cased form is empty shows every recommended book, as an empty search text does |
| Catalog.RefiningNarrows | readworld/BookstoreView.swift:11 | a needle that contains another needle yields a sub-list of that needle's hits |
| Catalog.SubsequenceLength | readworld/BookstoreView.swift:11 | a sub-list is no longer than its list |
| Catalog.SubsequenceMembers | readworld/BookstoreView.swift:11 | every element of a sub-list is in the list |
| Text.ContainsSubstring | readworld/BookstoreView.swift:11 | the search returns true exactly when the needle occurs at some position of the text |
| Text.MatchesAt | readworld/BookstoreView.swift:11 | a character-by-character comparison is true exactly when the needle occurs at the given position |
| Text.ContainsTrivial | readworld/BookstoreView.swift:11 | every text contains the empty text and itself |
| Text.ContainsTransitive | readworld/BookstoreView.swift:11 | a substring of a substring is a substring |
| Login.Verify | readworld/LoginView.swift:126-136 | true exactly when the password key is present and equal to the password, and the identifier equals a present nickname or a present phone number |
| Login.GetNickname | readworld/LoginView.swift:114-123 | gives the stored nickname exactly when a nickname is stored and the identifier equals it or a present phone number; the password plays no part |
| Login.PressLogin | readworld/LoginView.swift:57-71 | success sets loginSuccess and isLoggedIn and clears loginFailed; failure sets loginFailed, clears loginSuccess and keeps isLoggedIn; the store is unchanged either way |
| Login.IncompleteStoreRejects | readworld/LoginView.swift:127-132 | without a stored password, or without both a stored nickname and a stored phone number, no login succeeds, so a fresh device rejects everything |
| Login.PhoneLoginResolvesNickname | readworld/LoginView.swift:58-64 | a successful login by phone number resolves to the stored nickname, not to the phone number |
| Login.VerifiedResolves | readworld/LoginView.swift:58-64 | after a successful check, a nickname is resolved exactly when one is stored |
| Login.IdentifierCaseSensitive | readworld/LoginView.swift:132 | for any store and any lower-casing, an identifier that lower-cases like the stored nickname but differs from it and from the stored phone number is rejected, whatever the password |
| Login.PasswordCaseSensitive | readworld/LoginView.swift:132 | for any store and any lower-casing, a password that lower-cases like the stored one but differs from it is rejected, whatever the identifier |
| Login.CaseSensitiveExample | readworld/LoginView.swift:132 | worked example: with alice / 5551234 / hunter2 stored, "Alice", " alice" and "Hunter2" are rejected while "alice" / "hunter2" succeeds |
| Login.Scenario | readworld/LoginView.swift:126-136 | with alice / 5551234 / hunter2 stored, both identifiers succeed with hunter2, and a wrong password or unknown name fails |
| Register.SaveUserData | readworld/RegisterView.swift:87-90 | the three credential keys hold exactly the given values and every other key, dark mode included, is unchanged |
| Register.PressRegister | readworld/RegisterView.swift:55-57 | the Register button always reports success; the store holds exactly the three entered values under the three credential keys, every other key is unchanged, and the new nickname and phone number then log in |
| Register.RegisterThenVerify | readworld/RegisterView.swift:88-90 | after registering, the nickname and the phone number both log in with the registered password, and the phone number resolves to the registered nickname |
| Register.VerifyAfterRegister | readworld/RegisterView.swift:88-90 | after registering, a login succeeds exactly when the identifier is the new nickname or phone number and the password is the new password |
| Register.OverwriteForgetsOld | readworld/RegisterView.swift:88-90 | after a second registration, the first nickname fails unless it equals the new nickname or phone number |
| Register.RegisterIgnoresHistory | readworld/RegisterView.swift:88-90 | the login behaviour after a registration does not depend on what was stored before |
| Register.RegisterIdempotent | readworld/RegisterView.swift:88-90 | registering the same values twice leaves the store as registering once |
| EditProfile.InitialEmail | readworld/EditprofileView.swift:15 | the e-mail always ends in @gmail.com; before it stands the lower-cased stored nickname, or john.doe when no nickname is stored |
| EditProfile.LocalPart | readworld/EditprofileView.swift:15 | the text before the domain, put back in front of the domain, gives the e-mail |
| EditProfile.EmptyNicknameNoDefault | readworld/EditprofileView.swift:15 | a stored empty nickname gives just @gmail.com; the default is not used |
| EditProfile.EmailDependsOnNickname | readworld/EditprofileView.swift:15 | stores that agree on the nickname key give the same e-mail |
| EditProfile.EditName | readworld/EditprofileView.swift:10-28 | the name field writes the nickname key and no other key |
| EditProfile.EditNameChangesLogin | readworld/EditprofileView.swift:10-28 | after a rename, a login succeeds exactly when the password matches the stored one and the identifier is the new name or the stored phone number |
| EditProfile.RenameLocksOutOldNickname | readworld/EditprofileView.swift:10-28 | with a full record stored, the new name and the phone number log in and the old nickname no longer does |
| EditProfile.EditNameThenEmail | readworld/EditprofileView.swift:10-16 | the next time the edit-profile screen is created after a rename, its initial e-mail starts with the lower-cased new name (the e-mail on a screen already open does not change) |
| Session.StepKeepsWellFormed | readworld/RegisterView.swift:87-90 | register, login and rename all keep phone and password stored together and never without a nickname |
| Session.RunKeepsWellFormed | readworld/RegisterView.swift:87-90 | every run of actions from a well-formed store, a fresh device included, ends well formed |
| Session.StepKeepsDarkMode | readworld/RegisterView.swift:87-90 | registering, logging in and renaming leave the dark-mode key present or absent as before, and with the same value |
| Session.LoginsLeaveStore | readworld/LoginView.swift:63-64 | any number of login attempts leave the store exactly as it was |
| Session.ReachableLoginResolves | readworld/LoginView.swift:58-64 | on every store reachable from a fresh device, a successful login resolves a nickname |
| Session.LatestRegistrationWins | readworld/RegisterView.swift:88-90 | after a registration followed only by login attempts, exactly the registered identifiers with the registered password log in |

## Left out

- SwiftUI layout is not modelled: padding, images, navigation links, the tab bar, the first-book padding test and the password-visibility toggles. They have no effect on data.
- The one-second delayed dismiss after registering is not modelled: it is a UI timer with no effect on the store.
- The log line printed when saving is not modelled: it is output only.
- `UserDefaults` / `@AppStorage` persistence is replaced by an explicit store value passed to each operation and returned from it.
- Unicode case mapping is not modelled: `lowercased()` is a parameter.
- Swift compares strings by Unicode canonical equivalence. The model compares them as character sequences.
- Containment of the empty text: the model counts it as present in every title. Swift's answer depends on which library overload of `contains` applies. The search can only ask about it when a non-empty search text lower-cases to empty text.
- The recommended and popular book lists, categories and the category and catalog screens are not modelled. They are defined outside the bookstore screen's filter, so the model takes the book list as a parameter.
- The dark-mode and notification switches, and the user editing the e-mail field, are not modelled. The dark-mode key appears only in `Session.StepKeepsDarkMode`, which shows that credential operations leave it alone.
- The e-mail is a screen state set once when the edit-profile screen is created. A rename on the open screen does not update it. The model only derives the initial value (`EditProfile.InitialEmail`).
- Purity of the filter is not stated as a contract: Dafny sequences are values, so the filter cannot change its input.
- EditProfile.EditName: models the name field's final value as a single write. The field writes the key on every keystroke, and the last write is the one that stays.
