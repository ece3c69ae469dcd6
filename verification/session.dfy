/** The three screens acting in turn on one device store. */
module Session {
  import opened DeviceStore
  import Login
  import Register
  import EditProfile

  /** A user action that reaches the store. */
  datatype Event =
    | RegisterUser(nickname: string, phoneNumber: string, password: string)
    | LogIn(identifier: string, password: string)
    | RenameUser(name: string)

  /** The store after one action. */
  function Step(store: Store, e: Event): Store {
    match e
    case RegisterUser(n, p, pw) => Register.SaveUserData(store, n, p, pw)
    case LogIn(id, pw) => Login.PressLogin(store, Login.InitialScreen, id, pw).store
    case RenameUser(name) => EditProfile.EditName(store, name)
  }

  /** The store after a sequence of actions, first to last. */
  function Run(store: Store, events: seq<Event>): Store
    decreases |events|
  {
    if |events| == 0 then store else Run(Step(store, events[0]), events[1..])
  }

  /** The shape of every store that registering, logging in and renaming
      produce from a well-formed store: the phone number and password are
      stored together, and never without a nickname. (A rename on a fresh
      device stores a nickname alone.) */
  predicate WellFormed(store: Store) {
    && (PhoneKey in store <==> PasswordKey in store)
    && (PhoneKey in store ==> NicknameKey in store)
  }

  /** Every action keeps a store well formed. */
  lemma StepKeepsWellFormed(store: Store, e: Event)
    requires WellFormed(store)
    ensures WellFormed(Step(store, e))
  {
  }

  /** Any run of actions from a well-formed store ends in a well-formed
      store; in particular every store reachable from a fresh device is. */
  lemma {:induction false} RunKeepsWellFormed(store: Store, events: seq<Event>)
    requires WellFormed(store)
    ensures WellFormed(Run(store, events))
    decreases |events|
  {
    if |events| > 0 {
      StepKeepsWellFormed(store, events[0]);
      RunKeepsWellFormed(Step(store, events[0]), events[1..]);
    }
  }

  /** No credential action touches the dark-mode preference. */
  lemma StepKeepsDarkMode(store: Store, e: Event)
    ensures DarkModeKey in Step(store, e) <==> DarkModeKey in store
    ensures DarkModeKey in store ==> Step(store, e)[DarkModeKey] == store[DarkModeKey]
  {
  }

  /** Logging in never changes the store, whatever the outcome. */
  lemma {:induction false} LoginsLeaveStore(store: Store, events: seq<Event>)
    requires forall i :: 0 <= i < |events| ==> events[i].LogIn?
    ensures Run(store, events) == store
    decreases |events|
  {
    if |events| > 0 {
      LoginsLeaveStore(store, events[1..]);
    }
  }

  /** On every store the app can reach, a successful login always resolves
      a nickname to show. */
  lemma ReachableLoginResolves(events: seq<Event>, identifier: string, password: string)
    requires Login.Verify(Run(EmptyStore, events), identifier, password)
    ensures Login.GetNickname(Run(EmptyStore, events), identifier).Some?
  {
    RunKeepsWellFormed(EmptyStore, events);
  }

  /** Only the latest registration counts: after registering and then
      doing anything but registering or renaming, exactly the registered
      identifiers and password log in. */
  lemma LatestRegistrationWins(store: Store, n: string, p: string, pw: string, later: seq<Event>,
                               identifier: string, attempt: string)
    requires forall i :: 0 <= i < |later| ==> later[i].LogIn?
    ensures Login.Verify(Run(store, [RegisterUser(n, p, pw)] + later), identifier, attempt)
      <==> (identifier == n || identifier == p) && attempt == pw
  {
    var events := [RegisterUser(n, p, pw)] + later;
    assert events[0] == RegisterUser(n, p, pw) && events[1..] == later;
    LoginsLeaveStore(Register.SaveUserData(store, n, p, pw), later);
  }
}
