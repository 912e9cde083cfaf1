/**
 The local credential store and session state machine of the authentication
 context. Device storage is two abstract slots: the list of user records kept
 under `@feetgpt_users` and the signed-in user kept under `@feetgpt_user`. Every
 operation is a pure transition from one `AuthState` to the next.
 */
module Auth {
  import opened Wrappers
  import opened Text
  import opened Search

  /** A stored credential: the public user plus the plaintext password. */
  datatype UserRecord = UserRecord(id: string, email: string, username: string,
                                   password: string, createdAt: string)

  /** The session user: a record without its password. */
  datatype User = User(id: string, email: string, username: string, createdAt: string)

  /** The two storage slots. A missing users entry is the empty list; a missing or
      unparsable session entry is `None`. An unparsable users entry (which sends
      sign-up and sign-in to their exception path) is not represented. */
  datatype Storage = Storage(users: seq<UserRecord>, session: Option<User>)

  /** Storage plus the provider's in-memory `user` and `isLoading`. */
  datatype AuthState = AuthState(storage: Storage, user: Option<User>, isLoading: bool)

  datatype AuthError =
    | MissingFields       // sign-up with an empty field
    | PasswordTooShort
    | InvalidEmail
    | EmailTaken
    | MissingCredentials  // sign-in with an empty field
    | InvalidCredentials

  datatype Outcome = Success | Failure(error: AuthError)

  /** The outcome an operation reports and the state it leaves behind. */
  datatype Step = Step(outcome: Outcome, state: AuthState)

  const MinPasswordLength: nat := 6

  /** The message shown to the user for each error; the password message quotes
      the length the check actually enforces. */
  function Message(e: AuthError): (r: string)
    ensures r != []
    ensures e == PasswordTooShort ==>
              MinPasswordLength < 10
              && r == "Password must be at least " + [('0' as int + MinPasswordLength) as char] + " characters"
  {
    match e
    case MissingFields => "All fields are required"
    case PasswordTooShort => "Password must be at least 6 characters"
    case InvalidEmail => "Please enter a valid email address"
    case EmailTaken => "An account with this email already exists"
    case MissingCredentials => "Email and password are required"
    case InvalidCredentials => "Invalid email or password"
  }

  /** The session view of a record: every field except the password. */
  function WithoutPassword(rec: UserRecord): (u: User)
    ensures u.id == rec.id && u.email == rec.email
    ensures u.username == rec.username && u.createdAt == rec.createdAt
  {
    User(rec.id, rec.email, rec.username, rec.createdAt)
  }

  /** Two emails are the same account when they agree after lower-casing. */
  predicate EmailMatches(u: UserRecord, email: string) {
    ToLower(u.email) == ToLower(email)
  }

  predicate CredentialsMatch(u: UserRecord, email: string, password: string) {
    EmailMatches(u, email) && u.password == password
  }

  /** `isAuthenticated`: someone is signed in. In a valid state the signed-in
      user is also the stored session and the view of a stored record. */
  predicate IsAuthenticated(s: AuthState)
    ensures IsAuthenticated(s) && Valid(s) ==>
              && s.user.Some? && s.user == s.storage.session
              && exists i :: 0 <= i < |s.storage.users| && WithoutPassword(s.storage.users[i]) == s.user.value
  {
    s.user.Some?
  }

  /** The provider as first rendered: nobody signed in, still loading. */
  function Mount(storage: Storage): (s: AuthState)
    ensures s.isLoading && !IsAuthenticated(s) && s.storage == storage
  {
    AuthState(storage, None, true)
  }

  /** Reads the session slot: a stored user replaces the in-memory one, an empty
      slot leaves it alone, and loading always ends. */
  function LoadUser(s: AuthState): (t: AuthState)
    ensures !t.isLoading
    ensures t.storage == s.storage
    ensures s.storage.session.Some? ==> t.user == s.storage.session
    ensures s.storage.session.None? ==> t.user == s.user
  {
    match s.storage.session
    case Some(u) => s.(user := Some(u), isLoading := false)
    case None => s.(isLoading := false)
  }

  /** The sign-up field checks, in the order they are made. */
  function ValidateSignUp(email: string, password: string, username: string): (r: Option<AuthError>)
    ensures r.None? <==> email != [] && username != [] && |password| >= MinPasswordLength && '@' in email
    ensures r.Some? ==> r.value in {MissingFields, PasswordTooShort, InvalidEmail}
  {
    if email == [] || password == [] || username == [] then Some(MissingFields)
    else if |password| < MinPasswordLength then Some(PasswordTooShort)
    else if '@' !in email then Some(InvalidEmail)
    else None
  }

  /** Whether some stored record already uses `email`, ignoring case. */
  function FindByEmail(users: seq<UserRecord>, email: string): (r: Option<UserRecord>)
    ensures r.None? <==> forall i :: 0 <= i < |users| ==> !EmailMatches(users[i], email)
    ensures r.Some? ==> r.value in users && EmailMatches(r.value, email)
  {
    Find(users, (u: UserRecord) => EmailMatches(u, email))
  }

  /** The first stored record whose email matches ignoring case and whose
      password matches exactly. */
  function FindByCredentials(users: seq<UserRecord>, email: string, password: string): (r: Option<UserRecord>)
    ensures r.None? <==> forall i :: 0 <= i < |users| ==> !CredentialsMatch(users[i], email, password)
    ensures r.Some? ==> exists i :: 0 <= i < |users| && users[i] == r.value
                                     && CredentialsMatch(users[i], email, password)
                                     && forall j :: 0 <= j < i ==> !CredentialsMatch(users[j], email, password)
  {
    Find(users, (u: UserRecord) => CredentialsMatch(u, email, password))
  }

  /** Sign-up. `id` and `createdAt` are the clock readings the application takes
      (`Date.now()` and the ISO timestamp). */
  function SignUp(s: AuthState, email: string, password: string, username: string,
                  id: string, createdAt: string): (r: Step)
    ensures r.outcome.Failure? ==> r.state == s
    ensures (email == [] || password == [] || username == []) ==> r.outcome == Failure(MissingFields)
    ensures email != [] && password != [] && username != [] && |password| < MinPasswordLength
            ==> r.outcome == Failure(PasswordTooShort)
    ensures email != [] && username != [] && |password| >= MinPasswordLength && '@' !in email
            ==> r.outcome == Failure(InvalidEmail)
    ensures ValidateSignUp(email, password, username).None?
            && (exists i :: 0 <= i < |s.storage.users| && EmailMatches(s.storage.users[i], email))
            ==> r.outcome == Failure(EmailTaken)
    ensures r.outcome.Success? <==>
              ValidateSignUp(email, password, username).None?
              && forall i :: 0 <= i < |s.storage.users| ==> !EmailMatches(s.storage.users[i], email)
    ensures r.outcome.Success? ==>
              var rec := UserRecord(id, ToLower(email), username, password, createdAt);
              && r.state.storage.users == s.storage.users + [rec]
              && r.state.storage.session == Some(User(id, ToLower(email), username, createdAt))
              && r.state.user == r.state.storage.session
              && r.state.isLoading == s.isLoading
  {
    var invalid := ValidateSignUp(email, password, username);
    if invalid.Some? then Step(Failure(invalid.value), s)
    else if FindByEmail(s.storage.users, email).Some? then Step(Failure(EmailTaken), s)
    else
      var rec := UserRecord(id, ToLower(email), username, password, createdAt);
      var u := WithoutPassword(rec);
      Step(Success, s.(storage := Storage(s.storage.users + [rec], Some(u)), user := Some(u)))
  }

  /** Sign-in: an empty field is refused, otherwise the first record matching on
      lower-cased email and exact password becomes the session. */
  function SignIn(s: AuthState, email: string, password: string): (r: Step)
    ensures r.state.storage.users == s.storage.users
    ensures r.state.isLoading == s.isLoading
    ensures r.outcome.Failure? ==> r.state == s
    ensures (email == [] || password == []) ==> r.outcome == Failure(MissingCredentials)
    ensures r.outcome == Failure(InvalidCredentials) <==>
              email != [] && password != []
              && forall i :: 0 <= i < |s.storage.users| ==> !CredentialsMatch(s.storage.users[i], email, password)
    ensures r.outcome.Success? <==>
              email != [] && password != []
              && exists i :: 0 <= i < |s.storage.users| && CredentialsMatch(s.storage.users[i], email, password)
    ensures r.outcome.Success? ==>
              exists i :: 0 <= i < |s.storage.users|
                          && CredentialsMatch(s.storage.users[i], email, password)
                          && (forall j :: 0 <= j < i ==> !CredentialsMatch(s.storage.users[j], email, password))
                          && r.state.user == Some(WithoutPassword(s.storage.users[i]))
                          && r.state.storage.session == r.state.user
  {
    if email == [] || password == [] then Step(Failure(MissingCredentials), s)
    else
      match FindByCredentials(s.storage.users, email, password)
      case None => Step(Failure(InvalidCredentials), s)
      case Some(rec) =>
        var u := WithoutPassword(rec);
        Step(Success, s.(storage := s.storage.(session := Some(u)), user := Some(u)))
  }

  /** Sign-out: clears the session slot and the in-memory user. */
  function SignOut(s: AuthState): (t: AuthState)
    ensures !IsAuthenticated(t) && t.storage.session.None?
    ensures t.storage.users == s.storage.users && t.isLoading == s.isLoading
  {
    s.(storage := s.storage.(session := None), user := None)
  }

  // ---------------------------------------------------------------------------
  // The state invariant

  /** What sign-up guarantees of each record it writes. */
  predicate WellFormedRecord(u: UserRecord) {
    && IsLower(u.email)
    && '@' in u.email
    && |u.password| >= MinPasswordLength
    && u.username != []
  }

  /** No two stored records share an email, ignoring case. */
  predicate EmailsUnique(users: seq<UserRecord>) {
    forall i, j :: 0 <= i < j < |users| ==> ToLower(users[i].email) != ToLower(users[j].email)
  }

  predicate ValidUsers(users: seq<UserRecord>) {
    && EmailsUnique(users)
    && forall i :: 0 <= i < |users| ==> WellFormedRecord(users[i])
  }

  /** A session, when present, is the password-free view of a stored record. */
  predicate SessionBacked(users: seq<UserRecord>, session: Option<User>) {
    session.Some? ==> exists i :: 0 <= i < |users| && WithoutPassword(users[i]) == session.value
  }

  /** The in-memory user mirrors the session slot, except before the slot has
      been loaded, when nobody is signed in yet. */
  predicate Synced(s: AuthState) {
    s.user == s.storage.session || (s.isLoading && s.user.None?)
  }

  predicate Valid(s: AuthState) {
    && ValidUsers(s.storage.users)
    && SessionBacked(s.storage.users, s.storage.session)
    && SessionBacked(s.storage.users, s.user)
    && Synced(s)
  }
}
