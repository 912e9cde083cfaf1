/** Properties of the authentication state machine that relate several calls. */
module AuthProperties {
  import opened Wrappers
  import opened Text
  import opened Auth

  /** A provider mounted over well-formed storage starts out valid. */
  lemma MountValid(storage: Storage)
    requires ValidUsers(storage.users) && SessionBacked(storage.users, storage.session)
    ensures Valid(Mount(storage))
  {
  }

  /** Loading the session slot keeps the invariant and leaves the in-memory user
      equal to the stored session. */
  lemma LoadUserPreservesValid(s: AuthState)
    requires Valid(s)
    ensures Valid(LoadUser(s))
    ensures LoadUser(s).user == s.storage.session
  {
  }

  /** Sign-up keeps emails unique ignoring case, keeps every record well formed
      and keeps the session backed by a stored record. */
  lemma SignUpPreservesValid(s: AuthState, email: string, password: string, username: string,
                             id: string, createdAt: string)
    requires Valid(s)
    ensures Valid(SignUp(s, email, password, username, id, createdAt).state)
  {
    var r := SignUp(s, email, password, username, id, createdAt);
    if r.outcome.Success? {
      var users := s.storage.users;
      var rec := UserRecord(id, ToLower(email), username, password, createdAt);
      var users' := r.state.storage.users;
      assert users' == users + [rec];
      ToLowerIdempotent(email);
      ToLowerKeepsAt(email);
      assert WellFormedRecord(rec);
      forall i, j | 0 <= i < j < |users'|
        ensures ToLower(users'[i].email) != ToLower(users'[j].email)
      {
        if j == |users| {
          assert !EmailMatches(users[i], email);
        }
      }
      assert WithoutPassword(users'[|users|]) == r.state.user.value;
    }
  }

  /** Sign-in keeps the invariant: it never touches the records, and the new
      session is the view of a stored record. */
  lemma SignInPreservesValid(s: AuthState, email: string, password: string)
    requires Valid(s)
    ensures Valid(SignIn(s, email, password).state)
  {
  }

  lemma SignOutPreservesValid(s: AuthState)
    requires Valid(s)
    ensures Valid(SignOut(s))
  {
  }

  /** `isAuthenticated` follows the transitions: a successful sign-up or sign-in
      authenticates, sign-out de-authenticates, and a failure changes nothing. */
  lemma AuthenticationFollowsOutcome(s: AuthState, email: string, password: string, username: string,
                                     id: string, createdAt: string)
    ensures var r := SignUp(s, email, password, username, id, createdAt);
            if r.outcome.Success? then IsAuthenticated(r.state)
            else IsAuthenticated(r.state) == IsAuthenticated(s)
    ensures var r := SignIn(s, email, password);
            if r.outcome.Success? then IsAuthenticated(r.state)
            else IsAuthenticated(r.state) == IsAuthenticated(s)
    ensures !IsAuthenticated(SignOut(s))
  {
  }

  /** Signing out twice is signing out once. */
  lemma SignOutIdempotent(s: AuthState)
    ensures SignOut(SignOut(s)) == SignOut(s)
  {
  }

  /** Under the invariant at most one record answers to an email. */
  lemma AtMostOneRecordPerEmail(users: seq<UserRecord>, email: string, i: int, j: int)
    requires EmailsUnique(users)
    requires 0 <= i < |users| && 0 <= j < |users|
    requires EmailMatches(users[i], email) && EmailMatches(users[j], email)
    ensures i == j
  {
  }

  /** When exactly one stored record carries the credentials, sign-in signs
      that record in. */
  lemma SignInPicksTheOnlyMatch(s: AuthState, email: string, password: string, k: int)
    requires email != [] && password != []
    requires 0 <= k < |s.storage.users| && CredentialsMatch(s.storage.users[k], email, password)
    requires forall i :: 0 <= i < |s.storage.users| && CredentialsMatch(s.storage.users[i], email, password) ==> i == k
    ensures SignIn(s, email, password).outcome.Success?
    ensures SignIn(s, email, password).state.user == Some(WithoutPassword(s.storage.users[k]))
  {
    var r := SignIn(s, email, password);
    var i :| 0 <= i < |s.storage.users| && CredentialsMatch(s.storage.users[i], email, password)
             && r.state.user == Some(WithoutPassword(s.storage.users[i]));
  }

  /** With unique emails, sign-in for a registered email succeeds exactly when
      the password is that record's password, and then signs that record in. */
  lemma SignInFindsTheRegisteredRecord(s: AuthState, email: string, password: string, k: int)
    requires ValidUsers(s.storage.users)
    requires 0 <= k < |s.storage.users| && EmailMatches(s.storage.users[k], email)
    requires email != [] && password != []
    ensures SignIn(s, email, password).outcome.Success? <==> s.storage.users[k].password == password
    ensures SignIn(s, email, password).outcome.Success? ==>
              SignIn(s, email, password).state.user == Some(WithoutPassword(s.storage.users[k]))
  {
    var users := s.storage.users;
    var r := SignIn(s, email, password);
    if r.outcome.Success? {
      var i :| 0 <= i < |users| && CredentialsMatch(users[i], email, password)
               && r.state.user == Some(WithoutPassword(users[i]));
      AtMostOneRecordPerEmail(users, email, i, k);
    }
  }

  /** Unknown email and wrong password are reported with the same message. */
  lemma SignInHidesWhichFieldIsWrong(s: AuthState, email: string, password: string, other: string)
    requires email != [] && password != [] && other != []
    requires forall i :: 0 <= i < |s.storage.users| ==> !EmailMatches(s.storage.users[i], email)
    requires exists i :: 0 <= i < |s.storage.users| && EmailMatches(s.storage.users[i], other)
                         && s.storage.users[i].password != password
    requires ValidUsers(s.storage.users)
    ensures SignIn(s, email, password).outcome == SignIn(s, other, password).outcome
    ensures Message(SignIn(s, other, password).outcome.error) == "Invalid email or password"
  {
    var users := s.storage.users;
    var k :| 0 <= k < |users| && EmailMatches(users[k], other) && users[k].password != password;
    SignInFindsTheRegisteredRecord(s, other, password, k);
  }

  /** A sign-up followed by a sign-in with the same password and the email in any
      case succeeds and signs in the user that sign-up created. */
  lemma SignUpThenSignIn(s: AuthState, email: string, password: string, username: string,
                         id: string, createdAt: string, email': string)
    requires SignUp(s, email, password, username, id, createdAt).outcome.Success?
    requires ToLower(email') == ToLower(email)
    ensures var t := SignUp(s, email, password, username, id, createdAt).state;
            var r := SignIn(t, email', password);
            r.outcome.Success? && r.state.user == t.user
  {
    var t := SignUp(s, email, password, username, id, createdAt).state;
    var users := s.storage.users;
    var n := |users|;
    assert t.storage.users == users + [UserRecord(id, ToLower(email), username, password, createdAt)];
    ToLowerIdempotent(email);
    assert |email'| == |email| && password != [];
    assert forall i :: 0 <= i < n ==> t.storage.users[i] == users[i] && !EmailMatches(users[i], email');
    SignInPicksTheOnlyMatch(t, email', password, n);
  }

  /** After a successful sign-up, looking up the email in any case finds the new
      record, stored under the lower-cased email. */
  lemma SignUpThenFindByEmail(s: AuthState, email: string, password: string, username: string,
                              id: string, createdAt: string, email': string)
    requires SignUp(s, email, password, username, id, createdAt).outcome.Success?
    requires ToLower(email') == ToLower(email)
    ensures var t := SignUp(s, email, password, username, id, createdAt).state;
            FindByEmail(t.storage.users, email')
            == Some(UserRecord(id, ToLower(email), username, password, createdAt))
  {
    var t := SignUp(s, email, password, username, id, createdAt).state;
    var users := s.storage.users;
    ToLowerIdempotent(email);
    assert forall i :: 0 <= i < |users| ==> t.storage.users[i] == users[i] && !EmailMatches(users[i], email');
    assert EmailMatches(t.storage.users[|users|], email');
  }

  /** Different errors are reported with different messages. */
  lemma MessagesDistinct(e1: AuthError, e2: AuthError)
    requires e1 != e2
    ensures Message(e1) != Message(e2)
  {
  }

  /** Once an email is registered, signing up again with any case variant of it
      fails with the duplicate-account error and changes nothing. */
  lemma SignUpRejectsCaseVariant(s: AuthState, email: string, password: string, username: string,
                                 id: string, createdAt: string,
                                 email': string, password': string, username': string,
                                 id': string, createdAt': string)
    requires SignUp(s, email, password, username, id, createdAt).outcome.Success?
    requires ToLower(email') == ToLower(email)
    requires ValidateSignUp(email', password', username').None?
    ensures var t := SignUp(s, email, password, username, id, createdAt).state;
            SignUp(t, email', password', username', id', createdAt') == Step(Failure(EmailTaken), t)
  {
    var t := SignUp(s, email, password, username, id, createdAt).state;
    ToLowerIdempotent(email);
    assert EmailMatches(t.storage.users[|s.storage.users|], email');
  }

  /** A restart (remount, then load) restores the user a successful sign-up
      signed in. */
  lemma SignUpSurvivesRestart(s: AuthState, email: string, password: string, username: string,
                              id: string, createdAt: string)
    requires SignUp(s, email, password, username, id, createdAt).outcome.Success?
    ensures var t := SignUp(s, email, password, username, id, createdAt).state;
            var restarted := LoadUser(Mount(t.storage));
            IsAuthenticated(restarted) && restarted.user == t.user
            && restarted.user == Some(User(id, ToLower(email), username, createdAt))
  {
  }

  /** After sign-out a restart finds nobody signed in. */
  lemma SignOutSurvivesRestart(s: AuthState)
    ensures !IsAuthenticated(LoadUser(Mount(SignOut(s).storage)))
  {
  }

  /** The password-length boundary: five characters are refused, six pass the
      length check and, with a valid and unused email, sign up. */
  lemma PasswordLengthBoundary(s: AuthState)
    requires forall i :: 0 <= i < |s.storage.users| ==> !EmailMatches(s.storage.users[i], "a@b")
    ensures SignUp(s, "a@b", "12345", "Al", "1", "t").outcome == Failure(PasswordTooShort)
    ensures SignUp(s, "a@b", "123456", "Al", "1", "t").outcome == Success
    ensures SignUp(s, "ab", "12345", "Al", "1", "t").outcome == Failure(PasswordTooShort)
  {
  }

  /** The worked example's sign-up email lower-cases to "test@example.com". */
  lemma ExampleEmailLowered()
    ensures ToLower("Test@Example.com") == "test@example.com"
  {
  }

  /** The worked example's sign-in email, in capitals, lower-cases to the same address. */
  lemma ExampleCapitalsLowered()
    ensures ToLower("TEST@EXAMPLE.COM") == "test@example.com"
  {
  }

  /** The worked example: sign up as "Test@Example.com", find the record under
      its lower-cased email, sign in in capitals. */
  lemma WorkedExample()
    ensures var t := SignUp(Mount(Storage([], None)), "Test@Example.com", "secret1", "Al", "1", "t");
            && t.outcome == Success
            && FindByEmail(t.state.storage.users, "test@example.com")
               == Some(UserRecord("1", "test@example.com", "Al", "secret1", "t"))
            && SignIn(t.state, "TEST@EXAMPLE.COM", "secret1").outcome == Success
  {
    var s := Mount(Storage([], None));
    ExampleEmailLowered();
    ExampleCapitalsLowered();
    ToLowerIdempotent("Test@Example.com");
    assert "Test@Example.com"[4] == '@';
    SignUpThenFindByEmail(s, "Test@Example.com", "secret1", "Al", "1", "t", "test@example.com");
    SignUpThenSignIn(s, "Test@Example.com", "secret1", "Al", "1", "t", "TEST@EXAMPLE.COM");
  }
}
