# FeetGPT authentication and navigation logic, modelled in Dafny

This project models the few pieces of the FeetGPT mobile app that have real
control flow:

- the **local credential store and session state machine** of the
  authentication context: a list of user records (id, email, username,
  plaintext password, creation time) kept in device storage, the signed-in user
  (the same record without its password) kept in a second storage entry and
  mirrored in memory, and an `isLoading` flag. Its operations `loadUser`,
  `signUp`, `signIn` and `signOut` are pure transitions over an `AuthState`
  that returns a `Step` (the reported outcome plus the next state);
- the **affirmation carousel**: next/previous index stepping with wrap-around
  over twelve affirmations, and the highlighted dot;
- the **floating tab bar**: the active tab (first tab whose name occurs in the
  current route), the tab drawn active, and the indicator target update;
- the **start-up redirect**: spinner while loading, then the home tab or the
  sign-in screen.

Modules: `Wrappers` (Option), `Text` (ASCII `toLowerCase`, `String.includes`),
`Search` (`Array.findIndex` / `Array.find`), `Auth` (data, transitions and the
state invariant `Valid`), `AuthProperties` (lemmas relating several calls),
`Affirmations`, `TabBar`, `Startup`.

Device storage is two abstract slots with perfect round-trip: `Storage.users`
(the `@feetgpt_users` entry) and `Storage.session` (the `@feetgpt_user` entry).
A missing users entry is the empty list. A missing or unparsable session entry
is `None`. An unparsable users entry sends sign-up and sign-in down their
exception path, which is left out. The user id and the
creation timestamp, which the app takes from the clock, are parameters of
`SignUp`.

The invariant `Auth.Valid` states what sign-up guarantees of storage: stored
emails are pairwise distinct after lower-casing, each is lower case and holds an
'@', each password has at least six characters, each username is non-empty,
every session (stored or in memory) is the password-free view of a stored
record, and once loading has finished the in-memory user equals the stored one.

The carousel opens on index 0 (`Affirmations.InitialIndex`) and the tab-bar
indicator starts at position 0 (`TabBar.InitialIndicator`); `TabBar.IndicatorAfter`
takes the starting position as a parameter.

User ids are `Date.now()` strings and nothing in the app makes them unique, so
no uniqueness of ids is claimed. Emails are unique only in lists built by
sign-up: a list already in storage is taken as it is, so the invariant is a
precondition of the preservation lemmas.

## Model

| member | source | states |
|---|---|---|
| Search.FindIndex | components/FloatingTabBar.tsx:49 | the result lies in [-1, length); it is -1 exactly when no element satisfies the predicate; otherwise the element there satisfies it and no earlier one does |
| Search.Find | contexts/AuthContext.tsx:117-119 | `None` exactly when no element satisfies the predicate; otherwise the result is the first element that does |
| Text.ToLowerIdempotent | contexts/AuthContext.tsx:70-78 | lower-casing an already lower-cased email changes nothing, so a stored (lower-cased) email compares equal to the lower-cased input it came from |
| Text.ToLowerKeepsAt | contexts/AuthContext.tsx:61-78 | lower-casing neither adds nor removes '@', so the stored email still passes the '@' check |
| Text.ToLower | contexts/AuthContext.tsx:70 | lower-casing keeps the length, maps each character on its own, leaves every non-letter in place and leaves no upper-case letter (used for the comparisons at lines 70 and 118 and the stored email at line 78) |
| Text.Includes | components/FloatingTabBar.tsx:49 | `includes` is true exactly when the needle occurs at some position of the route (the empty needle occurs everywhere) |
| Text.ShiftOccurrence | components/FloatingTabBar.tsx:49 | when the needle is not a prefix of the route, it occurs in the route exactly when it occurs after the first character, which is what lets the search move one position on |
| Auth.Message | contexts/AuthContext.tsx:54-122 | every error carries a non-empty message to show, and the short-password message quotes the minimum length the check enforces |
| Auth.WithoutPassword | contexts/AuthContext.tsx:76-81 | the session user keeps the record's id, email, username and creation time and drops only the password (as the destructuring at line 126 does) |
| Auth.IsAuthenticated | contexts/AuthContext.tsx:156 | `!!user`; in a valid state a signed-in user is also the stored session and the password-free view of a stored record |
| Auth.Mount | contexts/AuthContext.tsx:27-28 | the provider starts loading, with nobody signed in |
| Auth.LoadUser | contexts/AuthContext.tsx:35-48 | loading always ends; a stored session becomes the in-memory user; an empty slot leaves the user as it was; storage is untouched |
| Auth.ValidateSignUp | contexts/AuthContext.tsx:53-63 | no error exactly when all fields are non-empty, the password has at least 6 characters and the email holds '@'; any error is one of the three validation errors |
| Auth.FindByEmail | contexts/AuthContext.tsx:66-73 | `None` exactly when no stored email equals the input ignoring case; a found record is stored and matches |
| Auth.FindByCredentials | contexts/AuthContext.tsx:116-119 | `None` exactly when no record matches on lower-cased email and exact password; otherwise the first such record |
| Auth.SignUp | contexts/AuthContext.tsx:50-98 | checks in order: empty field, then short password, then missing '@', then duplicate email ignoring case; any failure leaves the state unchanged; success exactly when validation passes and no email matches, and then exactly one record (lower-cased email, given username, password, id and time) is appended after the unchanged old list and becomes the stored and in-memory session without its password |
| Auth.SignIn | contexts/AuthContext.tsx:105-133 | never changes the user list; an empty field fails with the required-fields error; the invalid-credentials error exactly when no record matches, whether the email is unknown or the password wrong; success exactly when some record matches, and then the first matching record without its password is the stored and in-memory session; failure changes nothing |
| Auth.SignOut | contexts/AuthContext.tsx:140-148 | from any state the session slot and the in-memory user are cleared and nothing else changes |
| AuthProperties.MountValid | contexts/AuthContext.tsx:27-28 | mounting over well-formed storage gives a valid state |
| AuthProperties.LoadUserPreservesValid | contexts/AuthContext.tsx:35-48 | loading keeps the invariant and leaves the in-memory user equal to the stored session |
| AuthProperties.SignUpPreservesValid | contexts/AuthContext.tsx:53-95 | sign-up keeps emails unique ignoring case, every email lower case with '@', every password at least 6 long, every username non-empty, and the session backed by a record |
| AuthProperties.SignInPreservesValid | contexts/AuthContext.tsx:105-133 | sign-in keeps the invariant |
| AuthProperties.SignOutPreservesValid | contexts/AuthContext.tsx:140-148 | sign-out keeps the invariant |
| AuthProperties.AuthenticationFollowsOutcome | contexts/AuthContext.tsx:156 | `isAuthenticated` becomes true after a successful sign-up or sign-in, false after sign-out, and is unchanged by a failure |
| AuthProperties.SignOutIdempotent | contexts/AuthContext.tsx:140-148 | signing out twice equals signing out once |
| AuthProperties.AtMostOneRecordPerEmail | contexts/AuthContext.tsx:70-73 | with unique emails at most one record answers to an email, ignoring case |
| AuthProperties.SignInPicksTheOnlyMatch | contexts/AuthContext.tsx:116-130 | when exactly one record carries the credentials, sign-in succeeds and signs in that record |
| AuthProperties.SignInFindsTheRegisteredRecord | contexts/AuthContext.tsx:116-130 | with unique emails, sign-in with a registered email succeeds exactly when the password is that record's, and signs that record in |
| AuthProperties.SignInHidesWhichFieldIsWrong | contexts/AuthContext.tsx:121-123 | an unknown email and a wrong password give the same outcome and the message "Invalid email or password" |
| AuthProperties.SignUpThenSignIn | contexts/AuthContext.tsx:76-130 | after a successful sign-up, sign-in with the same password and any case variant of the email succeeds and signs in the user sign-up created |
| AuthProperties.SignUpThenFindByEmail | contexts/AuthContext.tsx:70-90 | after a successful sign-up, looking up any case variant of the email finds exactly the new record, stored under the lower-cased email |
| AuthProperties.MessagesDistinct | contexts/AuthContext.tsx:54-122 | different errors are reported with different messages |
| AuthProperties.SignUpRejectsCaseVariant | contexts/AuthContext.tsx:69-73 | after a successful sign-up, a valid sign-up with any case variant of the email fails with the duplicate-account error and changes nothing |
| AuthProperties.SignUpSurvivesRestart | contexts/AuthContext.tsx:35-48 | remounting and loading after a successful sign-up restores the signed-up user (lower-cased email, no password) |
| AuthProperties.SignOutSurvivesRestart | contexts/AuthContext.tsx:140-143 | remounting and loading after sign-out finds nobody signed in |
| AuthProperties.PasswordLengthBoundary | contexts/AuthContext.tsx:57-63 | a 5-character password is refused, a 6-character one signs up, and a short password with a bad email reports the password error |
| AuthProperties.ExampleEmailLowered | contexts/AuthContext.tsx:78 | "Test@Example.com" is stored as "test@example.com" |
| AuthProperties.ExampleCapitalsLowered | contexts/AuthContext.tsx:118 | "TEST@EXAMPLE.COM" compares as "test@example.com" |
| AuthProperties.WorkedExample | contexts/AuthContext.tsx:70-118 | signing up "Test@Example.com" stores "test@example.com", which is found under that email and signed in with "TEST@EXAMPLE.COM" |
| Affirmations.InitialIndexValid | components/Affirmations.tsx:23 | the carousel opens on index 0, a real affirmation, with its dot the one highlighted |
| Affirmations.Next | components/Affirmations.tsx:25-27 | the index stays in [0, 12), advances by one and wraps from 11 to 0 |
| Affirmations.Previous | components/Affirmations.tsx:29-31 | the index stays in [0, 12), goes back by one and wraps from 0 to 11 |
| Affirmations.PreviousUndoesNext | components/Affirmations.tsx:25-31 | previous after next, and next after previous, return to the starting index |
| Affirmations.NextOfRemainder | components/Affirmations.tsx:26 | one "next" press on `x mod 12` gives `(x + 1) mod 12` |
| Affirmations.PreviousOfRemainder | components/Affirmations.tsx:30 | one "previous" press on `x mod 12` gives `(x - 1) mod 12` |
| Affirmations.ForwardIsAddition | components/Affirmations.tsx:26 | k presses of next move the index to (i + k) mod 12 |
| Affirmations.BackwardIsSubtraction | components/Affirmations.tsx:30 | k presses of previous move the index to (i - k) mod 12 |
| Affirmations.ForwardFullCycle | components/Affirmations.tsx:26 | twelve presses of next return to the starting affirmation |
| Affirmations.BackwardFullCycle | components/Affirmations.tsx:30 | twelve presses of previous return to the starting affirmation |
| Affirmations.ActiveDots | components/Affirmations.tsx:61-68 | a dot is highlighted when its position equals the current index, so for an index in range exactly one dot, the current one, is highlighted |
| TabBar.ActiveIndex | components/FloatingTabBar.tsx:49 | the active index lies in [-1, number of tabs); it is -1 exactly when no tab name occurs in the route; otherwise that tab's name occurs and no earlier tab's does |
| TabBar.IsActive | components/FloatingTabBar.tsx:108-109 | a tab drawn active is a real tab whose name occurs in the route, and no earlier tab's name does |
| TabBar.AtMostOneActiveTab | components/FloatingTabBar.tsx:108-109 | at most one tab is drawn active; none exactly when no tab name occurs in the route; an active tab's name occurs in the route |
| TabBar.UpdateIndicator | components/FloatingTabBar.tsx:51-58 | the indicator moves to the active index when there is one and otherwise stays |
| TabBar.IndicatorAfter | components/FloatingTabBar.tsx:47-58 | starting on a tab, the indicator stays on a tab through any sequence of routes |
| TabBar.IndicatorFromInitialOnTab | components/FloatingTabBar.tsx:47-58 | starting from position 0, the indicator stays on a tab through any sequence of routes when there is at least one tab |
| TabBar.IndicatorStaysWithoutMatch | components/FloatingTabBar.tsx:47-58 | while no route has an active tab the indicator stays at its start |
| TabBar.IndicatorFollowsLastMatch | components/FloatingTabBar.tsx:51-58 | the indicator rests on the active tab of the last route that had one |
| Startup.Path | app/index.tsx:14-16 | each redirect target is an absolute router path: `/(tabs)/(home)/` for the home tab, `/(auth)/sign-in` for sign-in |
| Startup.Redirect | app/index.tsx:12-17 | no redirect exactly while loading; the home tab exactly when loaded and authenticated; the sign-in screen exactly when loaded and not authenticated |
| Startup.RedirectDependsOnlyOnAuthentication | app/index.tsx:12-17 | once loaded a target is always chosen, and the two targets differ exactly when authentication differs |
| Startup.LaunchRedirect | app/index.tsx:12-17 | at launch no redirect before loading; after loading the home tab (path `/(tabs)/(home)/`) exactly when a session was stored, otherwise the sign-in screen (path `/(auth)/sign-in`) |
| Startup.RelaunchRedirect | app/index.tsx:12-17 | a relaunch after a successful sign-up goes to the home tab; after sign-out to the sign-in screen |

## Left out

- Device storage I/O and JSON encoding: the two entries are abstract slots that read back what was written. A session entry that fails to parse is handled by the app's catch exactly like an empty one (user unchanged, loading ends), so both are `None`.
- The exception paths of sign-up, sign-in and sign-out (the "An error occurred during sign up/in" results and the swallowed sign-out error), and the partial write between the two storage writes of sign-up: these are storage failures. This includes a users entry that cannot be read or parsed: there the app reports "An error occurred during sign up" (or "sign in"), while the model, which has no such storage state, has only the list it holds.
- A stored user list whose entries lack fields (where `u.email.toLowerCase()` would throw): records are always well-typed here.
- Clock readings: `Date.now()` for the id and the ISO creation time are parameters; ids are not claimed unique.
- Text.ToLower: lower-cases ASCII letters only, because JavaScript's `toLowerCase` follows Unicode case mappings, which are not modelled.
- Auth.ValidateSignUp: counts a password's length in Unicode characters, while JavaScript's `length` counts UTF-16 code units; the two differ only for characters outside the Basic Multilingual Plane.
- JavaScript's falsy check on fields also rejects `null`/`undefined`; fields here are always strings, so only the empty string is falsy.
- Concurrent, interleaved sign-ups (two read-modify-write sequences racing on the user list).
- React hooks and context plumbing, the `useAuth` provider check, logging, rendering and styles, and the router side effects (`router.replace`, `router.push` on tab press).
- The spring animation and the interpolation of the indicator position and tab width (floating-point UI): only the indicator's target index is modelled.
- The twelve affirmation texts themselves: only their number matters to the index arithmetic.
- The self-care tips and functionality-focus components: static content with no behaviour.
