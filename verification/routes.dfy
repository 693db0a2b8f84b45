/**
  The login gate of the account portal's HTTP routes: the per-session challenge state
  that `GET /login` issues, the checks `POST /auth` runs against it (return target,
  challenge token, lockout, decoy field, factorisation answer, PAM), the sliding
  lockout that repeated failures trigger, and the member normalisation of
  `POST /create-list`. The clock, the UUIDs, the quiz and PAM's verdict are inputs.
*/
module Routes {
  import opened Wrappers
  import opened Text
  import Aliases

  /** Lockout length: 600 seconds, in the milliseconds `Date.now()` counts. */
  const LockoutMillis: nat := 600 * 1000

  /** A failure count above this locks the session. */
  const MaxFailures: nat := 2

  /**
    The session fields the gate reads and writes. An empty string or zero stands for
    an unset (falsy) field, which is all the gate ever distinguishes.
  */
  datatype Session = Session(
    username: string,
    loginReturnTo: string,
    loginToken: string,
    quizAnswer1: string,
    quizAnswer2: string,
    passwordFieldName: string,
    loginFailureCount: nat,
    loginDisabledUntil: nat)

  /** A session as `regenerate` leaves it: every field unset. */
  const Fresh := Session("", "", "", "", "", "", 0, 0)

  /** The form fields of the request body. */
  type Body = map<string, string>

  /** A form field, with a missing one read as the empty (falsy) string. */
  function Field(body: Body, key: string): string {
    if key in body then body[key] else ""
  }

  /** How one request ends. */
  datatype Outcome =
    | InvalidReturnTo            // next(new Error('invalid loginReturnTo'))
    | AlreadyLoggedIn(to: string) // redirect to the stored return target
    | AuthError                  // redirect to /login?error=auth-error
    | TooManyFailures            // redirect to /login?error=too-many-failures
    | LoggedIn(to: string)       // session regenerated, redirect to the return target

  datatype Transition = Transition(session: Session, outcome: Outcome)

  // ---------------------------------------------------------------------------
  // Lockout

  /** `loginDisabledUntil && loginDisabledUntil > Date.now()`. */
  predicate Locked(s: Session, now: nat) {
    s.loginDisabledUntil > now
  }

  /**
    `recordLoginFailure`: while locked, only slide the lockout to `now + 600 s`;
    otherwise count the failure, and once the count exceeds two, lock and reset it.
  */
  function RecordLoginFailure(s: Session, now: nat): (r: Session)
    ensures r == s.(loginFailureCount := r.loginFailureCount, loginDisabledUntil := r.loginDisabledUntil)
    ensures Locked(s, now) ==> r == s.(loginDisabledUntil := now + LockoutMillis)
    ensures !Locked(s, now) && s.loginFailureCount + 1 > MaxFailures ==>
              r.loginFailureCount == 0 && r.loginDisabledUntil == now + LockoutMillis
    ensures !Locked(s, now) && s.loginFailureCount + 1 <= MaxFailures ==>
              r == s.(loginFailureCount := s.loginFailureCount + 1)
  {
    if Locked(s, now) then s.(loginDisabledUntil := now + LockoutMillis)
    else
      var count := s.loginFailureCount + 1;
      if count > MaxFailures then s.(loginFailureCount := 0, loginDisabledUntil := now + LockoutMillis)
      else s.(loginFailureCount := count)
  }

  /** A failure never leaves the counter above two, and a recorded failure always ends locked or counted. */
  lemma RecordLoginFailureBounds(s: Session, now: nat)
    requires s.loginFailureCount <= MaxFailures
    ensures RecordLoginFailure(s, now).loginFailureCount <= MaxFailures
    ensures Locked(RecordLoginFailure(s, now), now) || RecordLoginFailure(s, now).loginFailureCount > s.loginFailureCount
  {
  }

  /** Three failures from an unlocked session with no failures lock it. */
  lemma ThreeFailuresLock(s: Session, t1: nat, t2: nat, t3: nat)
    requires s.loginFailureCount == 0 && !Locked(s, t1) && !Locked(s, t2) && !Locked(s, t3)
    ensures var s3 := RecordLoginFailure(RecordLoginFailure(RecordLoginFailure(s, t1), t2), t3);
            s3.loginDisabledUntil == t3 + LockoutMillis && Locked(s3, t3) && s3.loginFailureCount == 0
  {
  }

  // ---------------------------------------------------------------------------
  // The challenge

  /**
    `GET /login` for a session without a user: a new token, the quiz factors as the
    expected answers and a new password field name; the counter and lockout stay.
    A session with a user is only redirected, unchanged.
  */
  function IssueChallenge(s: Session, token: string, p: string, q: string, fieldId: string): (r: Session)
    ensures s.username != "" ==> r == s
    ensures s.username == "" ==>
              && r.loginToken == token && r.quizAnswer1 == p && r.quizAnswer2 == q
              && r.passwordFieldName == "password-" + fieldId
              && r.username == s.username && r.loginReturnTo == s.loginReturnTo
    ensures r.loginFailureCount == s.loginFailureCount && r.loginDisabledUntil == s.loginDisabledUntil
  {
    if s.username != "" then s
    else s.(loginToken := token, quizAnswer1 := p, quizAnswer2 := q,
            passwordFieldName := "password-" + fieldId)
  }

  /** Reloading the login page never lifts a lockout. */
  lemma ChallengeKeepsLockout(s: Session, now: nat, token: string, p: string, q: string, fieldId: string)
    ensures Locked(IssueChallenge(s, token, p, q, fieldId), now) <==> Locked(s, now)
  {
  }

  /**
    The factor check: the submitted comma-separated parts, sorted, must start with
    the two expected answers, sorted.
  */
  predicate FactorsMatch(answer1: string, answer2: string, answers: string) {
    var expected := Sort([answer1, answer2]);
    var given := Sort(Split(answers, IsComma));
    |given| >= 2 && given[0] == expected[0] && given[1] == expected[1]
  }

  /** Two lexicographically smallest parts equal the expected pair, as a multiset. */
  lemma FactorsMatchIff(answer1: string, answer2: string, answers: string)
    ensures var given := Sort(Split(answers, IsComma));
            FactorsMatch(answer1, answer2, answers) <==>
              |given| >= 2 && multiset{given[0], given[1]} == multiset{answer1, answer2}
  {
    var expected := Sort([answer1, answer2]);
    assert multiset([answer1, answer2]) == multiset{answer1, answer2};
    SortedPairIff(expected, Sort(Split(answers, IsComma)), answer1, answer2);
  }

  /** Two sorted sequences start alike exactly when their first two have the same multiset. */
  lemma SortedPairIff(expected: seq<string>, given: seq<string>, a: string, b: string)
    requires SortedStrings(expected) && multiset(expected) == multiset{a, b}
    requires SortedStrings(given)
    ensures (|given| >= 2 && given[0] == expected[0] && given[1] == expected[1])
        <==> (|given| >= 2 && multiset{given[0], given[1]} == multiset{a, b})
  {
    assert |expected| == |multiset(expected)| == 2;
    assert expected == [expected[0], expected[1]];
    assert multiset(expected) == multiset{expected[0], expected[1]};
    if |given| >= 2 && multiset{given[0], given[1]} == multiset{a, b} {
      var pair := [given[0], given[1]];
      assert SortedStrings(pair);
      assert multiset(pair) == multiset{given[0], given[1]};
      SortedUnique(pair, expected);
    }
  }

  /** The pair of factors passes in either order. */
  lemma FactorsInEitherOrder(p: string, q: string)
    requires Free(p, IsComma) && Free(q, IsComma)
    ensures FactorsMatch(p, q, p + "," + q)
    ensures FactorsMatch(p, q, q + "," + p)
  {
    SplitJoin([p, q], ',', IsComma);
    SplitJoin([q, p], ',', IsComma);
    assert Join([p, q], ",") == p + "," + q;
    assert Join([q, p], ",") == q + "," + p;
    assert multiset([q, p]) == multiset([p, q]);
    SortedUnique(Sort([q, p]), Sort([p, q]));
  }

  // ---------------------------------------------------------------------------
  // POST /auth

  /** `loginReturnTo || '/'`. */
  function ReturnTarget(s: Session): string {
    if s.loginReturnTo == "" then "/" else s.loginReturnTo
  }

  /** A same-origin path: starts with `/` but not with `//`. */
  predicate SafeReturnTo(to: string) {
    |to| >= 1 && to[0] == '/' && !(|to| >= 2 && to[1] == '/')
  }

  /** The token and answers are all present and the token is the issued one. */
  predicate TokenValid(s: Session, body: Body) {
    var token := Field(body, "token");
    token != "" && token == s.loginToken && s.quizAnswer1 != "" && s.quizAnswer2 != ""
    && Field(body, "quizFactorizationAnswer") != ""
  }

  /** The decoy `password` field is empty and the factors match. */
  predicate AnswerValid(s: Session, body: Body) {
    Field(body, "password") == ""
    && FactorsMatch(s.quizAnswer1, s.quizAnswer2, Field(body, "quizFactorizationAnswer"))
  }

  /**
    `POST /auth` at time `now`, with `pamAccepts` the verdict PAM gives on the
    submitted user name and the password posted under the session's field name.
  */
  function Authenticate(s: Session, body: Body, now: nat, pamAccepts: bool): (t: Transition)
    ensures t.outcome.LoggedIn? <==>
              && SafeReturnTo(ReturnTarget(s)) && s.username == "" && s.passwordFieldName != ""
              && TokenValid(s, body) && !Locked(s, now) && AnswerValid(s, body) && pamAccepts
    ensures t.outcome.LoggedIn? ==>
              t.session == Fresh.(username := Field(body, "username")) && t.outcome.to == ReturnTarget(s)
    ensures t.outcome.InvalidReturnTo? <==> !SafeReturnTo(ReturnTarget(s))
    ensures t.outcome.InvalidReturnTo? ==> t.session == s
    ensures t.outcome.AlreadyLoggedIn? <==> SafeReturnTo(ReturnTarget(s)) && s.username != ""
    ensures t.outcome.AlreadyLoggedIn? ==> t.session == s.(loginReturnTo := "") && t.outcome.to == ReturnTarget(s)
    ensures t.outcome.TooManyFailures? ==> Locked(s, now) && t.session == s.(loginDisabledUntil := now + LockoutMillis)
    ensures t.outcome.AuthError? && s.passwordFieldName != "" ==> t.session == RecordLoginFailure(s, now)
    ensures t.outcome.AuthError? && s.passwordFieldName == "" ==> t.session == s
  {
    var to := ReturnTarget(s);
    if !SafeReturnTo(to) then Transition(s, InvalidReturnTo)
    else if s.username != "" then Transition(s.(loginReturnTo := ""), AlreadyLoggedIn(to))
    else if s.passwordFieldName == "" then Transition(s, AuthError)
    else if !TokenValid(s, body) then Transition(RecordLoginFailure(s, now), AuthError)
    else if Locked(s, now) then Transition(RecordLoginFailure(s, now), TooManyFailures)
    else if !AnswerValid(s, body) then Transition(RecordLoginFailure(s, now), AuthError)
    else if !pamAccepts then Transition(RecordLoginFailure(s, now), AuthError)
    else Transition(Fresh.(username := Field(body, "username")), LoggedIn(to))
  }

  /** The failure counter stays within 0..2 whatever the request. */
  lemma AuthenticateKeepsCounterBound(s: Session, body: Body, now: nat, pamAccepts: bool)
    requires s.loginFailureCount <= MaxFailures
    ensures Authenticate(s, body, now, pamAccepts).session.loginFailureCount <= MaxFailures
  {
  }

  /**
    The token is checked before the lockout: a bad token counts as an ordinary
    authentication error even while locked, and still slides the lockout.
  */
  lemma TokenCheckedBeforeLockout(s: Session, body: Body, now: nat, pamAccepts: bool)
    requires SafeReturnTo(ReturnTarget(s)) && s.username == "" && s.passwordFieldName != ""
    requires !TokenValid(s, body) && Locked(s, now)
    ensures Authenticate(s, body, now, pamAccepts) ==
              Transition(s.(loginDisabledUntil := now + LockoutMillis), AuthError)
  {
  }

  /** Outside a lockout, a missing or mismatched token is an authentication error that counts. */
  lemma BadTokenCounted(s: Session, body: Body, now: nat, pamAccepts: bool)
    requires SafeReturnTo(ReturnTarget(s)) && s.username == "" && s.passwordFieldName != ""
    requires !TokenValid(s, body) && !Locked(s, now)
    ensures Authenticate(s, body, now, pamAccepts).outcome == AuthError
    ensures Authenticate(s, body, now, pamAccepts).session.loginFailureCount
              == (if s.loginFailureCount + 1 > MaxFailures then 0 else s.loginFailureCount + 1)
  {
  }

  /** An unset return target means `/`, which is accepted; a protocol-relative `//host` is not. */
  lemma ReturnTargetDefault(s: Session, host: string)
    ensures s.loginReturnTo == "" ==> ReturnTarget(s) == "/" && SafeReturnTo(ReturnTarget(s))
    ensures !SafeReturnTo("//" + host)
  {
    assert ("//" + host)[1] == '/';
  }

  /** While locked, a request with a valid token is refused whatever its answer and password. */
  lemma LockedRefusesEvenCorrect(s: Session, body: Body, now: nat, pamAccepts: bool)
    requires SafeReturnTo(ReturnTarget(s)) && s.username == "" && s.passwordFieldName != ""
    requires TokenValid(s, body) && Locked(s, now)
    ensures Authenticate(s, body, now, pamAccepts) ==
              Transition(s.(loginDisabledUntil := now + LockoutMillis), TooManyFailures)
  {
  }

  /** A missing password field name rejects without counting a failure. */
  lemma MissingFieldNameNotCounted(s: Session, body: Body, now: nat, pamAccepts: bool)
    requires SafeReturnTo(ReturnTarget(s)) && s.username == "" && s.passwordFieldName == ""
    ensures Authenticate(s, body, now, pamAccepts) == Transition(s, AuthError)
  {
  }

  /**
    Three rejected answers lock the session; a fourth, correct attempt inside the
    window is refused as too many failures and pushes the lockout further out.
  */
  lemma FourthAttemptLockedOut(s: Session, b1: Body, b2: Body, b3: Body, b4: Body,
                               t1: nat, t2: nat, t3: nat, t4: nat)
    requires SafeReturnTo(ReturnTarget(s)) && s.username == "" && s.passwordFieldName != ""
    requires s.loginFailureCount == 0 && s.loginDisabledUntil <= t1
    requires t1 <= t2 <= t3 < t4 < t3 + LockoutMillis
    requires forall b :: b in [b1, b2, b3, b4] ==> TokenValid(s, b)
    requires !AnswerValid(s, b1) && !AnswerValid(s, b2) && !AnswerValid(s, b3)
    ensures var a1 := Authenticate(s, b1, t1, true);
            var a2 := Authenticate(a1.session, b2, t2, true);
            var a3 := Authenticate(a2.session, b3, t3, true);
            var a4 := Authenticate(a3.session, b4, t4, true);
            && a1.outcome == AuthError && a2.outcome == AuthError && a3.outcome == AuthError
            && a4.outcome == TooManyFailures
            && a3.session.loginDisabledUntil == t3 + LockoutMillis
            && a4.session.loginDisabledUntil > a3.session.loginDisabledUntil
  {
    assert b1 in [b1, b2, b3, b4] && b2 in [b1, b2, b3, b4];
    assert b3 in [b1, b2, b3, b4] && b4 in [b1, b2, b3, b4];
    var a1 := Authenticate(s, b1, t1, true);
    assert a1.session == s.(loginFailureCount := 1);
    var a2 := Authenticate(a1.session, b2, t2, true);
    assert a2.session == s.(loginFailureCount := 2);
    var a3 := Authenticate(a2.session, b3, t3, true);
    assert a3.session == s.(loginFailureCount := 0, loginDisabledUntil := t3 + LockoutMillis);
  }

  /** The form a browser posts for the issued challenge (the decoy `password` left empty). */
  function LoginForm(user: string, token: string, fieldId: string, password: string, answer: string): Body {
    map["username" := user, "token" := token, "quizFactorizationAnswer" := answer,
        "password-" + fieldId := password]
  }

  lemma LoginFormFields(user: string, token: string, fieldId: string, password: string, answer: string)
    ensures var body := LoginForm(user, token, fieldId, password, answer);
            && Field(body, "username") == user && Field(body, "token") == token
            && Field(body, "quizFactorizationAnswer") == answer && Field(body, "password") == ""
  {
    var key := "password-" + fieldId;
    assert key[0] == 'p' && key[8] == '-';
    assert key != "username" && key != "token" && key != "quizFactorizationAnswer";
    assert key != "password" by {
      assert |key| > |"password"|;
    }
  }

  /**
    A full login: a challenge issued for `p` and `q`, answered with the factors in
    either order, the password under the issued field and an empty decoy.
  */
  lemma ChallengeThenLogin(s: Session, token: string, p: string, q: string, fieldId: string,
                           user: string, password: string, now: nat, swap: bool)
    requires s.username == "" && SafeReturnTo(ReturnTarget(s)) && !Locked(s, now)
    requires token != "" && p != "" && q != "" && Free(p, IsComma) && Free(q, IsComma)
    ensures var c := IssueChallenge(s, token, p, q, fieldId);
            var body := LoginForm(user, token, fieldId, password, if swap then q + "," + p else p + "," + q);
            Authenticate(c, body, now, true) == Transition(Fresh.(username := user), LoggedIn(ReturnTarget(s)))
  {
    var answer := if swap then q + "," + p else p + "," + q;
    FactorsInEitherOrder(p, q);
    assert FactorsMatch(p, q, answer);
    var c := IssueChallenge(s, token, p, q, fieldId);
    var body := LoginForm(user, token, fieldId, password, answer);
    LoginFormFields(user, token, fieldId, password, answer);
    assert ReturnTarget(c) == ReturnTarget(s) && !Locked(c, now) && c.passwordFieldName != "";
    assert TokenValid(c, body);
    assert AnswerValid(c, body);
    LoginSucceeds(c, body, now);
  }

  /** Every check passing, the session is replaced by one logged in as the submitted user. */
  lemma LoginSucceeds(s: Session, body: Body, now: nat)
    requires SafeReturnTo(ReturnTarget(s)) && s.username == "" && s.passwordFieldName != ""
    requires TokenValid(s, body) && !Locked(s, now) && AnswerValid(s, body)
    ensures Authenticate(s, body, now, true) ==
              Transition(Fresh.(username := Field(body, "username")), LoggedIn(ReturnTarget(s)))
  {
  }

  // ---------------------------------------------------------------------------
  // POST /create-list

  /** The user every list created through the portal includes (`ALL_LISTS_USER`, by default). */
  const DefaultAllListsUser := "root"

  /** `process.env.ALL_LISTS_USER || 'root'`: an unset or empty variable gives the default. */
  function AllListsUser(env: string): (u: string)
    ensures u != ""
    ensures env != "" ==> u == env
    ensures env == "" ==> u == "root"
  {
    if env == "" then DefaultAllListsUser else env
  }

  datatype ListError = InvalidUsersCount   // 400 'invalid-users-count'

  /** `usersStr.split(',').map(trim).filter(u => u != '')`. */
  function ListUsers(usersStr: string): (r: seq<string>)
    ensures forall i :: 0 <= i < |r| ==> r[i] != "" && Free(r[i], IsComma)
    ensures forall i :: 0 <= i < |r| ==> Trimmed(r[i])
  {
    var parts := Split(usersStr, IsComma);
    var trimmed := seq(|parts|, i requires 0 <= i < |parts| => Trim(parts[i]));
    assert forall i :: 0 <= i < |trimmed| ==> Free(trimmed[i], IsComma) by {
      forall i | 0 <= i < |trimmed| ensures Free(trimmed[i], IsComma) {
        TrimKeepsFree(parts[i], IsComma);
      }
    }
    var r := NonEmpty(trimmed);
    assert forall i :: 0 <= i < |trimmed| ==> Trimmed(trimmed[i]) by {
      forall i | 0 <= i < |trimmed| ensures Trimmed(trimmed[i]) {
        TrimEnds(parts[i]);
      }
    }
    assert forall i :: 0 <= i < |r| ==> Free(r[i], IsComma) && Trimmed(r[i]) by {
      forall i | 0 <= i < |r| ensures Free(r[i], IsComma) && Trimmed(r[i]) {
        assert r[i] in trimmed;
      }
    }
    r
  }

  /**
    Joining trimmed, comma-free names with commas, with any whitespace padding around
    each, and splitting the result again gives back exactly those names, in order.
  */
  lemma ListUsersOfPadded(ws: seq<string>, padded: seq<string>)
    requires |padded| == |ws| >= 1
    requires forall i :: 0 <= i < |ws| ==> ws[i] != "" && Free(padded[i], IsComma) && Trim(padded[i]) == ws[i]
    ensures ListUsers(Join(padded, ",")) == ws
  {
    SplitJoin(padded, ',', IsComma);
    var parts := Split(Join(padded, ","), IsComma);
    var trimmed := seq(|parts|, i requires 0 <= i < |parts| => Trim(parts[i]));
    assert trimmed == ws;
    NonEmptyKeeps(ws);
  }

  /** The plain case of the round trip: the names joined with bare commas. */
  lemma ListUsersOfJoin(ws: seq<string>)
    requires |ws| >= 1
    requires forall i :: 0 <= i < |ws| ==> ws[i] != "" && Free(ws[i], IsComma)
    requires forall i :: 0 <= i < |ws| ==> Trimmed(ws[i])
    ensures ListUsers(Join(ws, ",")) == ws
  {
    forall i | 0 <= i < |ws| ensures Trim(ws[i]) == ws[i] {
      TrimFixed(ws[i]);
    }
    ListUsersOfPadded(ws, ws);
  }

  /** Trimming only removes characters from the ends. */
  lemma TrimKeepsFree(s: string, isSep: char -> bool)
    requires Free(s, isSep)
    ensures Free(Trim(s), isSep)
  {
    var e := TrimEnd(s);
    forall i | 0 <= i < |e| ensures !isSep(e[i]) { assert e[i] == s[i]; }
    var t := TrimStart(e);
    forall i | 0 <= i < |t| ensures !isSep(t[i]) { assert t[i] == e[|e| - |t| + i]; }
  }

  /**
    The member list of a new mailing list: the listed users, plus `allListsUser` at
    the end when it is not already listed; fewer than two is refused.
  */
  function NormalizeListMembers(usersStr: string, allListsUser: string): (r: Result<seq<string>, ListError>)
    ensures var users := ListUsers(usersStr);
            r.Err? <==> users == [] || users == [allListsUser]
    ensures r.Ok? ==> allListsUser in r.value && |r.value| >= 2
    ensures r.Ok? ==> forall u :: u in r.value <==> u in ListUsers(usersStr) || u == allListsUser
    ensures r.Ok? ==> |ListUsers(usersStr)| <= |r.value| <= |ListUsers(usersStr)| + 1
    ensures r.Ok? ==> r.value[..|ListUsers(usersStr)|] == ListUsers(usersStr)
    ensures r.Ok? && allListsUser in ListUsers(usersStr) ==> |r.value| == |ListUsers(usersStr)|
    ensures r.Ok? && allListsUser !in ListUsers(usersStr) ==> |r.value| == |ListUsers(usersStr)| + 1
  {
    var users := ListUsers(usersStr);
    var all := if allListsUser in users then users else users + [allListsUser];
    AddIfMissing(users, allListsUser);
    if |all| < 2 then Err(InvalidUsersCount) else Ok(all)
  }

  /** `if (!users.includes(u)) users.push(u)`. */
  lemma AddIfMissing(users: seq<string>, u: string)
    ensures var all := if u in users then users else users + [u];
            && u in all
            && (forall x :: x in all <==> x in users || x == u)
            && all[..|users|] == users
            && (u in users ==> |all| == |users|)
            && (u !in users ==> |all| == |users| + 1)
            && (|all| < 2 <==> users == [] || users == [u])
  {
    var all := if u in users then users else users + [u];
    assert all[..|users|] == users;
    if |users| == 1 && u in users {
      assert users == [u];
    }
  }

  /** An accepted member list always makes a new mailing list unless the name is taken. */
  lemma NormalizedListCreates(s: Aliases.Store, listName: string, usersStr: string, allListsUser: string)
    requires NormalizeListMembers(usersStr, allListsUser).Ok?
    requires !Aliases.AliasExists(s, listName)
    ensures Aliases.CreateMailingList(s, listName, NormalizeListMembers(usersStr, allListsUser).value).Ok?
  {
  }
}
