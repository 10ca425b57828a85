/**
 * What each request answers and leaves behind, told from the tables alone (web/auth_http.go, web/csrf.go,
 * auth/manager.go): which requests are held back, who is signed in, and which password is stored.
 */
module AuthOutcomes {
  import opened GoStrings
  import opened Numerals
  import opened Options
  import opened AuthModel
  import opened AuthRuns
  import opened AuthSafety

  // ---------------------------------------------------------------- what can be seen of a request

  /** The row of the session a request presents, empty when it presents none. */
  function Presented(world: World, request: Request): Data {
    if request.presented.Some? && request.presented.value in world.rows then world.rows[request.presented.value]
    else map[]
  }

  /** The row is signed in as this user: its id next to the MAC of its current password. */
  predicate SignedInto(config: Config, row: Data, user: User) {
    && USER_ID_KEY in row && row[USER_ID_KEY] == UserRef(user.id)
    && AUTH_HASH_KEY in row && row[AUTH_HASH_KEY] == PasswordMac(config.sessionSecret, user.encoding)
  }

  /** The key of the browser's session after the response. */
  function KeyAfter(config: Config, world: World, request: Request): Option<Nonce> {
    match CommitCookie(ResultOf(config, world, request).live, request.draws.minted)
    case Keep =>
      if request.presented.Some? && request.presented.value in world.rows then request.presented else None
    case Set(key) => Some(key)
    case Clear => None
  }

  /** The row of that session, empty when there is none. */
  function RowAfter(config: Config, world: World, request: Request): Data {
    var key, next := KeyAfter(config, world, request), Next(config, world, Step.Serve(request));
    if key.Some? && key.value in next.rows then next.rows[key.value] else map[]
  }

  function OutcomeOf(config: Config, world: World, request: Request): Outcome {
    ResultOf(config, world, request).outcome
  }

  function UsersAfter(config: Config, world: World, request: Request): Accounts {
    Next(config, world, Step.Serve(request)).accounts
  }

  /** Both name nobody, or the same user with the same MAC. */
  predicate SameIdentity(a: Data, b: Data) {
    && (USER_ID_KEY in a <==> USER_ID_KEY in b) && (USER_ID_KEY in a ==> a[USER_ID_KEY] == b[USER_ID_KEY])
    && (AUTH_HASH_KEY in a <==> AUTH_HASH_KEY in b) && (AUTH_HASH_KEY in a ==> a[AUTH_HASH_KEY] == b[AUTH_HASH_KEY])
  }

  predicate Anonymous(row: Data) {
    USER_ID_KEY !in row && AUTH_HASH_KEY !in row
  }

  /** The rows agree on everything but the framework's own keys. */
  ghost predicate SameOwnData(a: Data, b: Data) {
    forall key :: key != USER_ID_KEY && key != AUTH_HASH_KEY && key != CSRF_KEY ==>
      (key in a <==> key in b) && (key in a ==> a[key] == b[key])
  }

  // ---------------------------------------------------------------- the CSRF gate

  /** The secret a request is held against: the stored one, else the one drawn for it. */
  function SecretInForce(config: Config, world: World, request: Request): Nonce {
    if config.useSessions then
      var row := Presented(world, request);
      if CSRF_KEY in row && row[CSRF_KEY].CsrfSecret? then row[CSRF_KEY].csrf else request.draws.secret
    else if request.csrfCookie.Some? then request.csrfCookie.value
    else request.draws.secret
  }

  /** A request that may change something, from elsewhere or without the token of the secret in force. */
  predicate HeldBack(config: Config, world: World, request: Request) {
    && (request.action.SignIn? || request.action.SignOut? || request.action.ChangePassword?
        || request.action.ConfirmReset? || !request.action.safe)
    && (!request.sameOrigin || request.token != Some(SecretInForce(config, world, request)))
  }

  lemma EnteredSecret(config: Config, world: World, request: Request)
    ensures Entered(config, world.rows, request).csrf.value.secret == SecretInForce(config, world, request)
  {
  }

  lemma GateMeans(config: Config, world: World, request: Request)
    ensures PassesCsrf(Entered(config, world.rows, request), request) <==> !HeldBack(config, world, request)
  {
    EnteredSecret(config, world, request);
    hide Entered, SecretInForce;
  }

  /** What serving an admitted request comes to. */
  lemma AdmittedResult(config: Config, world: World, request: Request)
    requires !HeldBack(config, world, request)
    ensures var live := Entered(config, world.rows, request);
            ResultOf(config, world, request) ==
            Handle(config, AfterAuthentication(live, world.accounts, config.sessionSecret), world.accounts,
                   Attached(live, world.accounts, config.sessionSecret), request.action, request.draws)
  {
    GateMeans(config, world, request);
    hide Entered, PassesCsrf, HeldBack, Handle, Attached, AfterAuthentication;
  }

  /** The middleware answers 403 exactly to the requests it has to hold back. */
  lemma ForbiddenExactly(config: Config, world: World, request: Request)
    ensures OutcomeOf(config, world, request) == Forbidden <==> HeldBack(config, world, request)
  {
    GateMeans(config, world, request);
    if !HeldBack(config, world, request) {
      AdmittedResult(config, world, request);
    }
    hide Entered, PassesCsrf, HeldBack, Attached, AfterAuthentication, Login, Authenticate, NonBlank;
    hide ValidNewPasswords, CheckReset;
  }

  lemma SameParts(a: Data, b: Data)
    ensures AuthPart(a) == AuthPart(b) <==> SameIdentity(a, b)
    ensures AuthPart(a) == (None, None) <==> Anonymous(a)
    ensures OwnData(a) == OwnData(b) <==> SameOwnData(a, b)
  {
    if OwnData(a) == OwnData(b) {
      forall key | key != USER_ID_KEY && key != AUTH_HASH_KEY && key != CSRF_KEY
        ensures (key in a <==> key in b) && (key in a ==> a[key] == b[key])
      {
        assert key in OwnData(a) <==> key in OwnData(b);
      }
    }
  }

  /** The row that a request leaves its browser with is what its session then held. */
  lemma RowAfterIs(config: Config, world: World, request: Request)
    requires Good(world) && Enabled(world, Step.Serve(request))
    requires ResultOf(config, world, request).live.status != Unmodified
    ensures var live := ResultOf(config, world, request).live;
            RowAfter(config, world, request) == if live.status == Modified then live.values else map[]
  {
    hide ResultOf;
  }

  /** A request that is held back leaves accounts, identity, key and data as they were. */
  lemma ForbiddenChangesNothing(config: Config, world: World, request: Request)
    requires Good(world) && Enabled(world, Step.Serve(request)) && HeldBack(config, world, request)
    ensures UsersAfter(config, world, request) == world.accounts
    ensures SameIdentity(RowAfter(config, world, request), Presented(world, request))
    ensures SameOwnData(RowAfter(config, world, request), Presented(world, request))
    ensures request.presented.Some? && request.presented.value in world.rows ==>
              KeyAfter(config, world, request) == request.presented
  {
    GateMeans(config, world, request);
    hide HeldBack, PassesCsrf;
    var live := Entered(config, world.rows, request);
    var loaded := Begin(world.rows, request.presented);
    assert ResultOf(config, world, request) == Result(live, world.accounts, Forbidden);
    SecretKeepsIdentity(loaded.(csrf := live.csrf), live.csrf.value.secret);
    SecretKeepsOwnData(loaded.(csrf := live.csrf), live.csrf.value.secret);
    SameParts(RowAfter(config, world, request), Presented(world, request));
    assert live.status == Modified || live.values == loaded.values;
    hide AuthPart, OwnData, SameIdentity, SameOwnData;
  }

  /**
   * No request touches another session's row: a row afterwards was there before or belongs to the browser's
   * session, and a row that is gone was the presented one.
   */
  lemma OtherRowsUntouched(config: Config, world: World, request: Request)
    requires Good(world) && Enabled(world, Step.Serve(request))
    ensures var next := Next(config, world, Step.Serve(request));
            && (forall key :: key in next.rows ==>
                  KeyAfter(config, world, request) == Some(key) ||
                  (key in world.rows && next.rows[key] == world.rows[key]))
            && (forall key :: key in world.rows && key !in next.rows ==> request.presented == Some(key))
  {
    hide ResultOf, EffectOf, Begin;
    Footprint(config, world, request);
    LoadedKey(world, request.presented);
  }

  // ---------------------------------------------------------------- signing in and out

  /** The user of this name, when there is one. */
  predicate IsNamed(world: World, id: Nonce, username: string) {
    id in world.accounts.users && world.accounts.users[id].username == username
  }

  /** The credentials are those of this active user. */
  predicate MaySignIn(world: World, id: Nonce, username: string, password: string) {
    && IsNamed(world, id, username) && world.accounts.users[id].active
    && CheckPassword(password, world.accounts.users[id].encoding) == Checked(true)
  }

  /** Looking up by name and checking, told over the table of users. */
  lemma AuthenticateMeans(world: World, username: string, password: string)
    requires Good(world)
    ensures var matching := Authenticate(world.accounts, username, password);
            && (forall id :: MaySignIn(world, id, username, password) <==>
                  matching.Matched? && matching.user.id == id && id in world.accounts.users)
            && (matching.Matched? ==> matching.user.id in world.accounts.users &&
                                      world.accounts.users[matching.user.id] == matching.user)
            && (matching.MatchFailed? <==>
                  exists id :: IsNamed(world, id, username) &&
                               CheckPassword(password, world.accounts.users[id].encoding) == CheckFailed)
  {
    hide CheckPassword, GoodRow;
    if username in world.accounts.names {
      assert IsNamed(world, world.accounts.names[username], username);
    }
    forall id | IsNamed(world, id, username)
      ensures username in world.accounts.names && world.accounts.names[username] == id
    {
    }
  }

  lemma SignedInIsSaved(config: Config, world: World, request: Request, id: Nonce)
    requires Good(world) && Enabled(world, Step.Serve(request)) && SignsIn(config, world, request, id)
    ensures ResultOf(config, world, request).live.status == Modified
  {
    SignInIsLogin(config, world, request, id);
    hide Good, SignsIn, ResultOf, EffectOf, Entered, AfterAuthentication, Login;
    var after := AfterAuthentication(Entered(config, world.rows, request), world.accounts, config.sessionSecret);
    LoginData(after, world.accounts.users[id], config.sessionSecret, request.draws.key, request.draws.rotated);
  }

  /** A sign-in handler on accepted credentials leaves a session that names the user. */
  lemma SignedInSession(config: Config, world: World, request: Request, id: Nonce)
    requires Good(world) && Enabled(world, Step.Serve(request)) && SignsIn(config, world, request, id)
    ensures id in UsersAfter(config, world, request).users
    ensures SignedInto(config, ResultOf(config, world, request).live.values,
                       UsersAfter(config, world, request).users[id])
  {
    GoodNext(config, world, Step.Serve(request));
    hide ResultOf, EffectOf, GoodRow, Seen;
    Footprint(config, world, request);
  }

  lemma SignedInRow(config: Config, world: World, request: Request, id: Nonce)
    requires Good(world) && Enabled(world, Step.Serve(request)) && SignsIn(config, world, request, id)
    ensures id in UsersAfter(config, world, request).users
    ensures SignedInto(config, RowAfter(config, world, request), UsersAfter(config, world, request).users[id])
    ensures KeyAfter(config, world, request).Some?
  {
    SignedInSession(config, world, request, id);
    SignedInIsSaved(config, world, request, id);
    hide ResultOf, SignedInto, Good, RowAfter;
    RowAfterIs(config, world, request);
  }

  lemma EmptyIsAnonymous()
    ensures Anonymous(map[]) && AuthPart(map[]) == (None, None)
  {
  }

  /** A request that signs nobody in leaves the identity as it was, or none. */
  lemma NobodySignedIn(config: Config, world: World, request: Request)
    requires Good(world) && Enabled(world, Step.Serve(request)) && !EffectOf(config, world, request).SignedIn?
    ensures SameIdentity(RowAfter(config, world, request), Presented(world, request)) ||
            Anonymous(RowAfter(config, world, request))
  {
    hide ResultOf, EffectOf, Begin;
    Footprint(config, world, request);
    LoadedKey(world, request.presented);
    SameParts(RowAfter(config, world, request), Presented(world, request));
    hide AuthPart, SameIdentity, Anonymous;
    var live := ResultOf(config, world, request).live;
    if live.status != Unmodified {
      hide RowAfter;
      RowAfterIs(config, world, request);
      EmptyIsAnonymous();
    }
  }

  lemma SignInOutcome(config: Config, world: World, request: Request, username: string, password: string)
    requires !HeldBack(config, world, request) && request.action == SignIn(username, password)
    ensures var matching := Authenticate(world.accounts, username, password);
            var filled := TrimSpace(username) != "" && TrimSpace(password) != "";
            && UsersAfter(config, world, request) == world.accounts
            && OutcomeOf(config, world, request) ==
               (if filled && matching.Matched? then Redirected
                else if filled && matching.MatchFailed? then Unavailable else Invalid)
            && EffectOf(config, world, request).SignedIn? == (filled && matching.Matched?)
            && (filled && matching.Matched? ==> SignsIn(config, world, request, matching.user.id))
  {
    AdmittedResult(config, world, request);
    GateMeans(config, world, request);
    hide HeldBack, PassesCsrf, Entered, Attached, AfterAuthentication, Login, Authenticate, TrimSpace;
  }

  /**
   * A sign-in is accepted exactly when both fields are filled in and an active user of that name has that
   * password; then the browser's session is signed in as that user. Otherwise nobody is signed in.
   */
  lemma SignInExactly(config: Config, world: World, request: Request, username: string, password: string)
    requires Good(world) && Enabled(world, Step.Serve(request)) && !HeldBack(config, world, request)
    requires request.action == SignIn(username, password)
    ensures OutcomeOf(config, world, request) == Redirected <==>
            TrimSpace(username) != "" && TrimSpace(password) != "" &&
            exists id :: MaySignIn(world, id, username, password)
    ensures OutcomeOf(config, world, request) == Unavailable <==>
            TrimSpace(username) != "" && TrimSpace(password) != "" &&
            exists id :: IsNamed(world, id, username) &&
                         CheckPassword(password, world.accounts.users[id].encoding) == CheckFailed
    ensures OutcomeOf(config, world, request) in {Redirected, Invalid, Unavailable}
    ensures UsersAfter(config, world, request) == world.accounts
    ensures OutcomeOf(config, world, request) == Redirected ==>
              forall id :: MaySignIn(world, id, username, password) ==>
                SignedInto(config, RowAfter(config, world, request), world.accounts.users[id])
    ensures OutcomeOf(config, world, request) != Redirected ==>
              SameIdentity(RowAfter(config, world, request), Presented(world, request)) ||
              Anonymous(RowAfter(config, world, request))
  {
    AuthenticateMeans(world, username, password);
    SignInOutcome(config, world, request, username, password);
    hide HeldBack, Authenticate, MaySignIn, Good, GoodRow, ResultOf, EffectOf, RowAfter, SignedInto, SameIdentity;
    if OutcomeOf(config, world, request) == Redirected {
      SignedInRow(config, world, request, Authenticate(world.accounts, username, password).user.id);
    } else {
      NobodySignedIn(config, world, request);
    }
  }

  lemma SignInAsOutcome(config: Config, world: World, request: Request, id: Nonce)
    requires !HeldBack(config, world, request) && request.action.SignInAs? && request.action.id == id
    ensures OutcomeOf(config, world, request) == if id in world.accounts.users then Served else Unavailable
    ensures UsersAfter(config, world, request) == world.accounts
    ensures if id in world.accounts.users then SignsIn(config, world, request, id)
            else !EffectOf(config, world, request).SignedIn?
  {
    AdmittedResult(config, world, request);
    GateMeans(config, world, request);
    hide HeldBack, PassesCsrf, Entered, Attached, AfterAuthentication, Login;
  }

  /** An application's own decision signs in every user it can look up, and nobody else. */
  lemma SignInAsExactly(config: Config, world: World, request: Request, id: Nonce)
    requires Good(world) && Enabled(world, Step.Serve(request)) && !HeldBack(config, world, request)
    requires request.action.SignInAs? && request.action.id == id
    ensures OutcomeOf(config, world, request) == if id in world.accounts.users then Served else Unavailable
    ensures UsersAfter(config, world, request) == world.accounts
    ensures if id in world.accounts.users
            then SignedInto(config, RowAfter(config, world, request), world.accounts.users[id])
            else SameIdentity(RowAfter(config, world, request), Presented(world, request)) ||
                 Anonymous(RowAfter(config, world, request))
  {
    SignInAsOutcome(config, world, request, id);
    hide HeldBack, ResultOf, EffectOf, RowAfter, SignedInto, SameIdentity;
    if id in world.accounts.users {
      SignedInRow(config, world, request, id);
    } else {
      NobodySignedIn(config, world, request);
    }
  }

  /** Logging out drops the presented row, adds none, and takes the cookie away. */
  lemma SignOutExactly(config: Config, world: World, request: Request)
    requires Good(world) && Enabled(world, Step.Serve(request)) && !HeldBack(config, world, request)
    requires request.action.SignOut?
    ensures OutcomeOf(config, world, request) == Redirected
    ensures UsersAfter(config, world, request) == world.accounts
    ensures KeyAfter(config, world, request) == None
    ensures Next(config, world, Step.Serve(request)).rows ==
            if request.presented.Some? then world.rows - {request.presented.value} else world.rows
  {
    AdmittedResult(config, world, request);
    var live := Entered(config, world.rows, request);
    var loaded := Begin(world.rows, request.presented);
    SecretKeepsIdentity(loaded.(csrf := live.csrf), live.csrf.value.secret);
    LoadedKey(world, request.presented);
    assert live.rows == world.rows && live.token == loaded.token;
    FlushedOrKept(live, world.accounts, config.sessionSecret);
    hide HeldBack, Entered, Begin, Attached, AfterAuthentication;
  }

  // ---------------------------------------------------------------- storing passwords

  /** What the forms ask of a new password. */
  predicate NewPasswordFits(first: string, second: string) {
    TrimSpace(first) != "" && TrimSpace(second) != "" && |first| >= 8 && first == second
  }

  /** One user's encoding now verifies exactly this password, and nothing else in the table changed. */
  ghost predicate OnlyPasswordReplaced(before: Accounts, after: Accounts, id: Nonce, password: string) {
    && after.names == before.names && after.users.Keys == before.users.Keys
    && (forall other :: other in before.users && other != id ==> after.users[other] == before.users[other])
    && id in before.users
    && after.users[id] == before.users[id].(encoding := after.users[id].encoding)
    && forall p :: CheckPassword(p, after.users[id].encoding) == Checked(p == password)
  }

  lemma UpdateMeans(before: Accounts, id: Nonce, password: string, salt: Nonce)
    requires id in before.users
    ensures OnlyPasswordReplaced(before, UpdatePassword(before, id, Encode(Some(password), salt)), id, password)
  {
  }

  /** The presented session is signed in as this active user. */
  predicate PresentsUser(config: Config, world: World, request: Request, id: Nonce) {
    && id in world.accounts.users && world.accounts.users[id].active
    && request.presented.Some? && request.presented.value in world.rows
    && SignedInto(config, Presented(world, request), world.accounts.users[id])
  }

  lemma AttachedMeans(config: Config, world: World, request: Request, user: User)
    requires Good(world)
    ensures Attached(Entered(config, world.rows, request), world.accounts, config.sessionSecret) == Some(user)
       <==> PresentsUser(config, world, request, user.id) && world.accounts.users[user.id] == user
  {
    AttachedExactly(config, world, request, user);
    hide Attached, Entered, GoodRow, GoodAccounts;
  }

  /** The conditions under which a password change goes through. */
  predicate MayChange(config: Config, world: World, request: Request, id: Nonce, oldPassword: string,
                      first: string, second: string) {
    && PresentsUser(config, world, request, id)
    && TrimSpace(oldPassword) != "" && NewPasswordFits(first, second)
    && CheckPassword(oldPassword, world.accounts.users[id].encoding) == Checked(true)
  }

  /** At most one user is presented, and that one is attached. */
  lemma PresentedIsAttached(config: Config, world: World, request: Request)
    requires Good(world)
    ensures var attached := Attached(Entered(config, world.rows, request), world.accounts, config.sessionSecret);
            && (forall id :: PresentsUser(config, world, request, id) <==> attached.Some? && attached.value.id == id)
            && (attached.Some? ==> attached.value.id in world.accounts.users &&
                                   world.accounts.users[attached.value.id] == attached.value)
  {
    var attached := Attached(Entered(config, world.rows, request), world.accounts, config.sessionSecret);
    forall id | PresentsUser(config, world, request, id) ensures attached.Some? && attached.value.id == id {
      assert world.accounts.users[id].id == id;
      AttachedMeans(config, world, request, world.accounts.users[id]);
    }
    if attached.Some? {
      AttachedMeans(config, world, request, attached.value);
    }
  }

  /** Checking the old password by name checks the presented user's own. */
  lemma OwnPasswordChecks(config: Config, world: World, request: Request, id: Nonce, password: string)
    requires Good(world) && PresentsUser(config, world, request, id)
    ensures id in world.accounts.users
    ensures Authenticate(world.accounts, world.accounts.users[id].username, password).Matched? <==>
            CheckPassword(password, world.accounts.users[id].encoding) == Checked(true)
  {
    var username := world.accounts.users[id].username;
    assert username in world.accounts.names && world.accounts.names[username] == id;
    hide CheckPassword, GoodRow, SignedInto;
  }

  lemma UnattachedChange(config: Config, world: World, request: Request)
    requires !HeldBack(config, world, request) && request.action.ChangePassword?
    requires Attached(Entered(config, world.rows, request), world.accounts, config.sessionSecret).None?
    ensures OutcomeOf(config, world, request) == Unauthorized
    ensures UsersAfter(config, world, request) == world.accounts
  {
    AdmittedResult(config, world, request);
    hide Attached, Entered, HeldBack, AfterAuthentication;
  }

  lemma ChangeOutcome(config: Config, world: World, request: Request, oldPassword: string, first: string,
                      second: string)
    requires Good(world) && !HeldBack(config, world, request)
    requires request.action == ChangePassword(oldPassword, first, second)
    requires Attached(Entered(config, world.rows, request), world.accounts, config.sessionSecret).Some?
    ensures var user := Attached(Entered(config, world.rows, request), world.accounts, config.sessionSecret).value;
            var matching := Authenticate(world.accounts, user.username, oldPassword);
            var ok := TrimSpace(oldPassword) != "" && NewPasswordFits(first, second) && matching.Matched?;
            && OutcomeOf(config, world, request) in {Redirected, Invalid, Unavailable}
            && (OutcomeOf(config, world, request) == Redirected <==> ok)
            && (ok ==> ChangesOwnPassword(config, world, request, user.id))
            && (ok ==> OnlyPasswordReplaced(world.accounts, UsersAfter(config, world, request), user.id, first))
            && (!ok ==> UsersAfter(config, world, request) == world.accounts)
  {
    AdmittedResult(config, world, request);
    GateMeans(config, world, request);
    var live := Entered(config, world.rows, request);
    AttachedLeavesSession(live, world.accounts, config.sessionSecret);
    var user := Attached(live, world.accounts, config.sessionSecret).value;
    assert user.id in world.accounts.users;
    UpdateMeans(world.accounts, user.id, first, request.draws.salt);
    hide HeldBack, PassesCsrf, Entered, Attached, AfterAuthentication, Login, Cycle, Authenticate, TrimSpace;
    hide OnlyPasswordReplaced, UpdatePassword, Encode, Good;
  }

  lemma ChangedRow(config: Config, world: World, request: Request, id: Nonce)
    requires Good(world) && Enabled(world, Step.Serve(request)) && ChangesOwnPassword(config, world, request, id)
    ensures id in UsersAfter(config, world, request).users
    ensures SignedInto(config, RowAfter(config, world, request), UsersAfter(config, world, request).users[id])
  {
    ChangedOwnPassword(config, world, request);
    Footprint(config, world, request);
    GoodNext(config, world, Step.Serve(request));
    hide ResultOf, EffectOf, RowAfter;
    RowAfterIs(config, world, request);
  }

  /**
   * A password change goes through exactly when the presented session is signed in as an active user, the
   * old password is that user's and the new ones fit. The user then has the new password, nothing else in
   * the accounts changed, and the browser's session is signed in as the user. Otherwise no account changes.
   */
  lemma ChangePasswordExactly(config: Config, world: World, request: Request, id: Nonce, oldPassword: string,
                              first: string, second: string)
    requires Good(world) && Enabled(world, Step.Serve(request)) && !HeldBack(config, world, request)
    requires request.action == ChangePassword(oldPassword, first, second)
    ensures OutcomeOf(config, world, request) == Redirected <==>
            exists user :: MayChange(config, world, request, user, oldPassword, first, second)
    ensures OutcomeOf(config, world, request) == Unauthorized <==>
            forall user :: !PresentsUser(config, world, request, user)
    ensures MayChange(config, world, request, id, oldPassword, first, second) ==>
              && OnlyPasswordReplaced(world.accounts, UsersAfter(config, world, request), id, first)
              && SignedInto(config, RowAfter(config, world, request), UsersAfter(config, world, request).users[id])
    ensures OutcomeOf(config, world, request) != Redirected ==> UsersAfter(config, world, request) == world.accounts
  {
    var attached := Attached(Entered(config, world.rows, request), world.accounts, config.sessionSecret);
    PresentedIsAttached(config, world, request);
    hide Attached, Entered, PresentsUser, HeldBack, NewPasswordFits, OnlyPasswordReplaced, CheckPassword, RowAfter;
    hide ResultOf, EffectOf, Authenticate, Good, SignedInto;
    if attached.Some? {
      var user := attached.value;
      OwnPasswordChecks(config, world, request, user.id, oldPassword);
      ChangeOutcome(config, world, request, oldPassword, first, second);
      assert MayChange(config, world, request, user.id, oldPassword, first, second) <==>
             OutcomeOf(config, world, request) == Redirected;
      if OutcomeOf(config, world, request) == Redirected {
        ChangedRow(config, world, request, user.id);
      }
    } else {
      UnattachedChange(config, world, request);
    }
  }

  /** The token names this user's present password, and has not run out. */
  ghost predicate TokenFits(config: Config, user: User, token: ResetToken, now: int) {
    && config.resetSecrets != [] && config.resetSecrets[0] != ""
    && token.timestamp <= now && Saturated(now - token.timestamp) <= config.resetTimeout
    && exists secret :: secret in config.resetSecrets &&
         token.mac == ResetMac(secret, user.id, user.encoding, user.lastLogin, token.timestamp, user.email)
  }

  lemma TokenMeans(config: Config, user: User, token: ResetToken, now: int)
    ensures CheckReset(config, user, token, now) <==> TokenFits(config, user, token, now)
  {
    if TokenFits(config, user, token, now) {
      var secret :| secret in config.resetSecrets &&
        token.mac == ResetMac(secret, user.id, user.encoding, user.lastLogin, token.timestamp, user.email);
      var i :| 0 <= i < |config.resetSecrets| && config.resetSecrets[i] == secret;
    }
  }

  /**
   * A reset is confirmed exactly when the link's user exists, the token fits and the new passwords do. The
   * user then has the new password and nothing else in the accounts changed. Nobody is signed in by it.
   */
  lemma ConfirmResetExactly(config: Config, world: World, request: Request, target: Option<Nonce>, token: ResetToken,
                            now: int, first: string, second: string)
    requires Good(world) && Enabled(world, Step.Serve(request)) && !HeldBack(config, world, request)
    requires request.action == ConfirmReset(target, token, now, first, second)
    ensures var known := target.Some? && target.value in world.accounts.users &&
                         TokenFits(config, world.accounts.users[target.value], token, now);
            && (OutcomeOf(config, world, request) == Redirected <==> known && NewPasswordFits(first, second))
            && (OutcomeOf(config, world, request) == BadRequest <==> !known)
            && if known && NewPasswordFits(first, second)
               then OnlyPasswordReplaced(world.accounts, UsersAfter(config, world, request), target.value, first)
               else UsersAfter(config, world, request) == world.accounts
    ensures SameIdentity(RowAfter(config, world, request), Presented(world, request)) ||
            Anonymous(RowAfter(config, world, request))
  {
    AdmittedResult(config, world, request);
    NobodySignedIn(config, world, request) by {
      hide Entered, PassesCsrf, AfterAuthentication, Attached;
    }
    if target.Some? && target.value in world.accounts.users {
      TokenMeans(config, world.accounts.users[target.value], token, now);
      UpdateMeans(world.accounts, target.value, first, request.draws.salt);
    }
    hide HeldBack, Entered, Attached, AfterAuthentication, CheckReset, TokenFits, TrimSpace, OnlyPasswordReplaced;
    hide UpdatePassword, Encode, RowAfter, SameIdentity, Anonymous;
  }

  /** The management command gives the named user the new password, and changes nothing else. */
  lemma SetPasswordExactly(config: Config, world: World, step: Step)
    requires Good(world) && Enabled(world, step) && step.SetPassword?
    ensures Next(config, world, step).rows == world.rows
    ensures forall id :: IsNamed(world, id, step.username) ==>
              OnlyPasswordReplaced(world.accounts, Next(config, world, step).accounts, id, step.newPassword)
    ensures (forall id :: !IsNamed(world, id, step.username)) ==> Next(config, world, step).accounts == world.accounts
  {
    var user := UserByUsername(world.accounts, step.username);
    if user.Some? {
      assert IsNamed(world, user.value.id, step.username);
      UpdateMeans(world.accounts, user.value.id, step.newPassword, step.salt);
    }
    hide OnlyPasswordReplaced, UpdatePassword, Encode, GoodRow;
  }

  /**
   * Creating a user gives it exactly the password asked for, or none that ever verifies; a blank or taken
   * name, like every other user, is left alone.
   */
  lemma CreateUserExactly(config: Config, world: World, step: Step)
    requires Good(world) && Enabled(world, step) && step.CreateUser?
    ensures var (before, after) := (world.accounts, Next(config, world, step).accounts);
            && Next(config, world, step).rows == world.rows
            && (step.username == "" || (exists id :: IsNamed(world, id, step.username)) ==> after == before)
            && (step.username != "" && (forall id :: !IsNamed(world, id, step.username)) ==>
                  && after.users.Keys == before.users.Keys + {step.id} && step.id !in before.users
                  && (forall id :: id in before.users ==> after.users[id] == before.users[id])
                  && after.users[step.id].username == step.username && after.users[step.id].email == step.email
                  && after.users[step.id].active == step.active
                  && forall p :: CheckPassword(p, after.users[step.id].encoding) == Checked(step.password == Some(p)))
  {
    if step.username in world.accounts.names {
      assert IsNamed(world, world.accounts.names[step.username], step.username);
    }
    hide GoodRow;
  }

  // ---------------------------------------------------------------- application handlers

  /** The presented session names somebody it is not signed in as. */
  ghost predicate Refused(config: Config, world: World, request: Request) {
    USER_ID_KEY in Presented(world, request) && forall id :: !PresentsUser(config, world, request, id)
  }

  /** The Authentication middleware flushes refused sessions, and leaves every other one alone. */
  lemma RefusedMeans(config: Config, world: World, request: Request)
    requires Good(world)
    ensures var live := Entered(config, world.rows, request);
            AfterAuthentication(live, world.accounts, config.sessionSecret) ==
            if Refused(config, world, request) then Flush(live) else live
  {
    var live := Entered(config, world.rows, request);
    var loaded := Begin(world.rows, request.presented);
    SecretKeepsIdentity(loaded.(csrf := live.csrf), live.csrf.value.secret);
    assert AuthPart(live.values) == AuthPart(Presented(world, request));
    if id :| PresentsUser(config, world, request, id) {
      AttachedMeans(config, world, request, world.accounts.users[id]);
      AttachedLeavesSession(live, world.accounts, config.sessionSecret);
    } else {
      hide Entered, Attached, Begin;
      if USER_ID_KEY in live.values && live.values[USER_ID_KEY].UserRef? {
        var id := live.values[USER_ID_KEY].id;
        assert !PresentsUser(config, world, request, id);
        assert GoodRow(world.used, Presented(world, request));
      }
    }
  }

  /** The session a handler finds holds what was presented, or nothing when it was refused. */
  lemma FoundSession(config: Config, world: World, request: Request)
    requires Good(world)
    ensures var live := Entered(config, world.rows, request);
            var found := AfterAuthentication(live, world.accounts, config.sessionSecret).values;
            if Refused(config, world, request) then found == map[]
            else SameIdentity(found, Presented(world, request)) && SameOwnData(found, Presented(world, request))
  {
    RefusedMeans(config, world, request);
    var live := Entered(config, world.rows, request);
    var loaded := Begin(world.rows, request.presented);
    SecretKeepsIdentity(loaded.(csrf := live.csrf), live.csrf.value.secret);
    SecretKeepsOwnData(loaded.(csrf := live.csrf), live.csrf.value.secret);
    assert AuthPart(live.values) == AuthPart(Presented(world, request));
    assert OwnData(live.values) == OwnData(Presented(world, request));
    SameParts(live.values, Presented(world, request));
    hide Entered, AfterAuthentication, Refused, OwnData, AuthPart, SameIdentity, SameOwnData, Presented;
  }

  lemma EnteredStatus(config: Config, world: World, request: Request)
    ensures var live := Entered(config, world.rows, request);
            live.status == Modified || (live.status == Unmodified && live.values == Presented(world, request) &&
                                        live.rows == world.rows)
  {
  }

  /** A handler that only looks changes no account, and no session but a refused one, which is emptied. */
  lemma ViewExactly(config: Config, world: World, request: Request)
    requires Good(world) && Enabled(world, Step.Serve(request)) && !HeldBack(config, world, request)
    requires request.action.View?
    ensures OutcomeOf(config, world, request) == Served && UsersAfter(config, world, request) == world.accounts
    ensures var row := RowAfter(config, world, request);
            if Refused(config, world, request) then row == map[]
            else SameIdentity(row, Presented(world, request)) && SameOwnData(row, Presented(world, request))
  {
    AdmittedResult(config, world, request);
    FoundSession(config, world, request);
    RefusedMeans(config, world, request);
    EnteredStatus(config, world, request);
    hide HeldBack, Entered, Attached, AfterAuthentication, Refused, SameIdentity, SameOwnData;
    if ResultOf(config, world, request).live.status != Unmodified {
      hide RowAfter;
      RowAfterIs(config, world, request);
    }
  }

  lemma PutKeepsSame(a: Data, b: Data, key: string, value: Value)
    requires key != USER_ID_KEY && key != AUTH_HASH_KEY
    ensures SameOwnData(a, b) ==> SameOwnData(a[key := value], b[key := value])
    ensures SameIdentity(a, b) ==> SameIdentity(a[key := value], b)
    ensures SameOwnData(map[], map[]) && SameIdentity(map[], map[])
  {
  }

  /** A handler that stores a value leaves it in the session it found. */
  lemma StoreExactly(config: Config, world: World, request: Request)
    requires Good(world) && Enabled(world, Step.Serve(request)) && !HeldBack(config, world, request)
    requires request.action.Store?
    ensures OutcomeOf(config, world, request) == Served && UsersAfter(config, world, request) == world.accounts
    ensures var found := if Refused(config, world, request) then map[] else Presented(world, request);
            var row := RowAfter(config, world, request);
            SameIdentity(row, found) && SameOwnData(row, found[request.action.key := request.action.value])
  {
    AdmittedResult(config, world, request);
    FoundSession(config, world, request);
    hide HeldBack, Entered, Attached, AfterAuthentication, RowAfter, Refused, Presented, Good;
    RowAfterIs(config, world, request);
    hide ResultOf, SameOwnData;
    var found := AfterAuthentication(Entered(config, world.rows, request), world.accounts, config.sessionSecret).values;
    PutKeepsSame(found, Presented(world, request), request.action.key, request.action.value);
    PutKeepsSame(map[], map[], request.action.key, request.action.value);
  }
}
