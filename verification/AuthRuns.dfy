/** What whole runs of the auth machine keep: every interleaving of requests and table changes. */
module AuthRuns {
  import opened Options
  import opened AuthModel

  /** The tables, and every random value drawn so far. */
  datatype World = World(accounts: Accounts, rows: map<Nonce, Data>, used: set<Nonce>)

  datatype Step =
    | Serve(request: Request)
    | CreateUser(id: Nonce, salt: Nonce, username: string, email: string, password: Option<string>, active: bool)
    | EditUser(id: Nonce, email: string, lastLogin: Option<int>, active: bool)
    | DeleteUser(id: Nonce)
    | SetPassword(username: string, newPassword: string, salt: Nonce)
    | DropSession(key: Nonce)

  function DrawSet(draws: Draws): set<Nonce> {
    {draws.key, draws.minted, draws.salt, draws.secret, draws.rotated}
  }

  /** Random values do not repeat, and application handlers leave the framework's own session keys alone. */
  predicate Enabled(world: World, step: Step) {
    match step
    case Serve(request) =>
      && DrawSet(request.draws) !! world.used
      && request.draws.key != request.draws.minted
      && request.draws.secret != request.draws.rotated
      && (request.action.Store? ==> !Reserved(request.action.key))
    case CreateUser(id, salt, _, _, _, _) => id !in world.used && salt !in world.used
    case SetPassword(_, _, salt) => salt !in world.used
    case _ => true
  }

  function ResultOf(config: Config, world: World, request: Request): Result {
    AuthModel.Serve(config, world.rows, world.accounts, request)
  }

  function Next(config: Config, world: World, step: Step): World {
    match step
    case Serve(request) =>
      var result := ResultOf(config, world, request);
      World(result.accounts, CommitRows(result.live, request.draws.minted), world.used + DrawSet(request.draws))
    case CreateUser(id, salt, username, email, password, active) =>
      var a := world.accounts;
      var user := User(id, username, email, Encode(password, salt), active, None);
      world.(used := world.used + {id, salt},
             accounts := if username == "" || username in a.names then a
                         else Accounts(a.users[id := user], a.names[username := id]))
    case EditUser(id, email, lastLogin, active) =>
      var a := world.accounts;
      world.(accounts := if id !in a.users then a
                         else
                           var user := a.users[id].(email := email, lastLogin := lastLogin, active := active);
                           a.(users := a.users[id := user]))
    case DeleteUser(id) =>
      var a := world.accounts;
      world.(accounts := if id !in a.users then a
                         else Accounts(a.users - {id}, a.names - {a.users[id].username}))
    case SetPassword(username, password, salt) =>
      var a := world.accounts;
      var user := UserByUsername(a, username);
      world.(used := world.used + {salt},
             accounts := if user.None? then a
                         else UpdatePassword(a, user.value.id, Encode(Some(password), salt)))
    case DropSession(key) => world.(rows := world.rows - {key})
  }

  predicate Runs(config: Config, world: World, steps: seq<Step>)
    decreases |steps|
  {
    steps == [] || (Enabled(world, steps[0]) && Runs(config, Next(config, world, steps[0]), steps[1..]))
  }

  function After(config: Config, world: World, steps: seq<Step>): World
    decreases |steps|
  {
    if steps == [] then world else After(config, Next(config, world, steps[0]), steps[1..])
  }

  // ---------------------------------------------------------------- what every step keeps

  predicate Seen(used: set<Nonce>, encoding: Encoding) {
    match encoding
    case Derived(_, salt) => salt in used
    case Unusable(nonce) => nonce in used
    case Foreign(_) => true
  }

  predicate SeenValue(used: set<Nonce>, value: Value) {
    value.PasswordMac? ==> Seen(used, value.encoding)
  }

  /** A row that names a user also holds a MAC, of an encoding already drawn. */
  predicate GoodRow(used: set<Nonce>, row: Data) {
    && (USER_ID_KEY in row ==> AUTH_HASH_KEY in row)
    && (AUTH_HASH_KEY in row ==> SeenValue(used, row[AUTH_HASH_KEY]))
  }

  ghost predicate GoodAccounts(used: set<Nonce>, a: Accounts) {
    && (forall id :: id in a.users ==> id in used && a.users[id].id == id && Seen(used, a.users[id].encoding))
    && (forall id :: id in a.users ==> a.users[id].username in a.names && a.names[a.users[id].username] == id)
    && (forall name :: name in a.names ==> a.names[name] in a.users && a.users[a.names[name]].username == name)
  }

  /** Everything stored was drawn, ids are keys, and the username index is exact. */
  ghost predicate Good(world: World) {
    && GoodAccounts(world.used, world.accounts)
    && (forall key :: key in world.rows ==> key in world.used && GoodRow(world.used, world.rows[key]))
  }

  /** How a request leaves the identity held by its session. */
  datatype Effect = Untouched | Cleared | SignedIn(id: Nonce)

  function AuthPart(values: Data): (Option<Value>, Option<Value>) {
    (if USER_ID_KEY in values then Some(values[USER_ID_KEY]) else None,
     if AUTH_HASH_KEY in values then Some(values[AUTH_HASH_KEY]) else None)
  }

  /** What the handler makes of a session that Authentication took from `live` to `after`. */
  function HandlerEffect(config: Config, live: Live, after: Live, accounts: Accounts, attached: Option<User>,
                         action: Action, draws: Draws): Effect {
    var otherwise := if after == live then Untouched else Cleared;
    match action
    case SignIn(username, password) =>
      if NonBlank(username) && NonBlank(password) && Authenticate(accounts, username, password).Matched?
      then SignedIn(Authenticate(accounts, username, password).user.id) else otherwise
    case SignInAs(_, id) => if id in accounts.users then SignedIn(id) else otherwise
    case ChangePassword(oldPassword, first, second) =>
      if attached.Some? &&
         HandleChangePassword(config, after, accounts, attached, oldPassword, first, second, draws).outcome ==
         Redirected
      then SignedIn(attached.value.id) else otherwise
    case SignOut => Cleared
    case _ => otherwise
  }

  function EffectOf(config: Config, world: World, request: Request): Effect {
    var live := Entered(config, world.rows, request);
    if !PassesCsrf(live, request) then Untouched
    else
      HandlerEffect(config, live, AfterAuthentication(live, world.accounts, config.sessionSecret), world.accounts,
                    Attached(live, world.accounts, config.sessionSecret), request.action, request.draws)
  }

  /** The identity a session may be left with, given the accounts as they then stand. */
  predicate Leaves(config: Config, loaded: Live, live: Live, accounts: Accounts, effect: Effect) {
    match effect
    case Untouched => live.token == loaded.token && AuthPart(live.values) == AuthPart(loaded.values)
    case Cleared => live.token == None && AuthPart(live.values) == (None, None)
    case SignedIn(id) =>
      && id in accounts.users
      && AuthPart(live.values) ==
           (Some(UserRef(id)), Some(PasswordMac(config.sessionSecret, accounts.users[id].encoding)))
      && (live.token == loaded.token ==> NamedUser(loaded.values) == Some(id))
  }

  /** Rows and key move together: the loaded key is kept with every row, or its row is gone. */
  predicate Moves(loaded: Live, live: Live, key: Nonce) {
    && (live.token == loaded.token || live.token == None || live.token == Some(key))
    && live.rows == (if live.token == loaded.token then loaded.rows else DropRow(loaded.rows, loaded.token))
  }

  lemma SecretKeepsIdentity(live: Live, secret: Nonce)
    ensures AuthPart(SaveSecret(live, secret).values) == AuthPart(live.values)
    ensures SaveSecret(live, secret).rows == live.rows && SaveSecret(live, secret).token == live.token
    ensures Rotate(live, secret).values == SaveSecret(live, secret).values
    ensures Rotate(live, secret).rows == live.rows && Rotate(live, secret).token == live.token
  {
  }

  lemma LoginLeaves(config: Config, loaded: Live, live: Live, accounts: Accounts, user: User, key: Nonce, drawn: Nonce)
    requires Moves(loaded, live, key) && (live.token == loaded.token || live.token == None)
    requires live.values == map[] || (live.token == loaded.token && AuthPart(live.values) == AuthPart(loaded.values))
    requires loaded.token.None? ==> AuthPart(loaded.values) == (None, None)
    requires loaded.token != Some(key)
    requires user.id in accounts.users && accounts.users[user.id].encoding == user.encoding
    ensures var after := Login(live, user, config.sessionSecret, key, drawn);
            Moves(loaded, after, key) && Leaves(config, loaded, after, accounts, SignedIn(user.id))
  {
    SecretKeepsIdentity(Renew(live, key), drawn);
  }

  lemma AttachedLeavesSession(live: Live, accounts: Accounts, secret: string)
    requires Attached(live, accounts, secret).Some?
    ensures AfterAuthentication(live, accounts, secret) == live
    ensures Vouches(live.values, Attached(live, accounts, secret).value, secret)
    ensures exists id :: id in accounts.users && Attached(live, accounts, secret).value == accounts.users[id]
  {
  }

  /** Changing the password from within a session: a fresh key, and the new MAC under it. */
  lemma ChangeLeaves(config: Config, loaded: Live, live: Live, accounts: Accounts, user: User,
                     oldPassword: string, first: string, second: string, draws: Draws)
    requires live.rows == loaded.rows && live.token == loaded.token
    requires USER_ID_KEY in live.values && live.values[USER_ID_KEY] == UserRef(user.id)
    requires user.id in accounts.users && loaded.token != Some(draws.key)
    ensures var result := HandleChangePassword(config, live, accounts, Some(user), oldPassword, first, second, draws);
            if result.outcome == Redirected
            then result.live.token == Some(draws.key) && result.live.rows == DropRow(loaded.rows, loaded.token) &&
                 Leaves(config, loaded, result.live, result.accounts, SignedIn(user.id))
            else result.live == live && result.accounts == accounts
  {
    hide NonBlank, ValidNewPasswords, Authenticate;
    SecretKeepsIdentity(Renew(live, draws.key), draws.rotated);
  }

  predicate GoodIds(accounts: Accounts) {
    forall id :: id in accounts.users ==> accounts.users[id].id == id
  }

  lemma NotAttachedIsRefused(config: Config, live: Live, accounts: Accounts, action: Action, draws: Draws)
    ensures action.ChangePassword? ==>
              Handle(config, live, accounts, None, action, draws) == Result(live, accounts, Unauthorized)
  {
  }

  lemma MatchedIsStored(accounts: Accounts, username: string, password: string)
    requires GoodIds(accounts) && Authenticate(accounts, username, password).Matched?
    ensures var user := Authenticate(accounts, username, password).user;
            user.id in accounts.users && accounts.users[user.id] == user && user.active
  {
  }

  /** A session as the CSRF middleware hands it on, compared with what was loaded, and an action it may see. */
  predicate Ready(loaded: Live, live: Live, accounts: Accounts, action: Action, draws: Draws) {
    && GoodIds(accounts)
    && AuthPart(live.values) == AuthPart(loaded.values) && live.token == loaded.token && live.rows == loaded.rows
    && loaded.token != Some(draws.key)
    && (loaded.token.None? ==> AuthPart(loaded.values) == (None, None))
    && (action.Store? ==> !Reserved(action.key))
  }

  /** The handler keeps to the footprint, from the session that Authentication left. */
  predicate Keeps(config: Config, loaded: Live, live: Live, accounts: Accounts, action: Action, draws: Draws) {
    var after := AfterAuthentication(live, accounts, config.sessionSecret);
    var attached := Attached(live, accounts, config.sessionSecret);
    var result := Handle(config, after, accounts, attached, action, draws);
    && Moves(loaded, result.live, draws.key)
    && Leaves(config, loaded, result.live, result.accounts,
              HandlerEffect(config, live, after, accounts, attached, action, draws))
  }

  lemma FlushedOrKept(live: Live, accounts: Accounts, secret: string)
    ensures var after := AfterAuthentication(live, accounts, secret);
            after == live || after == Flush(live)
  {
  }

  lemma SignInFootprint(config: Config, loaded: Live, live: Live, accounts: Accounts, action: Action, draws: Draws)
    requires Ready(loaded, live, accounts, action, draws) && (action.SignIn? || action.SignInAs?)
    ensures Keeps(config, loaded, live, accounts, action, draws)
  {
    FlushedOrKept(live, accounts, config.sessionSecret);
    var after := AfterAuthentication(live, accounts, config.sessionSecret);
    hide Login, AfterAuthentication, NonBlank, Attached, Authenticate;
    match action
    case SignIn(username, password) =>
      var matching := Authenticate(accounts, username, password);
      if matching.Matched? {
        MatchedIsStored(accounts, username, password);
        LoginLeaves(config, loaded, after, accounts, matching.user, draws.key, draws.rotated);
      }
    case SignInAs(_, id) =>
      if id in accounts.users {
        LoginLeaves(config, loaded, after, accounts, accounts.users[id], draws.key, draws.rotated);
      }
  }

  lemma ChangeFootprint(config: Config, loaded: Live, live: Live, accounts: Accounts, action: Action, draws: Draws)
    requires Ready(loaded, live, accounts, action, draws) && action.ChangePassword?
    ensures Keeps(config, loaded, live, accounts, action, draws)
  {
    var after := AfterAuthentication(live, accounts, config.sessionSecret);
    var attached := Attached(live, accounts, config.sessionSecret);
    FlushedOrKept(live, accounts, config.sessionSecret);
    if attached.Some? {
      AttachedLeavesSession(live, accounts, config.sessionSecret);
      ChangeLeaves(config, loaded, live, accounts, attached.value,
                   action.oldPassword, action.newPassword1, action.newPassword2, draws);
    } else {
      NotAttachedIsRefused(config, after, accounts, action, draws);
    }
    hide AfterAuthentication, Attached, HandleChangePassword;
  }

  lemma OtherFootprint(config: Config, loaded: Live, live: Live, accounts: Accounts, action: Action, draws: Draws)
    requires Ready(loaded, live, accounts, action, draws)
    requires action.View? || action.Store? || action.SignOut? || action.ConfirmReset?
    ensures Keeps(config, loaded, live, accounts, action, draws)
  {
    FlushedOrKept(live, accounts, config.sessionSecret);
    hide AfterAuthentication, Attached, ValidNewPasswords, CheckReset;
  }

  lemma HandlerFootprint(config: Config, loaded: Live, live: Live, accounts: Accounts, action: Action, draws: Draws)
    requires Ready(loaded, live, accounts, action, draws)
    ensures Keeps(config, loaded, live, accounts, action, draws)
  {
    hide Ready, Keeps;
    match action
    case SignIn(_, _) => SignInFootprint(config, loaded, live, accounts, action, draws);
    case SignInAs(_, _) => SignInFootprint(config, loaded, live, accounts, action, draws);
    case ChangePassword(_, _, _) => ChangeFootprint(config, loaded, live, accounts, action, draws);
    case _ => OtherFootprint(config, loaded, live, accounts, action, draws);
  }

  /**
   * The footprint of one request. The only row it may touch is the presented one, which it keeps or
   * drops; the key in force afterwards is that one, a fresh one, or none yet; and the identity in the
   * session is the one it was loaded with, none at all, or the one just signed in.
   */
  lemma Footprint(config: Config, world: World, request: Request)
    requires Good(world) && Enabled(world, Step.Serve(request))
    ensures var result := ResultOf(config, world, request);
            var loaded := Begin(world.rows, request.presented);
            && Moves(loaded, result.live, request.draws.key)
            && Leaves(config, loaded, result.live, result.accounts, EffectOf(config, world, request))
  {
    var loaded := Begin(world.rows, request.presented);
    var live := Entered(config, world.rows, request);
    SecretKeepsIdentity(loaded.(csrf := live.csrf), live.csrf.value.secret);
    if PassesCsrf(live, request) {
      HandlerFootprint(config, loaded, live, world.accounts, request.action, request.draws);
    }
  }
}
