/**
 * What one request does to users and sessions, on values (auth/session.go, auth/manager.go,
 * web/session.go, web/csrf.go, web/auth_http.go).
 *
 * A value drawn at random is a Nonce; which draws a request makes is part of the request. MACs and
 * derived keys are constructors, so two of them are equal exactly when their inputs are.
 */
module AuthModel {
  import opened GoStrings
  import Numerals
  import opened Options

  type Nonce = nat

  // ---------------------------------------------------------------- passwords and users

  /** A stored password: derived from a raw one and a salt, unusable, or of another algorithm. */
  datatype Encoding = Derived(raw: string, salt: Nonce) | Unusable(nonce: Nonce) | Foreign(text: string)

  function Encode(raw: Option<string>, draw: Nonce): Encoding {
    match raw
    case None => Unusable(draw)
    case Some(password) => Derived(password, draw)
  }

  datatype PasswordCheck = Checked(ok: bool) | CheckFailed

  function CheckPassword(raw: string, encoding: Encoding): PasswordCheck {
    match encoding
    case Unusable(_) => Checked(false)
    case Foreign(_) => CheckFailed
    case Derived(password, _) => Checked(raw == password)
  }

  datatype User = User(
    id: Nonce, username: string, email: string, encoding: Encoding, active: bool, lastLogin: Option<int>)

  /** The users table and its unique username index. */
  datatype Accounts = Accounts(users: map<Nonce, User>, names: map<string, Nonce>)

  function UserByID(accounts: Accounts, id: Nonce): Option<User> {
    if id in accounts.users then Some(accounts.users[id]) else None
  }

  function UserByUsername(accounts: Accounts, username: string): Option<User> {
    if username in accounts.names then UserByID(accounts, accounts.names[username]) else None
  }

  datatype Matching = Matched(user: User) | NotMatched | MatchFailed

  /** Manager.Authenticate. */
  function Authenticate(accounts: Accounts, username: string, password: string): Matching {
    match UserByUsername(accounts, username)
    case None => NotMatched
    case Some(user) =>
      match CheckPassword(password, user.encoding)
      case CheckFailed => MatchFailed
      case Checked(ok) => if ok && user.active then Matched(user) else NotMatched
  }

  /** UpdatePassword writes one column of an existing row. */
  function UpdatePassword(accounts: Accounts, id: Nonce, encoding: Encoding): Accounts {
    if id in accounts.users
    then accounts.(users := accounts.users[id := accounts.users[id].(encoding := encoding)])
    else accounts
  }

  // ---------------------------------------------------------------- session data

  datatype Value =
    | UserRef(id: Nonce)
    | PasswordMac(secret: string, encoding: Encoding)
    | CsrfSecret(csrf: Nonce)
    | Text(text: string)

  type Data = map<string, Value>

  const USER_ID_KEY := "_auth_user_id"
  const AUTH_HASH_KEY := "_auth_user_hash"
  const CSRF_KEY := "_godjango_csrf_secret"

  predicate Reserved(key: string) {
    key == USER_ID_KEY || key == AUTH_HASH_KEY || key == CSRF_KEY
  }

  datatype Status = Unmodified | Modified | Destroyed

  /** The CSRF state of one request: the secret in force and the cookie to be set, if any. */
  datatype Csrf = Csrf(useSessions: bool, secret: Nonce, cookie: Option<Nonce>)

  /** One request's session together with the table it was loaded from. */
  datatype Live = Live(rows: map<Nonce, Data>, token: Option<Nonce>, values: Data, status: Status, csrf: Option<Csrf>)

  function Begin(rows: map<Nonce, Data>, presented: Option<Nonce>): Live {
    if presented.Some? && presented.value in rows
    then Live(rows, presented, rows[presented.value], Unmodified, None)
    else Live(rows, None, map[], Unmodified, None)
  }

  function Put(live: Live, key: string, value: Value): Live {
    live.(values := live.values[key := value], status := Modified)
  }

  function DropRow(rows: map<Nonce, Data>, token: Option<Nonce>): map<Nonce, Data> {
    match token
    case None => rows
    case Some(key) => rows - {key}
  }

  /** RenewToken: the old key goes, a fresh one takes its place, the data stays. */
  function Renew(live: Live, key: Nonce): Live {
    live.(rows := DropRow(live.rows, live.token), token := Some(key), status := Modified)
  }

  /** Destroy: key and data both go. */
  function Flush(live: Live): Live {
    live.(rows := DropRow(live.rows, live.token), token := None, values := map[], status := Destroyed)
  }

  /** Saving a CSRF secret: into the session, or into a cookie. */
  function SaveSecret(live: Live, secret: Nonce): Live {
    match live.csrf
    case None => live
    case Some(csrf) =>
      if csrf.useSessions then Put(live, CSRF_KEY, CsrfSecret(secret))
      else live.(csrf := Some(csrf.(cookie := Some(secret))))
  }

  function SetSecret(live: Live, secret: Nonce): Live {
    match live.csrf
    case None => live
    case Some(csrf) => live.(csrf := Some(csrf.(secret := secret)))
  }

  /** csrfState.rotate, which has nothing to do before the CSRF middleware has run. */
  function Rotate(live: Live, secret: Nonce): Live {
    SetSecret(SaveSecret(live, secret), secret)
  }

  /** requestSession.Cycle. */
  function Cycle(live: Live, key: Nonce, secret: Nonce): Live {
    Rotate(Renew(live, key), secret)
  }

  datatype Cookie = Keep | Set(key: Nonce) | Clear

  function CommitKey(live: Live, minted: Nonce): Nonce {
    if live.token.Some? then live.token.value else minted
  }

  /** What is written back when the handler is done. */
  function CommitRows(live: Live, minted: Nonce): map<Nonce, Data> {
    if live.status == Modified then live.rows[CommitKey(live, minted) := live.values] else live.rows
  }

  function CommitCookie(live: Live, minted: Nonce): Cookie {
    match live.status
    case Unmodified => Keep
    case Modified => Set(CommitKey(live, minted))
    case Destroyed => Clear
  }

  // ---------------------------------------------------------------- auth/session.go

  function SessionAuthHash(user: User, secret: string): Value {
    PasswordMac(secret, user.encoding)
  }

  function Login(live: Live, user: User, secret: string, key: Nonce, csrfSecret: Nonce): Live {
    var base :=
      if USER_ID_KEY in live.values then
        if live.values[USER_ID_KEY] != UserRef(user.id) then Flush(live) else live
      else Cycle(live, key, csrfSecret);
    Put(Put(base, USER_ID_KEY, UserRef(user.id)), AUTH_HASH_KEY, SessionAuthHash(user, secret))
  }

  /** Whether the session holds this user's id and the MAC of this user's password. */
  predicate Vouches(values: Data, user: User, secret: string) {
    && USER_ID_KEY in values && values[USER_ID_KEY] == UserRef(user.id)
    && AUTH_HASH_KEY in values && values[AUTH_HASH_KEY] == SessionAuthHash(user, secret)
  }

  /** SessionUserID flushes when the stored MAC is there and wrong. */
  function AfterSessionUserID(live: Live, user: User, secret: string): Live {
    if USER_ID_KEY in live.values && live.values[USER_ID_KEY] == UserRef(user.id)
       && AUTH_HASH_KEY in live.values && live.values[AUTH_HASH_KEY] != SessionAuthHash(user, secret)
    then Flush(live) else live
  }

  /** The id the session names, if any. */
  function NamedUser(values: Data): Option<Nonce> {
    if USER_ID_KEY in values && values[USER_ID_KEY].UserRef? then Some(values[USER_ID_KEY].id) else None
  }

  /** The Authentication middleware: the user it attaches, and the session it leaves. */
  function Attached(live: Live, accounts: Accounts, secret: string): Option<User> {
    match NamedUser(live.values)
    case None => None
    case Some(id) =>
      match UserByID(accounts, id)
      case None => None
      case Some(user) => if user.active && Vouches(live.values, user, secret) then Some(user) else None
  }

  function AfterAuthentication(live: Live, accounts: Accounts, secret: string): Live {
    if USER_ID_KEY !in live.values then live
    else
      match NamedUser(live.values)
      case None => Flush(live)
      case Some(id) =>
        match UserByID(accounts, id)
        case None => Flush(live)
        case Some(user) => if !user.active then Flush(live) else AfterSessionUserID(live, user, secret)
  }

  // ---------------------------------------------------------------- CSRF middleware

  function StoredSecret(live: Live, useSessions: bool, cookie: Option<Nonce>): Option<Nonce> {
    if useSessions then
      if CSRF_KEY in live.values && live.values[CSRF_KEY].CsrfSecret? then Some(live.values[CSRF_KEY].csrf) else None
    else cookie
  }

  /** Load the secret or draw one; either way save it again. */
  function EnterCsrf(live: Live, useSessions: bool, cookie: Option<Nonce>, drawn: Nonce): Live {
    var stored := StoredSecret(live, useSessions, cookie);
    var secret := if stored.Some? then stored.value else drawn;
    SaveSecret(live.(csrf := Some(Csrf(useSessions, secret, None))), secret)
  }

  // ---------------------------------------------------------------- reset tokens

  /** The MAC of a reset token, over the five fields it is computed from. */
  datatype ResetMac = ResetMac(
    secret: string, id: Nonce, encoding: Encoding, lastLogin: Option<int>, timestamp: int, email: string)

  datatype ResetToken = ResetToken(timestamp: int, mac: ResetMac)

  datatype Config = Config(
    sessionSecret: string, resetSecrets: seq<string>, resetTimeout: int, useSessions: bool)

  /** The timeout is a 64-bit duration and the age saturates; without a primary secret nothing checks. */
  predicate CheckReset(config: Config, user: User, token: ResetToken, now: int) {
    && config.resetSecrets != [] && config.resetSecrets[0] != ""
    && token.timestamp <= now && Numerals.Saturated(now - token.timestamp) <= config.resetTimeout
    && exists i :: 0 <= i < |config.resetSecrets| &&
         token.mac ==
         ResetMac(config.resetSecrets[i], user.id, user.encoding, user.lastLogin, token.timestamp, user.email)
  }

  // ---------------------------------------------------------------- requests

  datatype Action =
    | View(safe: bool)
    | Store(safe: bool, key: string, value: Value)
    | SignInAs(safe: bool, id: Nonce)
    | SignIn(username: string, password: string)
    | SignOut
    | ChangePassword(oldPassword: string, newPassword1: string, newPassword2: string)
    | ConfirmReset(target: Option<Nonce>, resetToken: ResetToken, now: int, newPassword1: string, newPassword2: string)

  /** What this request draws, should it need to. */
  datatype Draws = Draws(key: Nonce, minted: Nonce, salt: Nonce, secret: Nonce, rotated: Nonce)

  /** `token` is the secret the presented CSRF token unmasks to, if it does. */
  datatype Request = Request(
    presented: Option<Nonce>, csrfCookie: Option<Nonce>, sameOrigin: bool, token: Option<Nonce>,
    action: Action, draws: Draws)

  datatype Outcome = Served | Invalid | Redirected | BadRequest | Unauthorized | Forbidden | Unavailable

  datatype Result = Result(live: Live, accounts: Accounts, outcome: Outcome)

  predicate SafeMethod(action: Action) {
    match action
    case View(safe) => safe
    case Store(safe, _, _) => safe
    case SignInAs(safe, _) => safe
    case _ => false
  }

  predicate NonBlank(s: string) {
    TrimSpace(s) != ""
  }

  predicate ValidNewPasswords(first: string, second: string) {
    NonBlank(first) && NonBlank(second) && |first| >= 8 && first == second
  }

  function HandleSignIn(config: Config, live: Live, accounts: Accounts, username: string, password: string,
                        draws: Draws): Result
  {
    if !NonBlank(username) || !NonBlank(password) then Result(live, accounts, Invalid)
    else
      match Authenticate(accounts, username, password)
      case MatchFailed => Result(live, accounts, Unavailable)
      case NotMatched => Result(live, accounts, Invalid)
      case Matched(user) =>
        Result(Login(live, user, config.sessionSecret, draws.key, draws.rotated), accounts, Redirected)
  }

  /** RuntimeServices.Login on a user an application looked up by id. */
  function HandleSignInAs(config: Config, live: Live, accounts: Accounts, id: Nonce, draws: Draws): Result {
    match UserByID(accounts, id)
    case None => Result(live, accounts, Unavailable)
    case Some(user) =>
      Result(Login(live, user, config.sessionSecret, draws.key, draws.rotated), accounts, Served)
  }

  function HandleChangePassword(config: Config, live: Live, accounts: Accounts, attached: Option<User>,
                                oldPassword: string, first: string, second: string, draws: Draws): Result {
    if attached.None? then Result(live, accounts, Unauthorized)
    else if !NonBlank(oldPassword) || !ValidNewPasswords(first, second) then Result(live, accounts, Invalid)
    else
      match Authenticate(accounts, attached.value.username, oldPassword)
      case MatchFailed => Result(live, accounts, Unavailable)
      case NotMatched => Result(live, accounts, Invalid)
      case Matched(_) =>
        var user := attached.value.(encoding := Encode(Some(first), draws.salt));
        if user.id !in accounts.users then Result(live, accounts, Unavailable)
        else
          Result(Login(Cycle(live, draws.key, draws.rotated), user, config.sessionSecret, draws.key, draws.rotated),
                 UpdatePassword(accounts, user.id, user.encoding), Redirected)
  }

  function HandleConfirmReset(config: Config, live: Live, accounts: Accounts, target: Option<Nonce>, token: ResetToken,
                              now: int, first: string, second: string, draws: Draws): Result {
    match (if target.None? then None else UserByID(accounts, target.value))
    case None => Result(live, accounts, BadRequest)
    case Some(user) =>
      if !CheckReset(config, user, token, now) then Result(live, accounts, BadRequest)
      else if !ValidNewPasswords(first, second) then Result(live, accounts, Invalid)
      else if user.id !in accounts.users then Result(live, accounts, Unavailable)
      else Result(live, UpdatePassword(accounts, user.id, Encode(Some(first), draws.salt)), Redirected)
  }

  function Handle(config: Config, live: Live, accounts: Accounts, attached: Option<User>, action: Action,
                  draws: Draws): Result
  {
    match action
    case View(_) => Result(live, accounts, Served)
    case Store(_, key, value) => Result(Put(live, key, value), accounts, Served)
    case SignInAs(_, id) => HandleSignInAs(config, live, accounts, id, draws)
    case SignIn(username, password) => HandleSignIn(config, live, accounts, username, password, draws)
    case SignOut => Result(Flush(live), accounts, Redirected)
    case ChangePassword(oldPassword, first, second) =>
      HandleChangePassword(config, live, accounts, attached, oldPassword, first, second, draws)
    case ConfirmReset(target, token, now, first, second) =>
      HandleConfirmReset(config, live, accounts, target, token, now, first, second, draws)
  }

  predicate PassesCsrf(live: Live, request: Request)
    requires live.csrf.Some?
  {
    SafeMethod(request.action) || (request.sameOrigin && request.token == Some(live.csrf.value.secret))
  }

  /** The session as the CSRF middleware hands it on. */
  function Entered(config: Config, rows: map<Nonce, Data>, request: Request): (live: Live)
    ensures live.csrf.Some?
  {
    EnterCsrf(Begin(rows, request.presented), config.useSessions, request.csrfCookie, request.draws.secret)
  }

  /** Sessions, CSRF, Authentication, then the handler. */
  function Serve(config: Config, rows: map<Nonce, Data>, accounts: Accounts, request: Request): Result {
    var live := Entered(config, rows, request);
    if !PassesCsrf(live, request) then Result(live, accounts, Forbidden)
    else
      Handle(config, AfterAuthentication(live, accounts, config.sessionSecret), accounts,
             Attached(live, accounts, config.sessionSecret), request.action, request.draws)
  }
}
