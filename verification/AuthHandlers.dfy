/**
 * The request path as objects that update each other in place: the session of one request, its CSRF
 * state, the loaded user, the tables behind them, and the handlers (web/session.go, web/csrf.go,
 * auth/session.go, auth/manager.go, web/auth_http.go). Each method is proved against AuthModel.
 */
module AuthHandlers {
  import opened Options
  import M = AuthModel

  /** The auth_sessions table. */
  class SessionTable {
    var rows: map<M.Nonce, M.Data>

    constructor (rows: map<M.Nonce, M.Data>)
      ensures this.rows == rows
    {
      this.rows := rows;
    }
  }

  class RequestSession {
    const table: SessionTable
    var token: Option<M.Nonce>
    var values: M.Data
    var status: M.Status
    var csrf: CsrfState?

    /** Load the presented key's row, or start empty. */
    constructor (table: SessionTable, presented: Option<M.Nonce>)
      ensures this.table == table && csrf == null
      ensures Live() == M.Begin(table.rows, presented)
    {
      this.table := table;
      this.csrf := null;
      this.status := M.Unmodified;
      if presented.Some? && presented.value in table.rows {
        this.token, this.values := presented, table.rows[presented.value];
      } else {
        this.token, this.values := None, map[];
      }
    }

    function Repr(): set<object>
      reads this
    {
      {this, table} + (if csrf == null then {} else {csrf})
    }

    function Live(): M.Live
      reads this, Repr()
    {
      M.Live(table.rows, token, values, status, if csrf == null then None else Some(csrf.View()))
    }

    method Get(key: string) returns (value: Option<M.Value>)
      ensures value == if key in values then Some(values[key]) else None
    {
      if key !in values {
        return None;
      }
      return Some(values[key]);
    }

    method Put(key: string, value: M.Value)
      modifies this`values, this`status
      ensures Live() == M.Put(old(Live()), key, value)
    {
      values := values[key := value];
      status := M.Modified;
    }

    /** The manager's RenewToken. */
    method RenewToken(key: M.Nonce)
      modifies this`token, this`status, table
      ensures Live() == M.Renew(old(Live()), key)
    {
      if token.Some? {
        table.rows := table.rows - {token.value};
      }
      token := Some(key);
      status := M.Modified;
    }

    method Cycle(key: M.Nonce, drawn: M.Nonce)
      modifies Repr()
      ensures csrf == old(csrf)
      ensures Live() == M.Cycle(old(Live()), key, drawn)
    {
      RenewToken(key);
      if csrf != null {
        csrf.Rotate(this, drawn);
      }
    }

    /** The manager's Destroy. */
    method Flush()
      modifies this, table
      ensures csrf == old(csrf)
      ensures Live() == M.Flush(old(Live()))
    {
      if token.Some? {
        table.rows := table.rows - {token.value};
      }
      status := M.Destroyed;
      token := None;
      values := map[];
    }

    /** What the session manager does when the handler is done. */
    method Commit(minted: M.Nonce) returns (cookie: M.Cookie)
      modifies this, table
      ensures csrf == old(csrf)
      ensures table.rows == M.CommitRows(old(Live()), minted)
      ensures cookie == M.CommitCookie(old(Live()), minted)
    {
      match status
      case Unmodified =>
        return M.Keep;
      case Destroyed =>
        return M.Clear;
      case Modified =>
        if token.None? {
          token := Some(minted);
        }
        table.rows := table.rows[token.value := values];
        return M.Set(token.value);
    }
  }

  class CsrfState {
    const useSessions: bool
    var secret: M.Nonce
    var cookie: Option<M.Nonce>

    constructor (useSessions: bool, secret: M.Nonce)
      ensures View() == M.Csrf(useSessions, secret, None)
    {
      this.useSessions, this.secret, this.cookie := useSessions, secret, None;
    }

    function View(): M.Csrf
      reads this
    {
      M.Csrf(useSessions, secret, cookie)
    }

    /** csrfSecretStore.save for either store. */
    method Save(session: RequestSession, secret: M.Nonce)
      requires session.csrf == this
      modifies this`cookie, session`values, session`status
      ensures session.Live() == M.SaveSecret(old(session.Live()), secret)
    {
      if useSessions {
        session.Put(M.CSRF_KEY, M.CsrfSecret(secret));
      } else {
        cookie := Some(secret);
      }
    }

    method Rotate(session: RequestSession, drawn: M.Nonce)
      requires session.csrf == this
      modifies this, session`values, session`status
      ensures session.Live() == M.Rotate(old(session.Live()), drawn)
    {
      Save(session, drawn);
      secret := drawn;
    }
  }

  /** A user as one lookup loaded it; later code sees what SetPassword assigns here. */
  class LoadedUser {
    var fields: M.User

    constructor (fields: M.User)
      ensures this.fields == fields
    {
      this.fields := fields;
    }

    method SetPassword(raw: Option<string>, salt: M.Nonce)
      modifies this
      ensures fields == old(fields).(encoding := M.Encode(raw, salt))
    {
      fields := fields.(encoding := M.Encode(raw, salt));
    }
  }

  /** The auth_users table behind Manager. */
  class Manager {
    var accounts: M.Accounts

    constructor (accounts: M.Accounts)
      ensures this.accounts == accounts
    {
      this.accounts := accounts;
    }

    method UserByID(id: M.Nonce) returns (user: LoadedUser?)
      ensures user == null <==> M.UserByID(accounts, id) == None
      ensures user != null ==> fresh(user) && M.UserByID(accounts, id) == Some(user.fields)
    {
      if id !in accounts.users {
        return null;
      }
      user := new LoadedUser(accounts.users[id]);
    }

    method UserByUsername(username: string) returns (user: LoadedUser?)
      ensures user == null <==> M.UserByUsername(accounts, username) == None
      ensures user != null ==> fresh(user) && M.UserByUsername(accounts, username) == Some(user.fields)
    {
      if username !in accounts.names {
        return null;
      }
      user := UserByID(accounts.names[username]);
    }

    method Authenticate(username: string, password: string) returns (failed: bool, user: LoadedUser?)
      ensures failed <==> M.Authenticate(accounts, username, password) == M.MatchFailed
      ensures failed ==> user == null
      ensures user != null <==> M.Authenticate(accounts, username, password).Matched?
      ensures user != null ==>
                fresh(user) && M.Authenticate(accounts, username, password) == M.Matched(user.fields)
    {
      user := UserByUsername(username);
      if user == null {
        return false, null;
      }
      var check := M.CheckPassword(password, user.fields.encoding);
      if check.CheckFailed? {
        return true, null;
      }
      if !check.ok || !user.fields.active {
        return false, null;
      }
      return false, user;
    }

    /** SetPassword changes the loaded user first and then the row it came from. */
    method SetPassword(user: LoadedUser, password: string, salt: M.Nonce) returns (ok: bool)
      modifies this, user
      ensures user.fields == old(user.fields).(encoding := M.Encode(Some(password), salt))
      ensures ok <==> user.fields.id in old(accounts).users
      ensures accounts == M.UpdatePassword(old(accounts), user.fields.id, user.fields.encoding)
    {
      user.SetPassword(Some(password), salt);
      var id := user.fields.id;
      if id !in accounts.users {
        return false;
      }
      accounts := accounts.(users := accounts.users[id := accounts.users[id].(encoding := user.fields.encoding)]);
      return true;
    }
  }

  // ---------------------------------------------------------------- auth/session.go

  method Login(session: RequestSession, user: LoadedUser, secret: string, key: M.Nonce, drawn: M.Nonce)
    modifies session.Repr()
    ensures session.csrf == old(session.csrf)
    ensures session.Live() == M.Login(old(session.Live()), user.fields, secret, key, drawn)
  {
    var current := session.Get(M.USER_ID_KEY);
    if current.Some? && current.value != M.UserRef(user.fields.id) {
      session.Flush();
    } else if current.None? {
      session.Cycle(key, drawn);
    }
    session.Put(M.USER_ID_KEY, M.UserRef(user.fields.id));
    session.Put(M.AUTH_HASH_KEY, M.SessionAuthHash(user.fields, secret));
  }

  method Logout(session: RequestSession)
    modifies session.Repr()
    ensures session.csrf == old(session.csrf)
    ensures session.Live() == M.Flush(old(session.Live()))
  {
    session.Flush();
  }

  method SessionUserID(session: RequestSession, user: LoadedUser, secret: string) returns (valid: bool)
    modifies session.Repr()
    ensures session.csrf == old(session.csrf)
    ensures valid <==> M.Vouches(old(session.values), user.fields, secret)
    ensures session.Live() == M.AfterSessionUserID(old(session.Live()), user.fields, secret)
  {
    var id := session.Get(M.USER_ID_KEY);
    if id.None? || id.value != M.UserRef(user.fields.id) {
      return false;
    }
    var stored := session.Get(M.AUTH_HASH_KEY);
    if stored.None? {
      return false;
    }
    if stored.value != M.SessionAuthHash(user.fields, secret) {
      session.Flush();
      return false;
    }
    return true;
  }

  // ---------------------------------------------------------------- web/csrf.go, web/auth_http.go

  /** The CSRF middleware up to the handler; false is a refusal. */
  method EnterCsrf(config: M.Config, session: RequestSession, request: M.Request) returns (passed: bool)
    requires session.csrf == null
    modifies session
    ensures session.csrf != null && fresh(session.csrf)
    ensures session.Live() ==
            M.EnterCsrf(old(session.Live()), config.useSessions, request.csrfCookie, request.draws.secret)
    ensures passed <==> M.PassesCsrf(session.Live(), request)
  {
    var stored := None;
    if config.useSessions {
      var value := session.Get(M.CSRF_KEY);
      if value.Some? && value.value.CsrfSecret? {
        stored := Some(value.value.csrf);
      }
    } else {
      stored := request.csrfCookie;
    }
    var state := new CsrfState(config.useSessions, if stored.Some? then stored.value else request.draws.secret);
    session.csrf := state;
    state.Save(session, state.secret);
    passed := M.SafeMethod(request.action) || (request.sameOrigin && request.token == Some(state.secret));
  }

  method Authentication(config: M.Config, session: RequestSession, manager: Manager) returns (attached: LoadedUser?)
    modifies session.Repr()
    ensures session.csrf == old(session.csrf)
    ensures session.Live() == M.AfterAuthentication(old(session.Live()), manager.accounts, config.sessionSecret)
    ensures attached != null ==> fresh(attached)
    ensures M.Attached(old(session.Live()), manager.accounts, config.sessionSecret) ==
            if attached == null then None else Some(attached.fields)
  {
    var named := session.Get(M.USER_ID_KEY);
    if named.None? {
      return null;
    }
    var user: LoadedUser? := null;
    if named.value.UserRef? {
      user := manager.UserByID(named.value.id);
    }
    if user == null || !user.fields.active {
      session.Flush();
      return null;
    }
    var valid := SessionUserID(session, user, config.sessionSecret);
    return if valid then user else null;
  }

  class Handlers {
    const config: M.Config
    const manager: Manager

    constructor (config: M.Config, manager: Manager)
      ensures this.config == config && this.manager == manager
    {
      this.config, this.manager := config, manager;
    }

    method SignIn(session: RequestSession, username: string, password: string, draws: M.Draws)
      returns (outcome: M.Outcome)
      modifies session.Repr()
      ensures session.csrf == old(session.csrf)
      ensures M.Result(session.Live(), manager.accounts, outcome) ==
              M.HandleSignIn(config, old(session.Live()), manager.accounts, username, password, draws)
    {
      hide M.Login, M.NonBlank, M.Authenticate;
      var user: LoadedUser? := null;
      if M.NonBlank(username) && M.NonBlank(password) {
        var failed;
        failed, user := manager.Authenticate(username, password);
        if failed {
          return M.Unavailable;
        }
      }
      if user == null {
        return M.Invalid;
      }
      Login(session, user, config.sessionSecret, draws.key, draws.rotated);
      return M.Redirected;
    }

    method SignInAs(session: RequestSession, id: M.Nonce, draws: M.Draws) returns (outcome: M.Outcome)
      modifies session.Repr()
      ensures session.csrf == old(session.csrf)
      ensures M.Result(session.Live(), manager.accounts, outcome) ==
              M.HandleSignInAs(config, old(session.Live()), manager.accounts, id, draws)
    {
      var user := manager.UserByID(id);
      if user == null {
        return M.Unavailable;
      }
      Login(session, user, config.sessionSecret, draws.key, draws.rotated);
      return M.Served;
    }

    method ChangePassword(session: RequestSession, attached: LoadedUser?, oldPassword: string, first: string,
                          second: string, draws: M.Draws) returns (outcome: M.Outcome)
      modifies session.Repr(), manager, if attached == null then {} else {attached}
      ensures session.csrf == old(session.csrf)
      ensures M.Result(session.Live(), manager.accounts, outcome) ==
              M.HandleChangePassword(config, old(session.Live()), old(manager.accounts),
                                     if attached == null then None else Some(old(attached.fields)),
                                     oldPassword, first, second, draws)
    {
      hide M.Login, M.Cycle, M.NonBlank, M.ValidNewPasswords, M.Authenticate;
      if attached == null {
        return M.Unauthorized;
      }
      if !M.NonBlank(oldPassword) || !M.ValidNewPasswords(first, second) {
        return M.Invalid;
      }
      var failed, matched := manager.Authenticate(attached.fields.username, oldPassword);
      if failed {
        return M.Unavailable;
      }
      if matched == null {
        return M.Invalid;
      }
      var ok := manager.SetPassword(attached, first, draws.salt);
      if !ok {
        return M.Unavailable;
      }
      session.Cycle(draws.key, draws.rotated);
      Login(session, attached, config.sessionSecret, draws.key, draws.rotated);
      return M.Redirected;
    }

    method ConfirmReset(session: RequestSession, target: Option<M.Nonce>, token: M.ResetToken, now: int,
                        first: string, second: string, draws: M.Draws) returns (outcome: M.Outcome)
      modifies manager
      ensures M.Result(session.Live(), manager.accounts, outcome) ==
              M.HandleConfirmReset(config, old(session.Live()), old(manager.accounts), target, token, now,
                                   first, second, draws)
    {
      if target.None? {
        return M.BadRequest;
      }
      var user := manager.UserByID(target.value);
      if user == null || !M.CheckReset(config, user.fields, token, now) {
        return M.BadRequest;
      }
      if !M.ValidNewPasswords(first, second) {
        return M.Invalid;
      }
      var ok := manager.SetPassword(user, first, draws.salt);
      return if ok then M.Redirected else M.Unavailable;
    }

    /** One request through sessions, CSRF, Authentication and its handler, and back to the table. */
    method Serve(table: SessionTable, request: M.Request) returns (outcome: M.Outcome, cookie: M.Cookie, csrf: M.Csrf)
      modifies table, manager
      ensures var result := M.Serve(config, old(table.rows), old(manager.accounts), request);
              && outcome == result.outcome
              && manager.accounts == result.accounts
              && table.rows == M.CommitRows(result.live, request.draws.minted)
              && cookie == M.CommitCookie(result.live, request.draws.minted)
              && result.live.csrf == Some(csrf)
    {
      var session := new RequestSession(table, request.presented);
      var passed := EnterCsrf(config, session, request);
      if passed {
        var attached := Authentication(config, session, manager);
        outcome := Dispatch(session, attached, request.action, request.draws);
      } else {
        outcome := M.Forbidden;
      }
      csrf := session.csrf.View();
      cookie := session.Commit(request.draws.minted);
    }

    method Dispatch(session: RequestSession, attached: LoadedUser?, action: M.Action, draws: M.Draws)
      returns (outcome: M.Outcome)
      modifies session.Repr(), manager, if attached == null then {} else {attached}
      ensures session.csrf == old(session.csrf)
      ensures M.Result(session.Live(), manager.accounts, outcome) ==
              M.Handle(config, old(session.Live()), old(manager.accounts),
                       if attached == null then None else Some(old(attached.fields)), action, draws)
    {
      match action
      case View(_) => outcome := M.Served;
      case Store(_, key, value) => session.Put(key, value); outcome := M.Served;
      case SignInAs(_, id) => outcome := SignInAs(session, id, draws);
      case SignIn(username, password) => outcome := SignIn(session, username, password, draws);
      case SignOut => Logout(session); outcome := M.Redirected;
      case ChangePassword(oldPassword, first, second) =>
        outcome := ChangePassword(session, attached, oldPassword, first, second, draws);
      case ConfirmReset(target, token, now, first, second) =>
        outcome := ConfirmReset(session, target, token, now, first, second, draws);
    }
  }
}
