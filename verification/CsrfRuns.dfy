/** CSRF secrets over one browser's sequential requests, in either storage mode (web/csrf.go). */
module CsrfRuns {
  import opened Options
  import opened AuthModel
  import opened AuthRuns
  import opened AuthSafety

  /** What the browser remembers: the session key and the secret its CSRF cookie unmasks to. */
  datatype Jar = Jar(session: Option<Nonce>, csrf: Option<Nonce>)

  /** The secret the middleware will find for this browser. */
  function Held(config: Config, world: World, jar: Jar): Option<Nonce> {
    StoredSecret(Begin(world.rows, jar.session), config.useSessions, jar.csrf)
  }

  predicate From(jar: Jar, request: Request) {
    request.presented == jar.session && request.csrfCookie == jar.csrf
  }

  /** The secret behind every token handed out once the handler is done. */
  function Handed(config: Config, world: World, request: Request): Nonce {
    var live := ResultOf(config, world, request).live;
    if live.csrf.Some? then live.csrf.value.secret else 0
  }

  function NextJar(config: Config, world: World, jar: Jar, request: Request): Jar {
    var live := ResultOf(config, world, request).live;
    Jar(match CommitCookie(live, request.draws.minted)
        case Keep => jar.session
        case Set(key) => Some(key)
        case Clear => None,
        if live.csrf.Some? && live.csrf.value.cookie.Some? then live.csrf.value.cookie else jar.csrf)
  }

  // ---------------------------------------------------------------- the two ways a secret ends

  /** The request reaches session.Cycle: an anonymous sign-in, or a password change. */
  ghost predicate Rotates(config: Config, world: World, request: Request) {
    var live := Entered(config, world.rows, request);
    && PassesCsrf(live, request) && EffectOf(config, world, request).SignedIn?
    && (request.action.ChangePassword? ||
        USER_ID_KEY !in AfterAuthentication(live, world.accounts, config.sessionSecret).values)
  }

  /** The session is flushed and not cycled afterwards: logout, a switch of users, or a refused session. */
  ghost predicate EndsFlushed(config: Config, world: World, request: Request) {
    var live := Entered(config, world.rows, request);
    var after := AfterAuthentication(live, world.accounts, config.sessionSecret);
    && PassesCsrf(live, request)
    && match EffectOf(config, world, request) {
         case Untouched => false
         case Cleared => true
         case SignedIn(id) =>
           !request.action.ChangePassword? && USER_ID_KEY in after.values && after.values[USER_ID_KEY] != UserRef(id)
       }
  }

  /** A request that takes the secret away from its browser. Only the session mode can lose it. */
  ghost predicate Loses(config: Config, world: World, request: Request) {
    config.useSessions && EndsFlushed(config, world, request)
  }

  // ---------------------------------------------------------------- what each operation does to it

  predicate SameMode(config: Config, live: Live) {
    live.csrf.Some? && live.csrf.value.useSessions == config.useSessions
  }

  /** The stored copy is the secret in memory. */
  predicate Synced(config: Config, live: Live) {
    && SameMode(config, live)
    && if config.useSessions
       then CSRF_KEY in live.values && live.values[CSRF_KEY] == CsrfSecret(live.csrf.value.secret) &&
            live.status == Modified
       else live.csrf.value.cookie == Some(live.csrf.value.secret)
  }

  /** There is no stored copy any more. */
  predicate Lost(config: Config, live: Live) {
    && SameMode(config, live) && config.useSessions
    && CSRF_KEY !in live.values && live.status != Unmodified
    && (live.status == Destroyed ==> live.token == None)
  }

  lemma CycleSyncs(config: Config, live: Live, key: Nonce, drawn: Nonce)
    requires SameMode(config, live)
    ensures Synced(config, Cycle(live, key, drawn)) && Cycle(live, key, drawn).csrf.value.secret == drawn
    ensures AuthPart(Cycle(live, key, drawn).values) == AuthPart(live.values)
  {
  }

  lemma FlushLoses(config: Config, live: Live)
    requires Synced(config, live)
    ensures if config.useSessions then Lost(config, Flush(live)) else Synced(config, Flush(live))
    ensures Flush(live).csrf == live.csrf
  {
  }

  lemma LoginSecret(config: Config, live: Live, user: User, secret: string, key: Nonce, drawn: Nonce)
    requires Synced(config, live) || (Lost(config, live) && live.values == map[])
    ensures var after := Login(live, user, secret, key, drawn);
            var switches := USER_ID_KEY in live.values && live.values[USER_ID_KEY] != UserRef(user.id);
            && (if config.useSessions && switches then Lost(config, after) else Synced(config, after))
            && after.csrf.value.secret == (if USER_ID_KEY !in live.values then drawn else live.csrf.value.secret)
  {
    CycleSyncs(config, live, key, drawn);
    if Synced(config, live) {
      FlushLoses(config, live);
    }
    hide Cycle, Flush;
  }

  lemma EnteredSynced(config: Config, world: World, request: Request)
    ensures Synced(config, Entered(config, world.rows, request))
    ensures var stored := StoredSecret(Begin(world.rows, request.presented), config.useSessions, request.csrfCookie);
            Entered(config, world.rows, request).csrf.value.secret ==
            if stored.Some? then stored.value else request.draws.secret
  {
  }

  lemma AuthenticatedSecret(config: Config, world: World, live: Live)
    requires Synced(config, live)
    ensures var after := AfterAuthentication(live, world.accounts, config.sessionSecret);
            && (after == live || after == Flush(live)) && after.csrf == live.csrf
            && if config.useSessions && after != live then Lost(config, after) && after.values == map[]
               else Synced(config, after)
  {
    FlushLoses(config, live);
    hide Synced, Lost;
  }

  /** A sign-in rotates an anonymous session's secret, keeps the user's own, and loses another user's. */
  lemma SignInSecret(config: Config, world: World, request: Request)
    requires Good(world) && Enabled(world, Step.Serve(request))
    requires PassesCsrf(Entered(config, world.rows, request), request)
    requires EffectOf(config, world, request).SignedIn? && !request.action.ChangePassword?
    ensures var entered := Entered(config, world.rows, request);
            var before := AfterAuthentication(entered, world.accounts, config.sessionSecret).values;
            var live := ResultOf(config, world, request).live;
            var id := EffectOf(config, world, request).id;
            var switches := USER_ID_KEY in before && before[USER_ID_KEY] != UserRef(id);
            && (if config.useSessions && switches then Lost(config, live) else Synced(config, live))
            && live.csrf.value.secret ==
               if USER_ID_KEY !in before then request.draws.rotated else entered.csrf.value.secret
  {
    var live, id := Entered(config, world.rows, request), EffectOf(config, world, request).id;
    EnteredSynced(config, world, request);
    AuthenticatedSecret(config, world, live);
    SignedInBySignIn(config, world, request, id);
    SignInIsLogin(config, world, request, id);
    assert world.accounts.users[id].id == id;
    hide ResultOf, EffectOf, Entered, Login, AfterAuthentication, PassesCsrf;
    var after := AfterAuthentication(live, world.accounts, config.sessionSecret);
    LoginSecret(config, after, world.accounts.users[id], config.sessionSecret,
                request.draws.key, request.draws.rotated);
  }

  lemma ChangeSecret(config: Config, world: World, request: Request)
    requires Good(world) && Enabled(world, Step.Serve(request))
    requires request.action.ChangePassword? && EffectOf(config, world, request).SignedIn?
    ensures var live := ResultOf(config, world, request).live;
            Synced(config, live) && live.csrf.value.secret == request.draws.rotated
  {
    var live := Entered(config, world.rows, request);
    EnteredSynced(config, world, request);
    var attached := Attached(live, world.accounts, config.sessionSecret);
    AttachedLeavesSession(live, world.accounts, config.sessionSecret);
    var draws := request.draws;
    CycleSyncs(config, live, draws.key, draws.rotated);
    var cycled := Cycle(live, draws.key, draws.rotated);
    var changed := attached.value.(encoding := Encode(Some(request.action.newPassword1), draws.salt));
    LoginSecret(config, cycled, changed, config.sessionSecret, draws.key, draws.rotated);
    hide Entered, PassesCsrf, AfterAuthentication, Attached, NonBlank, ValidNewPasswords, Authenticate;
    hide Cycle, Login, Synced, Lost;
    assert ResultOf(config, world, request).live ==
           Login(cycled, changed, config.sessionSecret, draws.key, draws.rotated);
  }

  /** Every other request leaves the session as Authentication did, stores one value, or logs out. */
  lemma PlainSecret(config: Config, world: World, request: Request)
    requires Good(world) && Enabled(world, Step.Serve(request))
    requires PassesCsrf(Entered(config, world.rows, request), request) && !EffectOf(config, world, request).SignedIn?
    ensures var entered := Entered(config, world.rows, request);
            var after := AfterAuthentication(entered, world.accounts, config.sessionSecret);
            var live := ResultOf(config, world, request).live;
            live == after || (request.action.SignOut? && live == Flush(after)) ||
            (request.action.Store? && live == Put(after, request.action.key, request.action.value))
  {
    var live := Entered(config, world.rows, request);
    var attached := Attached(live, world.accounts, config.sessionSecret);
    if attached.Some? {
      AttachedLeavesSession(live, world.accounts, config.sessionSecret);
    }
    hide Entered, PassesCsrf, AfterAuthentication, Attached, NonBlank, ValidNewPasswords, Authenticate;
    hide CheckReset, Login, Cycle;
  }

  /** The end of a request: the stored copy is in step, or lost exactly when the request loses it. */
  lemma HandledSecret(config: Config, world: World, request: Request)
    requires Good(world) && Enabled(world, Step.Serve(request))
    ensures var live := ResultOf(config, world, request).live;
            && (if Loses(config, world, request) then Lost(config, live) else Synced(config, live))
            && live.csrf.value.secret ==
               if Rotates(config, world, request) then request.draws.rotated
               else Entered(config, world.rows, request).csrf.value.secret
  {
    var live := Entered(config, world.rows, request);
    EnteredSynced(config, world, request);
    if PassesCsrf(live, request) {
      var after := AfterAuthentication(live, world.accounts, config.sessionSecret);
      AuthenticatedSecret(config, world, live);
      if EffectOf(config, world, request).SignedIn? && !request.action.ChangePassword? {
        SignInSecret(config, world, request);
        hide ResultOf, EffectOf, Entered, Login, AfterAuthentication, Synced, Lost;
      } else if EffectOf(config, world, request).SignedIn? {
        ChangeSecret(config, world, request);
      } else {
        PlainSecret(config, world, request);
      }
    }
  }

  /**
   * After every request, what the browser holds is the secret in memory; the one exception is a
   * request in session mode that ends flushed, after which it holds nothing.
   */
  lemma HeldAfterRequest(config: Config, world: World, jar: Jar, request: Request)
    requires Good(world) && Enabled(world, Step.Serve(request)) && From(jar, request)
    ensures Held(config, Next(config, world, Step.Serve(request)), NextJar(config, world, jar, request)) ==
            if Loses(config, world, request) then None else Some(Handed(config, world, request))
    ensures Handed(config, world, request) ==
            if Rotates(config, world, request) then request.draws.rotated
            else if Held(config, world, jar).Some? then Held(config, world, jar).value
            else request.draws.secret
  {
    HandledSecret(config, world, request);
    EnteredSynced(config, world, request);
    hide ResultOf, Entered, Rotates, Loses;
  }

  /**
   * A logout never rotates: in cookie mode the secret in force stays the one the browser holds, and in
   * session mode it is lost with the session.
   */
  lemma LogoutNeverRotates(config: Config, world: World, jar: Jar, request: Request)
    requires Good(world) && Enabled(world, Step.Serve(request)) && From(jar, request)
    requires request.action.SignOut? && PassesCsrf(Entered(config, world.rows, request), request)
    ensures var held := Held(config, Next(config, world, Step.Serve(request)), NextJar(config, world, jar, request));
            if config.useSessions then held == None
            else held == Some(Entered(config, world.rows, request).csrf.value.secret) &&
                 (Held(config, world, jar).Some? ==> held == Held(config, world, jar))
  {
    HeldAfterRequest(config, world, jar, request);
    EnteredSynced(config, world, request);
    assert Handed(config, world, request) == Entered(config, world.rows, request).csrf.value.secret by {
      HandledSecret(config, world, request);
    }
    hide ResultOf, Entered, PassesCsrf;
  }

  /**
   * In session mode even a request that only looks, with its secret already stored, ends with a modified
   * session, so its row is written and its cookie sent again.
   */
  lemma StoredSecretIsWrittenAgain(config: Config, world: World, request: Request)
    requires Good(world) && Enabled(world, Step.Serve(request)) && config.useSessions
    requires StoredSecret(Begin(world.rows, request.presented), true, request.csrfCookie).Some?
    requires EffectOf(config, world, request) == Untouched
    ensures request.presented.Some?
    ensures ResultOf(config, world, request).live.status == Modified
    ensures CommitCookie(ResultOf(config, world, request).live, request.draws.minted) == Set(request.presented.value)
  {
    HandledSecret(config, world, request);
    Footprint(config, world, request);
    LoadedKey(world, request.presented);
    hide ResultOf, EffectOf, Begin, Entered;
  }

  // ---------------------------------------------------------------- runs of one browser

  /** A request of this browser, or anything else that happens. */
  datatype Event = Mine(request: Request) | Other(step: Step)

  /** The step neither presents nor drops the browser's session key. */
  predicate Apart(step: Step, session: Option<Nonce>) {
    session.Some? ==> !(step.Serve? && step.request.presented == session) && step != DropSession(session.value)
  }

  predicate Proceeds(config: Config, world: World, jar: Jar, events: seq<Event>)
    decreases |events|
  {
    events == [] ||
    match events[0]
    case Mine(request) =>
      From(jar, request) && Enabled(world, Step.Serve(request)) &&
      Proceeds(config, Next(config, world, Step.Serve(request)), NextJar(config, world, jar, request), events[1..])
    case Other(step) =>
      Enabled(world, step) && (config.useSessions ==> Apart(step, jar.session)) &&
      Proceeds(config, Next(config, world, step), jar, events[1..])
  }

  function Finally(config: Config, world: World, jar: Jar, events: seq<Event>): (World, Jar)
    decreases |events|
  {
    if events == [] then (world, jar)
    else
      match events[0]
      case Mine(request) =>
        Finally(config, Next(config, world, Step.Serve(request)), NextJar(config, world, jar, request), events[1..])
      case Other(step) => Finally(config, Next(config, world, step), jar, events[1..])
  }

  /** Some request of this browser rotated the secret or lost it. */
  ghost predicate Ended(config: Config, world: World, jar: Jar, events: seq<Event>)
    decreases |events|
  {
    events != [] &&
    match events[0]
    case Mine(request) =>
      Rotates(config, world, request) || Loses(config, world, request) ||
      Ended(config, Next(config, world, Step.Serve(request)), NextJar(config, world, jar, request), events[1..])
    case Other(step) => Ended(config, Next(config, world, step), jar, events[1..])
  }

  /** The browser's session key, if any, was drawn at some time. */
  predicate Known(world: World, jar: Jar) {
    jar.session.Some? ==> jar.session.value in world.used
  }

  lemma RowStays(config: Config, world: World, step: Step, key: Nonce)
    requires Good(world) && Enabled(world, step) && key in world.rows && Apart(step, Some(key))
    ensures key in Next(config, world, step).rows && Next(config, world, step).rows[key] == world.rows[key]
  {
    hide ResultOf, EffectOf, Begin;
    if step.Serve? {
      Footprint(config, world, step.request);
      LoadedKey(world, step.request.presented);
    }
  }

  lemma OthersLeaveHeld(config: Config, world: World, jar: Jar, step: Step)
    requires Good(world) && Enabled(world, step) && Known(world, jar)
    requires config.useSessions ==> Apart(step, jar.session)
    ensures Held(config, Next(config, world, step), jar) == Held(config, world, jar)
    ensures Known(Next(config, world, step), jar)
  {
    if jar.session.Some? {
      RowStep(config, world, step, jar.session.value);
      if config.useSessions && jar.session.value in world.rows {
        RowStays(config, world, step, jar.session.value);
      }
    }
  }

  lemma MineKeepsKnown(config: Config, world: World, jar: Jar, request: Request)
    requires Good(world) && Enabled(world, Step.Serve(request)) && From(jar, request) && Known(world, jar)
    ensures Known(Next(config, world, Step.Serve(request)), NextJar(config, world, jar, request))
  {
    hide ResultOf, EffectOf, Begin;
    Footprint(config, world, request);
    LoadedKey(world, request.presented);
  }

  lemma {:induction false} HeldOverRun(config: Config, world: World, jar: Jar, events: seq<Event>, secret: Nonce)
    requires Good(world) && Known(world, jar) && Proceeds(config, world, jar, events)
    requires secret in world.used
    ensures var (world', jar') := Finally(config, world, jar, events);
            Good(world') && Known(world', jar') && secret in world'.used &&
            (Held(config, world', jar') == Some(secret)
             <==> Held(config, world, jar) == Some(secret) && !Ended(config, world, jar, events))
    decreases |events|
  {
    if events != [] {
      match events[0]
      case Mine(request) =>
        HeldAfterRequest(config, world, jar, request);
        MineKeepsKnown(config, world, jar, request);
        GoodNext(config, world, Step.Serve(request));
        hide ResultOf, Held, Rotates, Loses, NextJar, Handed, Good, Known;
        HeldOverRun(config, Next(config, world, Step.Serve(request)), NextJar(config, world, jar, request),
                    events[1..], secret);
      case Other(step) =>
        OthersLeaveHeld(config, world, jar, step);
        GoodNext(config, world, step);
        hide ResultOf, Held, Rotates, Loses, NextJar, Handed, Good, Known;
        HeldOverRun(config, Next(config, world, step), jar, events[1..], secret);
    }
  }

  /** The request's token is accepted. */
  predicate Accepted(config: Config, world: World, request: Request) {
    request.token == Some(Entered(config, world.rows, request).csrf.value.secret)
  }

  /**
   * The exact lifetime of a token. A token minted from the secret a browser holds is accepted on that
   * browser's request at the end of any run exactly when no request of the browser in between reached
   * Cycle and, in session mode, none ended flushed. Other clients' steps never matter, except that in
   * session mode nobody else uses the browser's session key.
   */
  lemma TokenLifetime(config: Config, world: World, jar: Jar, events: seq<Event>, secret: Nonce, request: Request)
    requires Good(world) && Known(world, jar) && Proceeds(config, world, jar, events)
    requires Held(config, world, jar) == Some(secret) && secret in world.used
    requires var (world', jar') := Finally(config, world, jar, events);
             From(jar', request) && Enabled(world', Step.Serve(request))
    requires request.token == Some(secret)
    ensures Accepted(config, Finally(config, world, jar, events).0, request) <==> !Ended(config, world, jar, events)
  {
    HeldOverRun(config, world, jar, events, secret);
    var (world', jar') := Finally(config, world, jar, events);
    EnteredSynced(config, world', request);
    assert Held(config, world', jar') ==
           StoredSecret(Begin(world'.rows, request.presented), config.useSessions, request.csrfCookie);
    hide Entered, Held, Finally, Ended;
  }

  /** A token handed out by one request is accepted on the browser's next one unless the request lost the secret. */
  lemma HandedTokenVerifiesNext(config: Config, world: World, jar: Jar, request: Request, next: Request)
    requires Good(world) && Enabled(world, Step.Serve(request)) && From(jar, request)
    requires Held(config, world, jar).Some? ==> Held(config, world, jar).value in world.used
    requires From(NextJar(config, world, jar, request), next)
    requires Enabled(Next(config, world, Step.Serve(request)), Step.Serve(next))
    requires next.token == Some(Handed(config, world, request))
    ensures Accepted(config, Next(config, world, Step.Serve(request)), next) <==> !Loses(config, world, request)
  {
    HeldAfterRequest(config, world, jar, request);
    var after := Next(config, world, Step.Serve(request));
    EnteredSynced(config, after, next);
    assert Handed(config, world, request) in after.used;
    assert Held(config, after, NextJar(config, world, jar, request)) ==
           StoredSecret(Begin(after.rows, next.presented), config.useSessions, next.csrfCookie);
    hide Entered, Held, Handed, NextJar, Loses;
  }
}
