/** Safety of the auth machine over whole runs. */
module AuthSafety {
  import opened Options
  import opened AuthModel
  import opened AuthRuns

  /** A request presenting this key is attached this user. */
  ghost predicate Authenticates(config: Config, world: World, key: Nonce, id: Nonce) {
    && key in world.rows && id in world.accounts.users
    && world.accounts.users[id].active
    && Vouches(world.rows[key], world.accounts.users[id], config.sessionSecret)
  }

  // ---------------------------------------------------------------- every reachable state is good

  /** The accounts are as before, or one password was replaced by one under this salt. */
  ghost predicate OnePassword(accounts: Accounts, after: Accounts, salt: Nonce) {
    after == accounts ||
    exists id, raw :: id in accounts.users && after == UpdatePassword(accounts, id, Derived(raw, salt))
  }

  lemma HandledAccounts(config: Config, live: Live, accounts: Accounts, attached: Option<User>, action: Action,
                        draws: Draws)
    requires GoodIds(accounts)
    ensures OnePassword(accounts, Handle(config, live, accounts, attached, action, draws).accounts, draws.salt)
  {
    hide Login, Cycle, NonBlank, ValidNewPasswords, Authenticate, CheckReset, UpdatePassword;
    match action
    case ChangePassword(_, first, _) =>
      assert Encode(Some(first), draws.salt) == Derived(first, draws.salt);
    case ConfirmReset(_, _, _, first, _) =>
      assert Encode(Some(first), draws.salt) == Derived(first, draws.salt);
    case _ =>
  }

  /** What a request can do to the accounts: nothing, or one password replaced by a fresh one. */
  lemma ServedAccounts(config: Config, world: World, request: Request)
    requires GoodIds(world.accounts)
    ensures OnePassword(world.accounts, ResultOf(config, world, request).accounts, request.draws.salt)
  {
    var live := Entered(config, world.rows, request);
    var attached := Attached(live, world.accounts, config.sessionSecret);
    var after := AfterAuthentication(live, world.accounts, config.sessionSecret);
    hide Entered, PassesCsrf, Attached, AfterAuthentication, Handle;
    HandledAccounts(config, after, world.accounts, attached, request.action, request.draws);
  }

  lemma UpdateKeepsGood(used: set<Nonce>, accounts: Accounts, id: Nonce, encoding: Encoding)
    requires GoodAccounts(used, accounts) && Seen(used, encoding)
    ensures GoodAccounts(used, UpdatePassword(accounts, id, encoding))
  {
  }

  lemma MoreUsed(used: set<Nonce>, more: set<Nonce>, accounts: Accounts)
    requires GoodAccounts(used, accounts)
    ensures GoodAccounts(used + more, accounts)
  {
  }

  lemma ServeKeepsAccounts(config: Config, world: World, request: Request)
    requires Good(world)
    ensures GoodAccounts(world.used + DrawSet(request.draws), ResultOf(config, world, request).accounts)
  {
    var after := ResultOf(config, world, request).accounts;
    ServedAccounts(config, world, request);
    hide ResultOf, GoodAccounts;
    MoreUsed(world.used, DrawSet(request.draws), world.accounts);
    if after != world.accounts {
      var id, raw :| id in world.accounts.users &&
                     after == UpdatePassword(world.accounts, id, Derived(raw, request.draws.salt));
      UpdateKeepsGood(world.used + DrawSet(request.draws), world.accounts, id, Derived(raw, request.draws.salt));
    }
  }

  lemma LoadedKey(world: World, presented: Option<Nonce>)
    ensures Begin(world.rows, presented).rows == world.rows
    ensures Begin(world.rows, presented).token ==
            if presented.Some? && presented.value in world.rows then presented else None
    ensures Begin(world.rows, presented).values ==
            if presented.Some? && presented.value in world.rows then world.rows[presented.value] else map[]
  {
  }

  /** The row written back is good, and every other row was there before. */
  lemma FootprintRows(config: Config, world: World, request: Request)
    requires Good(world) && Enabled(world, Step.Serve(request))
    requires GoodAccounts(world.used + DrawSet(request.draws), ResultOf(config, world, request).accounts)
    ensures var live := ResultOf(config, world, request).live;
            var key := CommitKey(live, request.draws.minted);
            && key in world.used + DrawSet(request.draws)
            && GoodRow(world.used + DrawSet(request.draws), live.values)
            && forall k :: k in live.rows ==> k in world.rows && live.rows[k] == world.rows[k]
  {
    hide ResultOf, EffectOf, Begin;
    Footprint(config, world, request);
    LoadedKey(world, request.presented);
    var loaded := Begin(world.rows, request.presented);
    var values := loaded.values;
    assert USER_ID_KEY in values ==>
             loaded.token.Some? && loaded.token.value in world.rows && GoodRow(world.used, values);
    assert AUTH_HASH_KEY in values ==>
             loaded.token.Some? && loaded.token.value in world.rows && GoodRow(world.used, values);
  }

  lemma ServeKeepsGood(config: Config, world: World, request: Request)
    requires Good(world) && Enabled(world, Step.Serve(request))
    ensures Good(Next(config, world, Step.Serve(request)))
  {
    ServeKeepsAccounts(config, world, request);
    FootprintRows(config, world, request);
    hide ResultOf, GoodAccounts;
    var next := Next(config, world, Step.Serve(request));
    forall key | key in next.rows ensures key in next.used && GoodRow(next.used, next.rows[key]) {
      assert key in world.rows ==> GoodRow(world.used, world.rows[key]);
    }
  }

  lemma EditKeepsGood(config: Config, world: World, step: Step)
    requires Good(world) && step.EditUser?
    ensures Good(Next(config, world, step))
  {
    hide ResultOf, GoodRow;
  }

  lemma DeleteKeepsGood(config: Config, world: World, step: Step)
    requires Good(world) && step.DeleteUser?
    ensures Good(Next(config, world, step))
  {
    hide ResultOf, GoodRow;
  }

  lemma DropKeepsGood(config: Config, world: World, step: Step)
    requires Good(world) && step.DropSession?
    ensures Good(Next(config, world, step))
  {
    hide ResultOf, GoodRow, GoodAccounts;
  }

  lemma SetPasswordKeepsGood(config: Config, world: World, step: Step)
    requires Good(world) && Enabled(world, step) && step.SetPassword?
    ensures Good(Next(config, world, step))
  {
    hide ResultOf;
    var user := UserByUsername(world.accounts, step.username);
    MoreUsed(world.used, {step.salt}, world.accounts);
    if user.Some? {
      var encoding := Encode(Some(step.newPassword), step.salt);
      UpdateKeepsGood(world.used + {step.salt}, world.accounts, user.value.id, encoding);
    }
  }

  lemma CreateKeepsGood(config: Config, world: World, step: Step)
    requires Good(world) && Enabled(world, step) && step.CreateUser?
    ensures Good(Next(config, world, step))
  {
    hide ResultOf;
    var a, used := world.accounts, world.used + {step.id, step.salt};
    MoreUsed(world.used, {step.id, step.salt}, a);
    if step.username != "" && step.username !in a.names {
      var user := User(step.id, step.username, step.email, Encode(step.password, step.salt), step.active, None);
      assert GoodAccounts(used, Accounts(a.users[step.id := user], a.names[step.username := step.id]));
    }
  }

  lemma GoodNext(config: Config, world: World, step: Step)
    requires Good(world) && Enabled(world, step)
    ensures Good(Next(config, world, step))
  {
    match step
    case Serve(request) => ServeKeepsGood(config, world, request);
    case CreateUser(_, _, _, _, _, _) => CreateKeepsGood(config, world, step);
    case EditUser(_, _, _, _) => EditKeepsGood(config, world, step);
    case DeleteUser(_) => DeleteKeepsGood(config, world, step);
    case SetPassword(_, _, _) => SetPasswordKeepsGood(config, world, step);
    case DropSession(_) => DropKeepsGood(config, world, step);
    hide *;
  }

  lemma {:induction false} GoodAfter(config: Config, world: World, steps: seq<Step>)
    requires Good(world) && Runs(config, world, steps)
    ensures Good(After(config, world, steps))
    decreases |steps|
  {
    if steps != [] {
      GoodNext(config, world, steps[0]);
      GoodAfter(config, Next(config, world, steps[0]), steps[1..]);
    }
  }

  /** Before the first request: no users, no sessions, nothing drawn. */
  const EMPTY_WORLD := World(Accounts(map[], map[]), map[], {})

  /** Every state a run can reach from the empty tables is good. */
  lemma ReachableIsGood(config: Config, steps: seq<Step>)
    requires Runs(config, EMPTY_WORLD, steps)
    ensures Good(After(config, EMPTY_WORLD, steps))
  {
    assert Good(EMPTY_WORLD);
    GoodAfter(config, EMPTY_WORLD, steps);
  }

  // ---------------------------------------------------------------- what a request is attached

  /**
   * The user that Serve attaches to a request, behind the CSRF middleware in either mode, is exactly the
   * active user whose id the presented session's row holds next to the MAC of that user's current password.
   */
  lemma AttachedExactly(config: Config, world: World, request: Request, user: User)
    requires Good(world)
    ensures Attached(Entered(config, world.rows, request), world.accounts, config.sessionSecret) == Some(user)
       <==> request.presented.Some? && Authenticates(config, world, request.presented.value, user.id) &&
            world.accounts.users[user.id] == user
  {
    var loaded := Begin(world.rows, request.presented);
    var live := Entered(config, world.rows, request);
    SecretKeepsIdentity(loaded.(csrf := live.csrf), live.csrf.value.secret);
    assert AuthPart(live.values) == AuthPart(loaded.values);
    hide Entered;
  }

  // ---------------------------------------------------------------- keys and their rows

  /** Rows of keys that a request does not present are left alone, and old keys never come back. */
  lemma RowStep(config: Config, world: World, step: Step, key: Nonce)
    requires Good(world) && Enabled(world, step) && key in world.used
    ensures var after := Next(config, world, step);
            && key in after.used
            && (key in after.rows ==> key in world.rows)
            && (key in after.rows && !(step.Serve? && step.request.presented == Some(key)) ==>
                  after.rows[key] == world.rows[key])
  {
    hide ResultOf, EffectOf, Begin;
    if step.Serve? {
      Footprint(config, world, step.request);
      LoadedKey(world, step.request.presented);
    }
  }

  /** A session that Authentication flushed never keeps its key. */
  lemma KeptMeansUnflushed(config: Config, world: World, request: Request, key: Nonce)
    requires Good(world) && Enabled(world, Step.Serve(request))
    requires request.presented == Some(key) && key in world.rows
    ensures var live := Entered(config, world.rows, request);
            ResultOf(config, world, request).live.token == Some(key) && PassesCsrf(live, request) ==>
              AfterAuthentication(live, world.accounts, config.sessionSecret) == live
  {
    var live := Entered(config, world.rows, request);
    var after := AfterAuthentication(live, world.accounts, config.sessionSecret);
    if PassesCsrf(live, request) && after != live {
      assert after == Flush(live);
      var attached := Attached(live, world.accounts, config.sessionSecret);
      if attached.Some? {
        AttachedLeavesSession(live, world.accounts, config.sessionSecret);
      }
      hide Entered, PassesCsrf, AfterAuthentication, Attached, NonBlank, Authenticate;
      assert ResultOf(config, world, request).live.token != Some(key);
    }
  }

  /** A presented key that survives its request still names the same user, with a MAC as before or renewed. */
  lemma KeptRowStep(config: Config, world: World, request: Request, key: Nonce)
    requires Good(world) && Enabled(world, Step.Serve(request))
    requires request.presented == Some(key) && key in world.rows
    requires key in Next(config, world, Step.Serve(request)).rows
    ensures NamedUser(Next(config, world, Step.Serve(request)).rows[key]) == NamedUser(world.rows[key])
    ensures var live := Entered(config, world.rows, request);
            AuthPart(Next(config, world, Step.Serve(request)).rows[key]) == AuthPart(world.rows[key]) ||
            (PassesCsrf(live, request) && AfterAuthentication(live, world.accounts, config.sessionSecret) == live &&
             EffectOf(config, world, request).SignedIn?)
  {
    hide ResultOf, Begin;
    Footprint(config, world, request);
    LoadedKey(world, request.presented);
    KeptMeansUnflushed(config, world, request, key);
  }

  /** Once dropped, a key is gone for good: after logout, a flush or a rotation it never has a row again. */
  lemma {:induction false} GoneForever(config: Config, world: World, steps: seq<Step>, key: Nonce)
    requires Good(world) && Runs(config, world, steps)
    requires key in world.used && key !in world.rows
    ensures key !in After(config, world, steps).rows
    decreases |steps|
  {
    if steps != [] {
      RowStep(config, world, steps[0], key);
      GoodNext(config, world, steps[0]);
      GoneForever(config, Next(config, world, steps[0]), steps[1..], key);
    }
  }

  // ---------------------------------------------------------------- session fixation

  /**
   * Key rotation: a key that was ever issued to an anonymous session is never the key of a session
   * that names a user, in any continuation of any reachable state.
   */
  lemma {:induction false} AnonymousKeyNeverNamesUser(config: Config, world: World, steps: seq<Step>, key: Nonce)
    requires Good(world) && Runs(config, world, steps)
    requires key in world.rows && USER_ID_KEY !in world.rows[key]
    ensures key in After(config, world, steps).rows ==> USER_ID_KEY !in After(config, world, steps).rows[key]
    decreases |steps|
  {
    if steps != [] {
      var step, next := steps[0], Next(config, world, steps[0]);
      RowStep(config, world, step, key);
      GoodNext(config, world, step);
      if key in next.rows {
        if step.Serve? && step.request.presented == Some(key) {
          Footprint(config, world, step.request);
        }
        AnonymousKeyNeverNamesUser(config, next, steps[1..], key);
      } else {
        GoneForever(config, next, steps[1..], key);
      }
    }
  }

  // ---------------------------------------------------------------- eviction by a password change

  /** The stored MAC is not the one of the named user's password, and cannot become it. */
  ghost predicate Stale(config: Config, world: World, key: Nonce, id: Nonce, mac: Value) {
    && key in world.used && id in world.used && SeenValue(world.used, mac)
    && (id in world.accounts.users ==> mac != SessionAuthHash(world.accounts.users[id], config.sessionSecret))
    && (key in world.rows ==> AuthPart(world.rows[key]) == (Some(UserRef(id)), Some(mac)))
  }

  /** Each step leaves a user's encoding as it was or replaces it by one never seen. */
  lemma EncodingStep(config: Config, world: World, step: Step, id: Nonce)
    requires Good(world) && Enabled(world, step) && id in world.used
    ensures id in Next(config, world, step).accounts.users ==> id in world.accounts.users
    ensures id in Next(config, world, step).accounts.users ==>
              Next(config, world, step).accounts.users[id].encoding == world.accounts.users[id].encoding ||
              !Seen(world.used, Next(config, world, step).accounts.users[id].encoding)
  {
    hide ResultOf;
    if step.Serve? {
      ServedAccounts(config, world, step.request);
    }
  }

  lemma StaleIsFlushed(config: Config, world: World, request: Request, key: Nonce, id: Nonce, mac: Value)
    requires Good(world) && Stale(config, world, key, id, mac)
    requires request.presented == Some(key) && key in world.rows
    ensures var live := Entered(config, world.rows, request);
            AfterAuthentication(live, world.accounts, config.sessionSecret) != live
  {
    var live := Entered(config, world.rows, request);
    var loaded := Begin(world.rows, request.presented);
    SecretKeepsIdentity(loaded.(csrf := live.csrf), live.csrf.value.secret);
    assert AuthPart(live.values) == AuthPart(world.rows[key]);
  }

  lemma StaleNext(config: Config, world: World, step: Step, key: Nonce, id: Nonce, mac: Value)
    requires Good(world) && Enabled(world, step) && Stale(config, world, key, id, mac)
    ensures Stale(config, Next(config, world, step), key, id, mac)
  {
    var next := Next(config, world, step);
    RowStep(config, world, step, key);
    EncodingStep(config, world, step, id);
    if key in next.rows && step.Serve? && step.request.presented == Some(key) {
      KeptRowStep(config, world, step.request, key);
      StaleIsFlushed(config, world, step.request, key, id, mac);
    }
  }

  lemma {:induction false} StaleForever(config: Config, world: World, steps: seq<Step>, key: Nonce, id: Nonce,
                                        mac: Value)
    requires Good(world) && Runs(config, world, steps) && Stale(config, world, key, id, mac)
    ensures forall user :: !Authenticates(config, After(config, world, steps), key, user)
    decreases |steps|
  {
    if steps != [] {
      StaleNext(config, world, steps[0], key, id, mac);
      GoodNext(config, world, steps[0]);
      StaleForever(config, Next(config, world, steps[0]), steps[1..], key, id, mac);
    }
  }

  /** The step replaced this user's password. */
  ghost predicate Replaces(config: Config, world: World, step: Step, id: Nonce) {
    && id in world.accounts.users && id in Next(config, world, step).accounts.users
    && Next(config, world, step).accounts.users[id].encoding != world.accounts.users[id].encoding
  }

  /** The user whose password this request changed from within the presented session. */
  ghost predicate ChangesOwnPassword(config: Config, world: World, request: Request, id: Nonce) {
    request.action.ChangePassword? && EffectOf(config, world, request) == SignedIn(id)
  }

  /** A changed password puts its session under the fresh key of that request. */
  lemma ChangedOwnPassword(config: Config, world: World, request: Request)
    requires Good(world) && Enabled(world, Step.Serve(request))
    ensures request.action.ChangePassword? && EffectOf(config, world, request).SignedIn? ==>
              ResultOf(config, world, request).live.token == Some(request.draws.key) &&
              ResultOf(config, world, request).live.status == Modified
  {
    if request.action.ChangePassword? && EffectOf(config, world, request).SignedIn? {
      var live := Entered(config, world.rows, request);
      var attached := Attached(live, world.accounts, config.sessionSecret);
      AttachedLeavesSession(live, world.accounts, config.sessionSecret);
      hide Entered, PassesCsrf, AfterAuthentication, Attached, NonBlank, ValidNewPasswords, Authenticate;
      SecretKeepsIdentity(Renew(live, request.draws.key), request.draws.rotated);
    }
  }

  /** A request that replaces a password and keeps its key signs nobody in. */
  lemma ReplacingNeverSignsIn(config: Config, world: World, request: Request, id: Nonce, key: Nonce)
    requires Good(world) && Enabled(world, Step.Serve(request))
    requires Replaces(config, world, Step.Serve(request), id)
    requires request.presented == Some(key) && key in world.rows && key in Next(config, world, Step.Serve(request)).rows
    ensures AuthPart(Next(config, world, Step.Serve(request)).rows[key]) == AuthPart(world.rows[key])
  {
    KeptRowStep(config, world, request, key);
    Footprint(config, world, request);
    ChangedOwnPassword(config, world, request);
  }

  /**
   * Eviction over whole runs. When a step replaces a user's password, whether by a password change, a
   * reset or the management command, no key that named the user before ever authenticates again, in
   * any continuation and even if the user signs in again on it.
   */
  lemma ReplacedPasswordEvicts(config: Config, world: World, step: Step, steps: seq<Step>, id: Nonce, key: Nonce)
    requires Good(world) && Enabled(world, step) && Replaces(config, world, step, id)
    requires Runs(config, Next(config, world, step), steps)
    requires key in world.rows && NamedUser(world.rows[key]) == Some(id)
    ensures forall user :: !Authenticates(config, After(config, Next(config, world, step), steps), key, user)
  {
    var next := Next(config, world, step);
    GoodNext(config, world, step);
    EncodingStep(config, world, step, id);
    RowStep(config, world, step, key);
    var mac := world.rows[key][AUTH_HASH_KEY];
    assert GoodRow(world.used, world.rows[key]);
    if key in next.rows && step.Serve? && step.request.presented == Some(key) {
      ReplacingNeverSignsIn(config, world, step.request, id, key);
    }
    assert Stale(config, next, key, id, mac);
    StaleForever(config, next, steps, key, id, mac);
  }

  /** So no request that presents an evicted key is ever attached a user. */
  lemma EvictedIsNeverAttached(config: Config, world: World, step: Step, steps: seq<Step>, id: Nonce, request: Request)
    requires Good(world) && Enabled(world, step) && Replaces(config, world, step, id)
    requires Runs(config, Next(config, world, step), steps)
    requires request.presented.Some? && request.presented.value in world.rows
    requires NamedUser(world.rows[request.presented.value]) == Some(id)
    ensures var last := After(config, Next(config, world, step), steps);
            Attached(Entered(config, last.rows, request), last.accounts, config.sessionSecret) == None
  {
    var last := After(config, Next(config, world, step), steps);
    ReplacedPasswordEvicts(config, world, step, steps, id, request.presented.value);
    GoodNext(config, world, step);
    GoodAfter(config, Next(config, world, step), steps);
    var attached := Attached(Entered(config, last.rows, request), last.accounts, config.sessionSecret);
    hide Attached, Entered, After, Next, Good, Runs, Enabled, Replaces;
    if attached.Some? {
      AttachedExactly(config, last, request, attached.value);
    }
  }

  lemma ChangeReplaces(config: Config, world: World, request: Request, id: Nonce)
    requires Good(world) && Enabled(world, Step.Serve(request))
    requires ChangesOwnPassword(config, world, request, id)
    ensures id in world.accounts.users && world.accounts.users[id].active
    ensures exists raw :: ResultOf(config, world, request).accounts ==
                          UpdatePassword(world.accounts, id, Derived(raw, request.draws.salt))
  {
    var live := Entered(config, world.rows, request);
    AttachedLeavesSession(live, world.accounts, config.sessionSecret);
    assert Encode(Some(request.action.newPassword1), request.draws.salt) ==
           Derived(request.action.newPassword1, request.draws.salt);
  }

  /**
   * The session that changed the password stays signed in, under a fresh key, and the user's
   * encoding is then the fresh one.
   */
  lemma ChangerStaysSignedIn(config: Config, world: World, request: Request, id: Nonce)
    requires Good(world) && Enabled(world, Step.Serve(request))
    requires ChangesOwnPassword(config, world, request, id)
    ensures Authenticates(config, Next(config, world, Step.Serve(request)), request.draws.key, id)
    ensures Replaces(config, world, Step.Serve(request), id)
  {
    hide ResultOf, EffectOf, Begin;
    ChangedOwnPassword(config, world, request);
    Footprint(config, world, request);
    GoodNext(config, world, Step.Serve(request));
    ChangeReplaces(config, world, request, id);
  }

  // ---------------------------------------------------------------- where a sign-in can come from

  /** The key in force after a request. */
  ghost function Issued(config: Config, world: World, request: Request): Option<Nonce> {
    var live := ResultOf(config, world, request).live;
    if live.status == Modified then Some(CommitKey(live, request.draws.minted)) else live.token
  }

  /** The request signs this user in: by credentials, or by an application's own decision. */
  ghost predicate SignsIn(config: Config, world: World, request: Request, id: Nonce) {
    (request.action.SignIn? || request.action.SignInAs?) && EffectOf(config, world, request) == SignedIn(id)
  }

  /** A key joins when a request presents a member or signs the user in. */
  ghost function Join(config: Config, world: World, step: Step, id: Nonce, held: set<Nonce>): set<Nonce> {
    if step.Serve? && Issued(config, world, step.request).Some? &&
       (SignsIn(config, world, step.request, id) ||
        (step.request.presented.Some? && step.request.presented.value in held))
    then held + {Issued(config, world, step.request).value}
    else held
  }

  /** The keys descended from `held`, or from a sign-in of this user along the way. */
  ghost function Descendants(config: Config, world: World, steps: seq<Step>, id: Nonce, held: set<Nonce>): set<Nonce>
    decreases |steps|
  {
    if steps == [] then held
    else Descendants(config, Next(config, world, steps[0]), steps[1..], id, Join(config, world, steps[0], id, held))
  }

  /** Every row that carries the MAC of this user's current password belongs to `held`. */
  ghost predicate HeldBy(config: Config, world: World, id: Nonce, held: set<Nonce>) {
    id in world.accounts.users ==>
      forall key ::
        key in world.rows && Vouches(world.rows[key], world.accounts.users[id], config.sessionSecret) ==>
          key in held
  }

  /** A row that was there before vouches for the user only if it did before. */
  lemma OldRowVouches(config: Config, world: World, step: Step, id: Nonce, held: set<Nonce>, key: Nonce)
    requires Good(world) && Enabled(world, step) && id in world.used && HeldBy(config, world, id, held)
    requires key in world.rows && id in Next(config, world, step).accounts.users
    requires Vouches(world.rows[key], Next(config, world, step).accounts.users[id], config.sessionSecret)
    ensures key in held
  {
    EncodingStep(config, world, step, id);
    GoodNext(config, world, step);
    hide Next, Runs;
    assert GoodRow(world.used, world.rows[key]);
  }

  lemma SignedInBySignIn(config: Config, world: World, request: Request, id: Nonce)
    requires EffectOf(config, world, request) == SignedIn(id) && !request.action.ChangePassword?
    ensures SignsIn(config, world, request, id)
  {
  }

  lemma ChangeWasAttached(config: Config, world: World, request: Request, id: Nonce)
    requires Good(world) && ChangesOwnPassword(config, world, request, id)
    ensures request.presented.Some? && Authenticates(config, world, request.presented.value, id)
  {
    var live := Entered(config, world.rows, request);
    var loaded := Begin(world.rows, request.presented);
    AttachedLeavesSession(live, world.accounts, config.sessionSecret);
    SecretKeepsIdentity(loaded.(csrf := live.csrf), live.csrf.value.secret);
    assert AuthPart(live.values) == AuthPart(loaded.values);
  }

  lemma UntouchedVouches(config: Config, world: World, request: Request, id: Nonce, held: set<Nonce>)
    requires Good(world) && Enabled(world, Step.Serve(request)) && HeldBy(config, world, id, held) && id in world.used
    requires EffectOf(config, world, request) == Untouched
    requires var next := Next(config, world, Step.Serve(request));
             id in next.accounts.users &&
             Vouches(ResultOf(config, world, request).live.values, next.accounts.users[id], config.sessionSecret)
    ensures request.presented.Some? && request.presented.value in held
  {
    hide ResultOf, EffectOf, Begin;
    Footprint(config, world, request);
    LoadedKey(world, request.presented);
    EncodingStep(config, world, Step.Serve(request), id);
    OldRowVouches(config, world, Step.Serve(request), id, held, request.presented.value);
  }

  /** A request that leaves its session vouching for the user presented a holder or signed the user in. */
  lemma IssuedRowVouches(config: Config, world: World, request: Request, id: Nonce, held: set<Nonce>)
    requires Good(world) && Enabled(world, Step.Serve(request)) && id in world.used && HeldBy(config, world, id, held)
    requires var next := Next(config, world, Step.Serve(request));
             id in next.accounts.users &&
             Vouches(ResultOf(config, world, request).live.values, next.accounts.users[id], config.sessionSecret)
    ensures SignsIn(config, world, request, id) || (request.presented.Some? && request.presented.value in held)
  {
    match EffectOf(config, world, request)
    case Untouched => UntouchedVouches(config, world, request, id, held);
    case Cleared => Footprint(config, world, request);
    case SignedIn(other) =>
      Footprint(config, world, request);
      hide ResultOf, EffectOf, Begin;
      assert other == id by {
        GoodNext(config, world, Step.Serve(request));
      }
      if request.action.ChangePassword? {
        ChangeWasAttached(config, world, request, id);
      } else {
        SignedInBySignIn(config, world, request, id);
      }
  }

  /** After a request, a row vouching for the user is an old one that did before, or the issued one. */
  lemma HeldByRequest(config: Config, world: World, request: Request, id: Nonce, held: set<Nonce>, key: Nonce)
    requires Good(world) && Enabled(world, Step.Serve(request)) && id in world.used && HeldBy(config, world, id, held)
    requires var next := Next(config, world, Step.Serve(request));
             key in next.rows && id in next.accounts.users &&
             Vouches(next.rows[key], next.accounts.users[id], config.sessionSecret)
    ensures key in Join(config, world, Step.Serve(request), id, held)
  {
    var step := Step.Serve(request);
    var live := ResultOf(config, world, request).live;
    hide ResultOf, EffectOf, Begin, GoodAccounts, HeldBy, Vouches;
    Footprint(config, world, request);
    LoadedKey(world, request.presented);
    if live.status == Modified && key == CommitKey(live, request.draws.minted) {
      IssuedRowVouches(config, world, request, id, held);
    } else {
      OldRowVouches(config, world, step, id, held, key);
    }
  }

  lemma HeldByNext(config: Config, world: World, step: Step, id: Nonce, held: set<Nonce>)
    requires Good(world) && Enabled(world, step) && id in world.used && HeldBy(config, world, id, held)
    ensures HeldBy(config, Next(config, world, step), id, Join(config, world, step, id, held))
  {
    var next := Next(config, world, step);
    EncodingStep(config, world, step, id);
    if id in next.accounts.users {
      var user := next.accounts.users[id];
      forall key | key in next.rows && Vouches(next.rows[key], user, config.sessionSecret)
        ensures key in Join(config, world, step, id, held)
      {
        if step.Serve? {
          HeldByRequest(config, world, step.request, id, held, key);
        } else {
          OldRowVouches(config, world, step, id, held, key);
        }
      }
    }
  }

  lemma {:induction false} HeldByAfter(config: Config, world: World, steps: seq<Step>, id: Nonce, held: set<Nonce>)
    requires Good(world) && Runs(config, world, steps) && id in world.used && HeldBy(config, world, id, held)
    ensures HeldBy(config, After(config, world, steps), id, Descendants(config, world, steps, id, held))
    decreases |steps|
  {
    if steps != [] {
      var step := steps[0];
      HeldByNext(config, world, step, id, held);
      GoodNext(config, world, step);
      HeldByAfter(config, Next(config, world, step), steps[1..], id, Join(config, world, step, id, held));
    }
  }

  /** The keys a replaced password spares: the one of the session that made the change, if one did. */
  ghost function Spared(config: Config, world: World, step: Step, id: Nonce): set<Nonce> {
    if step.Serve? && ChangesOwnPassword(config, world, step.request, id) then {step.request.draws.key} else {}
  }

  lemma AfterHeld(config: Config, world: World, step: Step, id: Nonce, steps: seq<Step>, key: Nonce)
    requires Authenticates(config, After(config, Next(config, world, step), steps), key, id)
    ensures forall held :: HeldBy(config, After(config, Next(config, world, step), steps), id, held) ==> key in held
  {
    hide Next, Vouches;
  }

  lemma SignedInMeans(config: Config, world: World, request: Request, id: Nonce)
    requires EffectOf(config, world, request) == SignedIn(id)
    ensures request.action.SignIn? || request.action.SignInAs? || request.action.ChangePassword?
  {
    hide Entered, PassesCsrf, AfterAuthentication, Attached, NonBlank, Authenticate, HandleChangePassword;
  }

  lemma SignInKeepsAccounts(config: Config, world: World, request: Request)
    requires request.action.SignIn? || request.action.SignInAs?
    ensures ResultOf(config, world, request).accounts == world.accounts
  {
    hide Entered, PassesCsrf, AfterAuthentication, Attached, NonBlank, Login;
  }

  /** A request that replaces a password and leaves a session vouching for it changed it from within. */
  lemma IssuedAfterReplacement(config: Config, world: World, request: Request, id: Nonce, key: Nonce)
    requires Good(world) && Enabled(world, Step.Serve(request)) && Replaces(config, world, Step.Serve(request), id)
    requires var next := Next(config, world, Step.Serve(request));
             key in next.rows && Vouches(next.rows[key], next.accounts.users[id], config.sessionSecret)
    ensures ChangesOwnPassword(config, world, request, id) && key == request.draws.key
  {
    var step := Step.Serve(request);
    var live := ResultOf(config, world, request).live;
    hide ResultOf, EffectOf, Begin;
    EncodingStep(config, world, step, id);
    Footprint(config, world, request);
    LoadedKey(world, request.presented);
    assert key in world.rows ==> GoodRow(world.used, world.rows[key]);
    assert live.status == Modified && key == CommitKey(live, request.draws.minted);
    match EffectOf(config, world, request)
    case Untouched =>
    case Cleared =>
    case SignedIn(other) =>
      GoodNext(config, world, step);
      if request.action.SignIn? || request.action.SignInAs? {
        SignInKeepsAccounts(config, world, request);
      } else {
        SignedInMeans(config, world, request, other);
        ChangedOwnPassword(config, world, request);
      }
  }

  /** Right after the replacement no row but the spared one vouches for the user. */
  lemma SparedHoldsAll(config: Config, world: World, step: Step, id: Nonce)
    requires Good(world) && Enabled(world, step) && Replaces(config, world, step, id)
    ensures id in Next(config, world, step).used
    ensures HeldBy(config, Next(config, world, step), id, Spared(config, world, step, id))
  {
    var next := Next(config, world, step);
    EncodingStep(config, world, step, id);
    GoodNext(config, world, step);
    forall key | key in next.rows && Vouches(next.rows[key], next.accounts.users[id], config.sessionSecret)
      ensures key in Spared(config, world, step, id)
    {
      assert key in world.rows ==> GoodRow(world.used, world.rows[key]);
      if step.Serve? {
        hide ResultOf, EffectOf, Begin;
        IssuedAfterReplacement(config, world, step.request, id, key);
      }
    }
  }

  /**
   * Whatever authenticates as a user after any replacement of that user's password, in any continuation,
   * descends from the session that made the change or from a sign-in of the user made since; after a
   * reset or the management command, from such a sign-in alone.
   */
  lemma OnlyDescendantsAuthenticate(config: Config, world: World, step: Step, id: Nonce, steps: seq<Step>, key: Nonce)
    requires Good(world) && Enabled(world, step) && Replaces(config, world, step, id)
    requires Runs(config, Next(config, world, step), steps)
    requires Authenticates(config, After(config, Next(config, world, step), steps), key, id)
    ensures key in Descendants(config, Next(config, world, step), steps, id, Spared(config, world, step, id))
  {
    hide ResultOf, EffectOf, Begin, Vouches, GoodAccounts, GoodRow;
    GoodNext(config, world, step);
    SparedHoldsAll(config, world, step, id);
    hide Good, Next, Spared, HeldBy;
    HeldByAfter(config, Next(config, world, step), steps, id, Spared(config, world, step, id));
    AfterHeld(config, world, step, id, steps, key);
  }

  // ---------------------------------------------------------------- data across a sign-in

  /** What is left of a session's own data. */
  function OwnData(values: Data): Data {
    map key | key in values && !Reserved(key) :: values[key]
  }

  lemma SecretKeepsOwnData(live: Live, secret: Nonce)
    ensures OwnData(SaveSecret(live, secret).values) == OwnData(live.values)
  {
  }

  lemma LoginData(live: Live, user: User, secret: string, key: Nonce, drawn: Nonce)
    ensures OwnData(Login(live, user, secret, key, drawn).values) ==
            if USER_ID_KEY in live.values && live.values[USER_ID_KEY] != UserRef(user.id) then map[]
            else OwnData(live.values)
    ensures Login(live, user, secret, key, drawn).status == Modified
  {
    SecretKeepsOwnData(Renew(live, key), drawn);
    SecretKeepsIdentity(Renew(live, key), drawn);
  }

  /** A sign-in runs Login on the session as Authentication left it. */
  lemma SignInIsLogin(config: Config, world: World, request: Request, id: Nonce)
    requires Good(world) && Enabled(world, Step.Serve(request)) && SignsIn(config, world, request, id)
    ensures id in world.accounts.users
    ensures var live := Entered(config, world.rows, request);
            ResultOf(config, world, request).live ==
            Login(AfterAuthentication(live, world.accounts, config.sessionSecret), world.accounts.users[id],
                  config.sessionSecret, request.draws.key, request.draws.rotated)
  {
    hide Entered, PassesCsrf, AfterAuthentication, Attached, NonBlank, Login;
    if request.action.SignIn? {
      var matching := Authenticate(world.accounts, request.action.username, request.action.password);
      if matching.Matched? {
        MatchedIsStored(world.accounts, request.action.username, request.action.password);
      }
    }
  }

  lemma EmptyOwnData()
    ensures OwnData(map[]) == map[]
  {
  }

  /** The session a sign-in finds: the presented one as it was stored, or one that Authentication emptied. */
  lemma DataBeforeSignIn(config: Config, world: World, request: Request, key: Nonce)
    requires request.presented == Some(key) && key in world.rows
    ensures var live := Entered(config, world.rows, request);
            var after := AfterAuthentication(live, world.accounts, config.sessionSecret);
            if after == live
            then AuthPart(after.values) == AuthPart(world.rows[key]) &&
                 OwnData(after.values) == OwnData(world.rows[key])
            else after.values == map[] && USER_ID_KEY in world.rows[key]
  {
    var live := Entered(config, world.rows, request);
    var loaded := Begin(world.rows, request.presented);
    SecretKeepsIdentity(loaded.(csrf := live.csrf), live.csrf.value.secret);
    SecretKeepsOwnData(loaded.(csrf := live.csrf), live.csrf.value.secret);
    assert AuthPart(live.values) == AuthPart(world.rows[key]);
    var after := AfterAuthentication(live, world.accounts, config.sessionSecret);
    assert after == live || after == Flush(live);
  }

  /**
   * Signing in from an anonymous session carries all of its data over to a fresh key and drops the
   * old one; signing in as somebody else carries nothing over.
   */
  lemma SignInMovesData(config: Config, world: World, request: Request, key: Nonce, id: Nonce)
    requires Good(world) && Enabled(world, Step.Serve(request)) && SignsIn(config, world, request, id)
    requires request.presented == Some(key) && key in world.rows
    requires NamedUser(world.rows[key]) != Some(id)
    ensures var next := Next(config, world, Step.Serve(request));
            && key !in next.rows
            && Issued(config, world, request).Some? && Issued(config, world, request).value in next.rows
            && Authenticates(config, next, Issued(config, world, request).value, id) == world.accounts.users[id].active
            && OwnData(next.rows[Issued(config, world, request).value]) ==
               if USER_ID_KEY in world.rows[key] then map[] else OwnData(world.rows[key])
  {
    hide ResultOf, EffectOf, Begin, Entered, AfterAuthentication, Login, OwnData;
    var after := AfterAuthentication(Entered(config, world.rows, request), world.accounts, config.sessionSecret);
    DataBeforeSignIn(config, world, request, key);
    SignInIsLogin(config, world, request, id);
    LoginData(after, world.accounts.users[id], config.sessionSecret, request.draws.key, request.draws.rotated);
    Footprint(config, world, request);
    LoadedKey(world, request.presented);
    SignInKeepsAccounts(config, world, request);
    assert OwnData(map[]) == map[] by {
      EmptyOwnData();
    }
  }

  /** A session of a deactivated or deleted user does not come back when the user does. */
  lemma InactiveSessionIsGone(config: Config, world: World, request: Request, key: Nonce, steps: seq<Step>)
    requires Good(world) && Enabled(world, Step.Serve(request))
    requires request.presented == Some(key) && key in world.rows
    requires NamedUser(world.rows[key]).Some?
    requires UserByID(world.accounts, NamedUser(world.rows[key]).value).Some? ==>
               !UserByID(world.accounts, NamedUser(world.rows[key]).value).value.active
    requires PassesCsrf(Entered(config, world.rows, request), request)
    requires Runs(config, Next(config, world, Step.Serve(request)), steps)
    ensures key !in After(config, Next(config, world, Step.Serve(request)), steps).rows
  {
    var live := Entered(config, world.rows, request);
    var loaded := Begin(world.rows, request.presented);
    SecretKeepsIdentity(loaded.(csrf := live.csrf), live.csrf.value.secret);
    assert AuthPart(live.values) == AuthPart(loaded.values);
    assert AfterAuthentication(live, world.accounts, config.sessionSecret) != live;
    KeptMeansUnflushed(config, world, request, key);
    Footprint(config, world, request);
    LoadedKey(world, request.presented);
    GoodNext(config, world, Step.Serve(request));
    hide ResultOf, EffectOf, Begin, Entered, AfterAuthentication;
    GoneForever(config, Next(config, world, Step.Serve(request)), steps, key);
  }

  // ---------------------------------------------------------------- reset tokens

  ghost predicate ResetSucceeds(config: Config, world: World, step: Step, token: ResetToken) {
    && step.Serve? && step.request.action.ConfirmReset? && step.request.action.resetToken == token
    && ResultOf(config, world, step.request).outcome == Redirected
  }

  /** The token's user no longer has the encoding it was made from, and never will again. */
  ghost predicate Spent(world: World, token: ResetToken) {
    && token.mac.id in world.used && Seen(world.used, token.mac.encoding)
    && (token.mac.id in world.accounts.users ==> world.accounts.users[token.mac.id].encoding != token.mac.encoding)
  }

  /** A confirmation goes through only while the user still has the encoding the token was made from. */
  lemma SuccessNeedsEncoding(config: Config, world: World, step: Step, token: ResetToken)
    requires Good(world) && Enabled(world, step) && ResetSucceeds(config, world, step, token)
    ensures token.mac.id in world.accounts.users
    ensures world.accounts.users[token.mac.id].encoding == token.mac.encoding
    ensures token.timestamp == token.mac.timestamp
    ensures exists raw :: Next(config, world, step).accounts ==
                          UpdatePassword(world.accounts, token.mac.id, Derived(raw, step.request.draws.salt))
  {
    hide Entered, PassesCsrf, AfterAuthentication, Attached, ValidNewPasswords;
    var action := step.request.action;
    var salt := step.request.draws.salt;
    assert Encode(Some(action.newPassword1), salt) == Derived(action.newPassword1, salt);
  }

  lemma {:induction false} SpentForever(config: Config, world: World, steps: seq<Step>, token: ResetToken)
    requires Good(world) && Runs(config, world, steps) && Spent(world, token)
    ensures Good(After(config, world, steps)) && Spent(After(config, world, steps), token)
    decreases |steps|
  {
    if steps != [] {
      EncodingStep(config, world, steps[0], token.mac.id);
      GoodNext(config, world, steps[0]);
      SpentForever(config, Next(config, world, steps[0]), steps[1..], token);
    }
  }

  /** Replacing the password of a token's user spends the token, whoever does it. */
  lemma ReplacedPasswordSpends(config: Config, world: World, step: Step, token: ResetToken)
    requires Good(world) && Enabled(world, step) && Replaces(config, world, step, token.mac.id)
    requires token.mac.encoding == world.accounts.users[token.mac.id].encoding
    ensures Spent(Next(config, world, step), token)
  {
    EncodingStep(config, world, step, token.mac.id);
    GoodNext(config, world, step);
  }

  /** Single use: in any run, at most one confirmation succeeds for a token. */
  lemma ResetTokenSingleUse(config: Config, world: World, first: Step, between: seq<Step>, second: Step,
                            token: ResetToken)
    requires Good(world) && Enabled(world, first) && ResetSucceeds(config, world, first, token)
    requires Runs(config, Next(config, world, first), between)
    requires Enabled(After(config, Next(config, world, first), between), second)
    ensures !ResetSucceeds(config, After(config, Next(config, world, first), between), second, token)
  {
    SuccessNeedsEncoding(config, world, first, token);
    GoodNext(config, world, first);
    assert Replaces(config, world, first, token.mac.id);
    ReplacedPasswordSpends(config, world, first, token);
    SpentForever(config, Next(config, world, first), between, token);
    var later := After(config, Next(config, world, first), between);
    if ResetSucceeds(config, later, second, token) {
      SuccessNeedsEncoding(config, later, second, token);
    }
  }
}
