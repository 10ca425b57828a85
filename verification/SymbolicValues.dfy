/**
 * Why the auth machine may treat encodings and reset tokens as constructors: written out as the strings
 * of auth/password.go and auth/token.go they compare, check and expire exactly as the constructors do.
 */
module SymbolicValues {
  import opened Options
  import opened GoStrings
  import opened Numerals
  import opened Base64
  import opened AuthRuns
  import opened AuthSafety
  import opened CsrfRuns
  import C = CsrfTokens
  import M = AuthModel
  import P = Passwords
  import R = ResetTokens

  /** The texts behind the machine's values: ids, the random texts, and formatted instants. */
  datatype Texts = Texts(id: M.Nonce -> string, random: M.Nonce -> string, instant: int -> string)

  predicate InstantText(text: string) {
    text != "" && '\0' !in text
  }

  /** Different values have different texts; no text holds a separator of the codecs, and instants are not blank. */
  ghost predicate Faithful(t: Texts) {
    && (forall a, b :: t.id(a) == t.id(b) ==> a == b)
    && (forall a, b :: t.random(a) == t.random(b) ==> a == b)
    && (forall a, b :: t.instant(a) == t.instant(b) ==> a == b)
    && (forall a :: '\0' !in t.id(a))
    && (forall a :: '$' !in t.random(a) && '\0' !in t.random(a))
    && (forall a :: InstantText(t.instant(a)))
  }

  // ---------------------------------------------------------------- passwords

  function Written(t: Texts, encoding: M.Encoding, kdf: P.Kdf): string {
    match encoding
    case Derived(raw, salt) => P.Encode(Some(raw), t.random(salt), kdf)
    case Unusable(nonce) => P.Encode(None, t.random(nonce), kdf)
    case Foreign(text) => text
  }

  /** Two passwords that do not collide under this salt. */
  predicate Apart(t: Texts, a: string, b: string, salt: M.Nonce, kdf: P.Kdf) {
    kdf(a, t.random(salt), P.ITERATIONS, P.KEY_LENGTH) == kdf(b, t.random(salt), P.ITERATIONS, P.KEY_LENGTH) ==> a == b
  }

  /** A text the hasher refuses to read: another algorithm's, or malformed. */
  predicate Refused(text: string, kdf: P.Kdf) {
    !P.Check(None, text, kdf).Checked?
  }

  /**
   * Checking the written encoding answers as the machine's check does, error for error, and never asks for
   * an update.
   */
  lemma CheckRefines(t: Texts, raw: string, encoding: M.Encoding, kdf: P.Kdf)
    requires Faithful(t) && P.GivesLength(kdf) && (encoding.Foreign? ==> Refused(encoding.text, kdf))
    requires encoding.Derived? ==> Apart(t, raw, encoding.raw, encoding.salt, kdf)
    ensures M.CheckPassword(raw, encoding).Checked? ==>
              P.Check(Some(raw), Written(t, encoding, kdf), kdf) == P.Checked(M.CheckPassword(raw, encoding).ok, false)
    ensures M.CheckPassword(raw, encoding) == M.CheckFailed <==>
            !P.Check(Some(raw), Written(t, encoding, kdf), kdf).Checked?
  {
    match encoding
    case Derived(password, salt) => P.EncodeCheckRoundTrip(password, raw, t.random(salt), kdf);
    case Unusable(nonce) =>
    case Foreign(_) =>
  }

  /** Written encodings are equal exactly when the encodings are. */
  lemma WrittenInjective(t: Texts, a: M.Encoding, b: M.Encoding, kdf: P.Kdf)
    requires Faithful(t) && !a.Foreign? && !b.Foreign?
    requires a.Derived? && b.Derived? ==> Apart(t, a.raw, b.raw, a.salt, kdf)
    ensures Written(t, a, kdf) == Written(t, b, kdf) <==> a == b
  {
    if a.Derived? {
      P.EncodedParts(a.raw, t.random(a.salt), kdf);
    }
    if b.Derived? {
      P.EncodedParts(b.raw, t.random(b.salt), kdf);
    }
    if a.Derived? && b.Derived? {
      P.EncodingsDiffer(a.raw, t.random(a.salt), b.raw, t.random(b.salt), kdf);
    } else if a.Unusable? && b.Unusable? {
      assert Written(t, a, kdf)[1..] == t.random(a.nonce) && Written(t, b, kdf)[1..] == t.random(b.nonce);
    } else {
      assert Written(t, a, kdf)[0] != Written(t, b, kdf)[0];
    }
  }

  lemma {:induction false} JoinLacks(parts: seq<string>, sep: string, c: char)
    requires c !in sep && forall p :: p in parts ==> c !in p
    ensures c !in GoStrings.Join(parts, sep)
  {
    if parts != [] {
      JoinLacks(parts[1..], sep, c);
    }
  }

  /** An encoding of another algorithm is whatever is stored; the framework's own never hold a NUL. */
  predicate NulFree(encoding: M.Encoding) {
    encoding.Foreign? ==> '\0' !in encoding.text
  }

  lemma Base64LacksNul(s: string)
    requires forall c :: c in s ==> c == '=' || InAlphabet(c, false)
    ensures '\0' !in s
  {
  }

  lemma FourLackNul(a: string, b: string, c: string, d: string)
    requires '\0' !in a && '\0' !in b && '\0' !in c && '\0' !in d
    ensures '\0' !in GoStrings.Join([a, b, c, d], "$")
  {
    hide GoStrings.Join;
    JoinLacks([a, b, c, d], "$", '\0');
  }

  lemma EncodedLacksNul(raw: string, salt: string, kdf: P.Kdf)
    requires '\0' !in salt
    ensures '\0' !in P.Encode(Some(raw), salt, kdf)
  {
    hide FormatInt, EncodeStd, GoStrings.Join;
    var digest := EncodeStd(kdf(raw, salt, P.ITERATIONS, P.KEY_LENGTH));
    StdRoundTrip(kdf(raw, salt, P.ITERATIONS, P.KEY_LENGTH));
    Base64LacksNul(digest);
    R.NumeralHasNoNul(P.ITERATIONS, 10);
    FourLackNul(P.ALGORITHM, FormatInt(P.ITERATIONS, 10), salt, digest);
  }

  lemma WrittenLacksNul(t: Texts, encoding: M.Encoding, kdf: P.Kdf)
    requires Faithful(t) && NulFree(encoding)
    ensures '\0' !in Written(t, encoding, kdf)
  {
    match encoding
    case Derived(raw, salt) =>
      assert '\0' !in t.random(salt);
      hide Faithful;
      EncodedLacksNul(raw, t.random(salt), kdf);
    case Unusable(nonce) => assert '\0' !in t.random(nonce);
    case Foreign(_) =>
  }

  // ---------------------------------------------------------------- reset tokens

  function LastLogin(t: Texts, lastLogin: Option<int>): Option<string> {
    if lastLogin.Some? then Some(t.instant(lastLogin.value)) else None
  }

  function Subject(t: Texts, user: M.User, kdf: P.Kdf): R.Subject {
    R.Subject(t.id(user.id), Written(t, user.encoding, kdf), LastLogin(t, user.lastLogin), user.email)
  }

  /** The user fields a MAC was made from. */
  function Signed(t: Texts, mac: M.ResetMac, kdf: P.Kdf): R.Subject {
    R.Subject(t.id(mac.id), Written(t, mac.encoding, kdf), LastLogin(t, mac.lastLogin), mac.email)
  }

  /** What stands behind the first dash of a token text. */
  function Signature(t: Texts, made: M.ResetMac, kdf: P.Kdf, mac: R.Mac): string {
    mac(made.secret, R.SignedValue(Signed(t, made, kdf), made.timestamp))
  }

  /** The text can be read as this token: its head, however spelt, as the instant, its rest as the MAC. */
  predicate Reads(t: Texts, text: string, token: M.ResetToken, kdf: P.Kdf, mac: R.Mac) {
    && R.Cut(text, '-').Some?
    && ParseInt(R.Cut(text, '-').value.0, 36) == Some(token.timestamp)
    && R.Cut(text, '-').value.1 == Signature(t, token.mac, kdf, mac)
  }

  function Generator(config: M.Config): R.Generator
    requires config.resetSecrets != []
  {
    R.Generator(config.resetSecrets[0], config.resetSecrets[1..], config.resetTimeout)
  }

  function Stamp(t: Texts, lastLogin: Option<int>): string {
    match lastLogin
    case None => ""
    case Some(instant) => t.instant(instant)
  }

  /** No last login is written as nothing at all, which no instant is. */
  lemma LastLoginInjective(t: Texts, a: Option<int>, b: Option<int>)
    requires Faithful(t)
    ensures Stamp(t, a) == Stamp(t, b) <==> a == b
  {
    match (a, b)
    case (Some(x), Some(y)) => assert t.instant(x) == t.instant(y) ==> x == y;
    case (Some(x), None) => assert InstantText(t.instant(x));
    case (None, Some(y)) => assert InstantText(t.instant(y));
    case (None, None) =>
  }

  lemma FieldsClean(t: Texts, id: M.Nonce, encoding: M.Encoding, lastLogin: Option<int>, email: string, kdf: P.Kdf)
    requires Faithful(t) && NulFree(encoding)
    ensures R.Clean(R.Subject(t.id(id), Written(t, encoding, kdf), LastLogin(t, lastLogin), email))
  {
    WrittenLacksNul(t, encoding, kdf);
    hide Written;
    assert '\0' !in t.id(id);
    if lastLogin.Some? {
      var instant := lastLogin.value;
      assert InstantText(t.instant(instant));
    }
  }

  /** A user whose encoding, if written alike, is the same. */
  predicate Separate(t: Texts, a: M.Encoding, b: M.Encoding, kdf: P.Kdf) {
    && NulFree(a) && NulFree(b)
    && (Written(t, a, kdf) == Written(t, b, kdf) ==> a == b)
  }

  predicate Int64(n: int) {
    MIN_INT64 <= n <= MAX_INT64
  }

  /** Two signatures are equal exactly when secret, fields and instant are. */
  lemma SameSignature(t: Texts, a: M.ResetMac, b: M.ResetMac, kdf: P.Kdf, mac: R.Mac)
    requires Faithful(t) && R.Symbolic(mac) && Separate(t, a.encoding, b.encoding, kdf)
    requires Int64(a.timestamp) && Int64(b.timestamp)
    ensures Signature(t, a, kdf, mac) == Signature(t, b, kdf, mac) <==> a == b
  {
    FieldsClean(t, a.id, a.encoding, a.lastLogin, a.email, kdf);
    FieldsClean(t, b.id, b.encoding, b.lastLogin, b.email, kdf);
    R.SignedValueInjective(Signed(t, a, kdf), a.timestamp, Signed(t, b, kdf), b.timestamp);
    LastLoginInjective(t, a.lastLogin, b.lastLogin);
    hide R.SignedValue, Written;
  }

  /** The MAC that one of the configured secrets gives for this user and instant. */
  function Expected(secret: string, user: M.User, timestamp: int): M.ResetMac {
    M.ResetMac(secret, user.id, user.encoding, user.lastLogin, timestamp, user.email)
  }

  /** Acceptance of a text whose head reads as an instant, in the machine's terms but for the signature. */
  lemma AcceptsRead(t: Texts, config: M.Config, user: M.User, text: string, now: int, kdf: P.Kdf, mac: R.Mac)
    requires R.Symbolic(mac) && config.resetSecrets != []
    requires R.Cut(text, '-').Some? && ParseInt(R.Cut(text, '-').value.0, 36).Some?
    ensures var (head, signature) := R.Cut(text, '-').value;
            var timestamp := ParseInt(head, 36).value;
            && 0 <= timestamp <= MAX_INT64
            && (R.Accepts(Generator(config), Some(Subject(t, user, kdf)), text, now, mac) <==>
                && config.resetSecrets[0] != ""
                && timestamp <= now && Saturated(now - timestamp) <= config.resetTimeout
                && exists i :: 0 <= i < |config.resetSecrets| &&
                     signature == Signature(t, Expected(config.resetSecrets[i], user, timestamp), kdf, mac))
  {
    var (head, signature) := R.Cut(text, '-').value;
    var timestamp := ParseInt(head, 36).value;
    R.CutParts(text, '-');
    R.HeadReadsFromEpoch(head);
    R.AcceptsAt(Generator(config), Subject(t, user, kdf), head, signature, now, mac);
    assert text == head + "-" + signature;
    assert R.Secrets(Generator(config)) == config.resetSecrets;
    hide ParseInt, R.Accepts, R.SignedValue, Written, R.Cut;
    forall i | 0 <= i < |config.resetSecrets|
      ensures Signature(t, Expected(config.resetSecrets[i], user, timestamp), kdf, mac) ==
              mac(config.resetSecrets[i], R.SignedValue(Subject(t, user, kdf), timestamp))
    {
      assert Signed(t, Expected(config.resetSecrets[i], user, timestamp), kdf) == Subject(t, user, kdf);
    }
  }

  /**
   * The generator accepts a text exactly when the machine's check accepts the token it reads as,
   * for every spelling of the instant and every MAC, forged ones included.
   */
  lemma ResetCheckRefines(t: Texts, config: M.Config, user: M.User, text: string, token: M.ResetToken, now: int,
                          kdf: P.Kdf, mac: R.Mac)
    requires Faithful(t) && R.Symbolic(mac) && config.resetSecrets != []
    requires Reads(t, text, token, kdf, mac)
    requires Separate(t, token.mac.encoding, user.encoding, kdf) && Int64(token.mac.timestamp)
    ensures R.Accepts(Generator(config), Some(Subject(t, user, kdf)), text, now, mac)
       <==> M.CheckReset(config, user, token, now)
  {
    AcceptsRead(t, config, user, text, now, kdf, mac);
    hide R.Accepts, R.Cut, ParseInt, Signature, Separate;
    forall i | 0 <= i < |config.resetSecrets|
      ensures Signature(t, token.mac, kdf, mac) ==
              Signature(t, Expected(config.resetSecrets[i], user, token.timestamp), kdf, mac)
         <==> token.mac == Expected(config.resetSecrets[i], user, token.timestamp)
    {
      SameSignature(t, token.mac, Expected(config.resetSecrets[i], user, token.timestamp), kdf, mac);
    }
  }

  /** The text Make gives reads as the token of its secret, user and instant. */
  lemma MadeTextReads(t: Texts, secret: string, user: M.User, timestamp: int, kdf: P.Kdf, mac: R.Mac)
    requires 0 <= timestamp <= MAX_INT64
    ensures Reads(t, R.TextOf(secret, Subject(t, user, kdf), timestamp, mac),
                  M.ResetToken(timestamp, Expected(secret, user, timestamp)), kdf, mac)
  {
    R.MadeHeadIsPrinted(secret, Subject(t, user, kdf), timestamp, mac);
    FormatIntRoundTrip(timestamp, 36);
    assert Signed(t, Expected(secret, user, timestamp), kdf) == Subject(t, user, kdf);
    hide R.Cut, R.TextOf, R.SignedValue, FormatInt, ParseInt, Written;
  }

  /** Over every string: the generator accepts exactly the texts that read as a token the machine accepts. */
  lemma ResetTextsExactly(t: Texts, config: M.Config, user: M.User, text: string, now: int, kdf: P.Kdf, mac: R.Mac)
    requires R.Symbolic(mac) && config.resetSecrets != []
    ensures R.Accepts(Generator(config), Some(Subject(t, user, kdf)), text, now, mac) <==>
            exists token :: Reads(t, text, token, kdf, mac) && M.CheckReset(config, user, token, now)
  {
    if R.Cut(text, '-').Some? && ParseInt(R.Cut(text, '-').value.0, 36).Some? {
      AcceptsRead(t, config, user, text, now, kdf, mac);
      var (head, signature) := R.Cut(text, '-').value;
      var timestamp := ParseInt(head, 36).value;
      hide R.Accepts, R.Cut, ParseInt, Signature;
      if R.Accepts(Generator(config), Some(Subject(t, user, kdf)), text, now, mac) {
        var i :| 0 <= i < |config.resetSecrets| &&
                 signature == Signature(t, Expected(config.resetSecrets[i], user, timestamp), kdf, mac);
        var token := M.ResetToken(timestamp, Expected(config.resetSecrets[i], user, timestamp));
        assert Reads(t, text, token, kdf, mac) && M.CheckReset(config, user, token, now);
      }
      if token :| Reads(t, text, token, kdf, mac) && M.CheckReset(config, user, token, now) {
        var i :| 0 <= i < |config.resetSecrets| && token.mac == Expected(config.resetSecrets[i], user, token.timestamp);
        assert signature == Signature(t, Expected(config.resetSecrets[i], user, timestamp), kdf, mac);
      }
    }
  }

  lemma ReadsInRange(t: Texts, text: string, token: M.ResetToken, kdf: P.Kdf, mac: R.Mac)
    requires Reads(t, text, token, kdf, mac)
    ensures Int64(token.timestamp)
    ensures R.Cut(text, '-').Some? && R.Cut(text, '-').value.1 == Signature(t, token.mac, kdf, mac)
  {
    R.CutParts(text, '-');
    R.HeadReadsFromEpoch(R.Cut(text, '-').value.0);
    hide R.Cut, ParseInt, Signature;
  }

  /**
   * Single use of a text and of all its other spellings: in any run at most one confirmation succeeds
   * among requests whose token texts carry one signature.
   */
  lemma ResetTextSingleUse(t: Texts, config: M.Config, world: World, first: Step, between: seq<Step>, second: Step,
                           one: string, other: string, a: M.ResetToken, b: M.ResetToken, kdf: P.Kdf, mac: R.Mac)
    requires Faithful(t) && R.Symbolic(mac)
    requires Reads(t, one, a, kdf, mac) && Reads(t, other, b, kdf, mac)
    requires R.Cut(one, '-').value.1 == R.Cut(other, '-').value.1
    requires Separate(t, a.mac.encoding, b.mac.encoding, kdf)
    requires Good(world) && Enabled(world, first) && ResetSucceeds(config, world, first, a)
    requires Runs(config, Next(config, world, first), between)
    requires Enabled(After(config, Next(config, world, first), between), second)
    ensures !ResetSucceeds(config, After(config, Next(config, world, first), between), second, b)
  {
    var later := After(config, Next(config, world, first), between);
    GoodNext(config, world, first);
    GoodAfter(config, Next(config, world, first), between);
    hide ResetSucceeds, Next, Runs, After, Good, Enabled, Separate, Faithful, R.Symbolic, Signature;
    SuccessNeedsEncoding(config, world, first, a);
    ReadsInRange(t, one, a, kdf, mac);
    ReadsInRange(t, other, b, kdf, mac);
    if ResetSucceeds(config, later, second, b) {
      SuccessNeedsEncoding(config, later, second, b);
      SameSignature(t, a.mac, b.mac, kdf, mac);
      assert a == b;
      ResetTokenSingleUse(config, world, first, between, second, a);
    }
  }

  // ---------------------------------------------------------------- CSRF secrets

  /** The bytes behind the machine's secrets. */
  type Bytes = M.Nonce -> seq<Byte>

  ghost predicate SecretBytes(bytes: Bytes) {
    forall n :: |bytes(n)| == C.CSRF_BYTES
  }

  /** A request's token is the secret that the presented text unmasks to, if it is any. */
  ghost predicate Presents(bytes: Bytes, text: string, token: Option<M.Nonce>) {
    match token
    case Some(n) => C.Unmask(TrimSpace(text)) == Some(bytes(n))
    case None => forall n :: C.Unmask(TrimSpace(text)) != Some(bytes(n))
  }

  /** What is minted from a secret presents it, with white space around it or without. */
  lemma MintedPresents(bytes: Bytes, n: M.Nonce, mask: seq<Byte>)
    requires SecretBytes(bytes) && |mask| == C.CSRF_BYTES
    ensures Presents(bytes, C.Mask(bytes(n), mask).value, Some(n))
  {
    C.MaskRoundTrip(bytes(n), mask);
    hide C.Mask, C.Unmask, TrimSpace;
  }

  /** The middleware's test on texts is the machine's on secrets, for every text. */
  lemma CsrfCheckRefines(live: M.Live, request: M.Request, bytes: Bytes, text: string)
    requires live.csrf.Some? && SecretBytes(bytes) && Presents(bytes, text, request.token)
    requires request.token.Some? && bytes(request.token.value) == bytes(live.csrf.value.secret) ==>
               request.token.value == live.csrf.value.secret
    ensures M.PassesCsrf(live, request) <==>
            M.SafeMethod(request.action) || (request.sameOrigin && C.ValidToken(bytes(live.csrf.value.secret), text))
  {
    hide C.Unmask, TrimSpace;
  }

  /**
   * In cookie mode the text of the last cookie unmasks to the secret in memory, and pairs with every
   * token text the request hands out, whatever masks are drawn.
   */
  lemma CookieCarriesSecret(config: M.Config, world: World, jar: Jar, request: M.Request, bytes: Bytes,
                            cookieMask: seq<Byte>, tokenMask: seq<Byte>)
    requires Good(world) && Enabled(world, Step.Serve(request)) && From(jar, request) && !config.useSessions
    requires SecretBytes(bytes) && |cookieMask| == |tokenMask| == C.CSRF_BYTES
    ensures NextJar(config, world, jar, request).csrf.Some?
    ensures var secret := bytes(Handed(config, world, request));
            var cookie := C.Mask(bytes(NextJar(config, world, jar, request).csrf.value), cookieMask).value;
            var token := C.Mask(secret, tokenMask).value;
            C.Unmask(cookie) == Some(secret) && C.ValidToken(secret, token) && C.ValidPair(cookie, token)
  {
    HeldAfterRequest(config, world, jar, request);
    hide NextJar, Handed, C.Mask, C.Unmask, TrimSpace;
    var secret := bytes(Handed(config, world, request));
    C.MaskRoundTrip(secret, cookieMask);
    C.MaskRoundTrip(secret, tokenMask);
  }
}
