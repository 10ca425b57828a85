/** Password reset tokens as strings (auth/token.go), with HMAC left as an injective parameter. */
module ResetTokens {
  import opened Options
  import opened GoStrings
  import opened Numerals

  /** The user fields a token is made from; lastLogin is its formatted text. */
  datatype Subject = Subject(id: string, passwordHash: string, lastLogin: Option<string>, email: string)

  datatype Generator = Generator(secret: string, fallbackSecrets: seq<string>, timeout: int)

  /** secret, signed value -> hexadecimal MAC */
  type Mac = (string, string) -> string

  /** The symbolic reading of HMAC: never empty, and equal only for equal inputs. */
  ghost predicate Symbolic(mac: Mac) {
    && (forall secret, value :: mac(secret, value) != "")
    && (forall s, v, s', v' :: mac(s, v) == mac(s', v') ==> s == s' && v == v')
  }

  function LastLogin(user: Subject): string {
    if user.lastLogin.Some? then user.lastLogin.value else ""
  }

  /** The five fields joined by NUL. */
  function SignedValue(user: Subject, timestamp: int): string {
    Join([user.id, user.passwordHash, LastLogin(user), FormatInt(timestamp, 10), user.email], "\0")
  }

  /** strings.Cut: the text before and after the first separator. */
  function Cut(s: string, sep: char): Option<(string, string)> {
    var i := IndexOf(s, sep);
    if i == |s| then None else Some((s[..i], s[i + 1..]))
  }

  /** ResetTokenGenerator.Make at an instant in nanoseconds since the epoch. */
  function Make(generator: Generator, user: Option<Subject>, timestamp: int, mac: Mac): Option<string> {
    if user.None? || generator.secret == "" then None
    else Some(FormatInt(timestamp, 36) + "-" + mac(generator.secret, SignedValue(user.value, timestamp)))
  }

  function Secrets(generator: Generator): seq<string> {
    [generator.secret] + generator.fallbackSecrets
  }

  predicate InWindow(generator: Generator, timestamp: int, now: int) {
    !(now < timestamp) && !(Saturated(now - timestamp) > generator.timeout)
  }

  predicate SignedBy(generator: Generator, user: Subject, timestamp: int, signature: string, mac: Mac) {
    exists i :: 0 <= i < |Secrets(generator)| && signature == mac(Secrets(generator)[i], SignedValue(user, timestamp))
  }

  predicate Accepts(generator: Generator, user: Option<Subject>, token: string, now: int, mac: Mac) {
    && user.Some? && token != "" && generator.secret != ""
    && match Cut(token, '-') {
         case None => false
         case Some((encoded, signature)) =>
           && encoded != "" && signature != ""
           && match ParseInt(encoded, 36) {
                case None => false
                case Some(timestamp) =>
                  InWindow(generator, timestamp, now) && SignedBy(generator, user.value, timestamp, signature, mac)
              }
       }
  }

  /** ResetTokenGenerator.Check as the loop over the secrets runs it. */
  method Check(generator: Generator, user: Option<Subject>, token: string, now: int, mac: Mac) returns (ok: bool)
    ensures ok <==> Accepts(generator, user, token, now, mac)
  {
    if user.None? || token == "" || generator.secret == "" {
      return false;
    }
    var cut := Cut(token, '-');
    if cut.None? || cut.value.0 == "" || cut.value.1 == "" {
      return false;
    }
    var timestamp := ParseInt(cut.value.0, 36);
    if timestamp.None? || !InWindow(generator, timestamp.value, now) {
      return false;
    }
    var secrets := [generator.secret];
    secrets := secrets + generator.fallbackSecrets;
    for i := 0 to |secrets|
      invariant forall j :: 0 <= j < i ==> cut.value.1 != mac(secrets[j], SignedValue(user.value, timestamp.value))
    {
      var expected := mac(secrets[i], SignedValue(user.value, timestamp.value));
      if cut.value.1 == expected {
        assert secrets[i] == Secrets(generator)[i];
        return true;
      }
    }
    return false;
  }

  // ---------------------------------------------------------------- what a signature pins down

  /** No field but the last holds a NUL. */
  predicate Clean(user: Subject) {
    '\0' !in user.id && '\0' !in user.passwordHash && '\0' !in LastLogin(user)
  }

  lemma CutAtSeparator(head: string, rest: string, sep: char)
    requires sep !in head
    ensures Cut(head + [sep] + rest, sep) == Some((head, rest))
  {
    var s := head + [sep] + rest;
    FirstAt(head, rest, sep);
    assert s[..|head|] == head && s[|head| + 1..] == rest;
  }

  lemma JoinFive(a: string, b: string, c: string, d: string, e: string)
    ensures Join([a, b, c, d, e], "\0") == a + ['\0'] + (b + ['\0'] + (c + ['\0'] + (d + ['\0'] + e)))
  {
    JoinCons(a, [b, c, d, e], "\0");
    JoinCons(b, [c, d, e], "\0");
    JoinCons(c, [d, e], "\0");
    JoinCons(d, [e], "\0");
    assert Join([e], "\0") == e;
    hide Join;
  }

  lemma NumeralHasNoNul(n: int, base: nat)
    requires 2 <= base <= 36 && MIN_INT64 <= n <= MAX_INT64
    ensures '\0' !in FormatInt(n, base)
  {
    FormatIntRoundTrip(n, base);
    FormatNatRoundTrip(if n < 0 then -n else n, base);
  }

  /** The signed value is injective in every field: equal values come from equal fields and instants. */
  lemma SignedValueInjective(a: Subject, s: int, b: Subject, t: int)
    requires Clean(a) && Clean(b) && MIN_INT64 <= s <= MAX_INT64 && MIN_INT64 <= t <= MAX_INT64
    ensures SignedValue(a, s) == SignedValue(b, t) <==>
            && s == t && a.id == b.id && a.passwordHash == b.passwordHash
            && LastLogin(a) == LastLogin(b) && a.email == b.email
  {
    var x, y := FormatInt(s, 10), FormatInt(t, 10);
    NumeralHasNoNul(s, 10);
    NumeralHasNoNul(t, 10);
    FormatIntRoundTrip(s, 10);
    FormatIntRoundTrip(t, 10);
    JoinFive(a.id, a.passwordHash, LastLogin(a), x, a.email);
    JoinFive(b.id, b.passwordHash, LastLogin(b), y, b.email);
    hide FormatInt, Join;
    HeadDetermined(a.id, a.passwordHash + ['\0'] + (LastLogin(a) + ['\0'] + (x + ['\0'] + a.email)),
                   b.id, b.passwordHash + ['\0'] + (LastLogin(b) + ['\0'] + (y + ['\0'] + b.email)), '\0');
    HeadDetermined(a.passwordHash, LastLogin(a) + ['\0'] + (x + ['\0'] + a.email),
                   b.passwordHash, LastLogin(b) + ['\0'] + (y + ['\0'] + b.email), '\0');
    HeadDetermined(LastLogin(a), x + ['\0'] + a.email, LastLogin(b), y + ['\0'] + b.email, '\0');
    HeadDetermined(x, a.email, y, b.email, '\0');
  }

  // ---------------------------------------------------------------- round trip and window

  /** What acceptance asks of the two sides of the first dash. */
  lemma AcceptsAt(verifier: Generator, user: Subject, encoded: string, signature: string, now: int, mac: Mac)
    requires '-' !in encoded
    ensures Accepts(verifier, Some(user), encoded + "-" + signature, now, mac) <==>
            && verifier.secret != "" && encoded != "" && signature != "" && ParseInt(encoded, 36).Some?
            && InWindow(verifier, ParseInt(encoded, 36).value, now)
            && SignedBy(verifier, user, ParseInt(encoded, 36).value, signature, mac)
  {
    CutAtSeparator(encoded, signature, '-');
    hide ParseInt, SignedBy, InWindow, Cut;
  }

  lemma NoDash(s: string)
    requires forall c :: c in s ==> LowerDigit(c)
    ensures '-' !in s
  {
  }

  lemma SignedExactly(secret: string, verifier: Generator, made: Subject, user: Subject, timestamp: int, mac: Mac)
    requires Symbolic(mac)
    ensures SignedBy(verifier, user, timestamp, mac(secret, SignedValue(made, timestamp)), mac) <==>
            secret in Secrets(verifier) && SignedValue(made, timestamp) == SignedValue(user, timestamp)
  {
    hide SignedValue;
  }

  /**
   * A token made at an instant from the epoch on is accepted at another instant exactly when that one
   * is not before it and not more than the timeout after it (no limit at all for the largest timeout),
   * the secret it was made with is still the primary or a fallback, and the user's signed fields are
   * the ones it was made from.
   */
  lemma AcceptedExactly(maker: Generator, verifier: Generator, made: Subject, user: Subject,
                        timestamp: int, now: int, mac: Mac)
    requires Symbolic(mac) && Clean(made) && Clean(user)
    requires maker.secret != "" && verifier.timeout <= MAX_INT64
    requires 0 <= timestamp <= MAX_INT64
    ensures Accepts(verifier, Some(user), Make(maker, Some(made), timestamp, mac).value, now, mac) <==>
            && timestamp <= now && (now <= timestamp + verifier.timeout || verifier.timeout == MAX_INT64)
            && verifier.secret != "" && (maker.secret == verifier.secret || maker.secret in verifier.fallbackSecrets)
            && made.id == user.id && made.passwordHash == user.passwordHash && made.email == user.email
            && (if made.lastLogin.Some? then made.lastLogin.value else "") ==
               (if user.lastLogin.Some? then user.lastLogin.value else "")
  {
    var encoded, signature := FormatInt(timestamp, 36), mac(maker.secret, SignedValue(made, timestamp));
    FormatIntRoundTrip(timestamp, 36);
    assert '-' !in encoded by {
      NoDash(encoded);
    }
    AcceptsAt(verifier, user, encoded, signature, now, mac);
    SignedValueInjective(made, timestamp, user, timestamp);
    SignedExactly(maker.secret, verifier, made, user, timestamp, mac);
    hide FormatInt, ParseInt, SignedValue, SignedBy, Accepts, Secrets;
  }

  lemma ParsePlus(s: string, base: nat)
    requires 2 <= base <= 36 && s != "" && s[0] != '+' && s[0] != '-'
    ensures ParseInt("+" + s, base) == ParseInt(s, base)
  {
    assert ("+" + s)[1..] == s;
    hide ParseNat;
  }

  /** A token made before the epoch is never accepted: its first dash is the minus sign. */
  lemma BeforeEpochNeverAccepted(maker: Generator, verifier: Generator, made: Subject, user: Option<Subject>,
                                 timestamp: int, now: int, mac: Mac)
    requires maker.secret != "" && MIN_INT64 <= timestamp < 0
    ensures !Accepts(verifier, user, Make(maker, Some(made), timestamp, mac).value, now, mac)
  {
    var token := Make(maker, Some(made), timestamp, mac).value;
    FormatIntRoundTrip(timestamp, 36);
    assert token[0] == '-';
    assert IndexOf(token, '-') == 0;
  }

  // ---------------------------------------------------------------- which accepted texts were made

  /** The text of a token of one secret, user and instant. */
  function TextOf(secret: string, user: Subject, timestamp: int, mac: Mac): string {
    FormatInt(timestamp, 36) + "-" + mac(secret, SignedValue(user, timestamp))
  }

  /** The text is one that Make gives for this user under a secret the verifier knows. */
  ghost predicate IsMade(verifier: Generator, user: Subject, text: string, mac: Mac) {
    exists secret, timestamp ::
      secret in Secrets(verifier) && 0 <= timestamp <= MAX_INT64 && text == TextOf(secret, user, timestamp, mac)
  }

  lemma CutParts(s: string, sep: char)
    requires Cut(s, sep).Some?
    ensures var (head, rest) := Cut(s, sep).value; sep !in head && s == head + [sep] + rest
  {
  }

  /** What stands before the first dash reads as an instant from the epoch on, if as any. */
  lemma HeadReadsFromEpoch(head: string)
    requires '-' !in head && ParseInt(head, 36).Some?
    ensures head != "" && 0 <= ParseInt(head, 36).value <= MAX_INT64
  {
    hide ParseNat;
    assert head[0] in head;
  }

  lemma MadeHeadIsPrinted(secret: string, user: Subject, timestamp: int, mac: Mac)
    requires 0 <= timestamp <= MAX_INT64
    ensures var text := TextOf(secret, user, timestamp, mac);
            Cut(text, '-') == Some((FormatInt(timestamp, 36), mac(secret, SignedValue(user, timestamp))))
    ensures CanonicalNat(FormatInt(timestamp, 36), 36)
  {
    FormatIntRoundTrip(timestamp, 36);
    FormatNatCanonical(timestamp, 36);
    NoDash(FormatInt(timestamp, 36));
    CutAtSeparator(FormatInt(timestamp, 36), mac(secret, SignedValue(user, timestamp)), '-');
  }

  /**
   * An accepted text is one that was made exactly when its part before the dash is canonical: lower-case
   * digits, no sign, and no zero in front. Every other accepted text is a variant spelling of a made one.
   */
  lemma AcceptedIsMadeExactly(verifier: Generator, user: Subject, text: string, now: int, mac: Mac)
    requires Accepts(verifier, Some(user), text, now, mac)
    ensures Cut(text, '-').Some?
    ensures IsMade(verifier, user, text, mac) <==> CanonicalNat(Cut(text, '-').value.0, 36)
    ensures var (head, signature) := Cut(text, '-').value;
            ParseInt(head, 36).Some? &&
            IsMade(verifier, user, FormatInt(ParseInt(head, 36).value, 36) + "-" + signature, mac)
  {
    var (head, signature) := Cut(text, '-').value;
    var timestamp := ParseInt(head, 36).value;
    CutParts(text, '-');
    HeadReadsFromEpoch(head);
    PrintedExactly(head, timestamp, 36);
    var i :| 0 <= i < |Secrets(verifier)| && signature == mac(Secrets(verifier)[i], SignedValue(user, timestamp));
    hide ParseInt, FormatInt, SignedValue, Cut, CanonicalNat, Secrets;
    assert TextOf(Secrets(verifier)[i], user, timestamp, mac) == FormatInt(timestamp, 36) + "-" + signature;
    if IsMade(verifier, user, text, mac) {
      var secret, instant :| secret in Secrets(verifier) && 0 <= instant <= MAX_INT64 &&
                             text == TextOf(secret, user, instant, mac);
      MadeHeadIsPrinted(secret, user, instant, mac);
    }
  }

  /** Heads that read alike are accepted alike, before any signature. */
  lemma HeadsReadAlike(verifier: Generator, user: Subject, one: string, other: string, signature: string,
                       now: int, mac: Mac)
    requires '-' !in one && '-' !in other && one != "" && other != "" && ParseInt(one, 36) == ParseInt(other, 36)
    ensures Accepts(verifier, Some(user), one + "-" + signature, now, mac) <==>
            Accepts(verifier, Some(user), other + "-" + signature, now, mac)
  {
    AcceptsAt(verifier, user, one, signature, now, mac);
    AcceptsAt(verifier, user, other, signature, now, mac);
    hide Accepts, ParseInt, SignedBy;
  }

  /** A plus sign in front is read over. */
  lemma PlusSignReadOver(maker: Generator, verifier: Generator, made: Subject, user: Subject,
                         timestamp: int, now: int, mac: Mac)
    requires maker.secret != "" && 0 <= timestamp <= MAX_INT64
    ensures Accepts(verifier, Some(user), "+" + Make(maker, Some(made), timestamp, mac).value, now, mac) <==>
            Accepts(verifier, Some(user), Make(maker, Some(made), timestamp, mac).value, now, mac)
  {
    var encoded, signature := FormatInt(timestamp, 36), mac(maker.secret, SignedValue(made, timestamp));
    FormatIntRoundTrip(timestamp, 36);
    NoDash(encoded);
    assert encoded[0] in encoded;
    ParsePlus(encoded, 36);
    HeadsReadAlike(verifier, user, encoded, "+" + encoded, signature, now, mac);
    assert "+" + (encoded + "-" + signature) == ("+" + encoded) + "-" + signature;
    hide FormatInt, SignedValue, SignedBy, Accepts, ParseInt;
  }

  lemma ParseZero(s: string)
    requires s != "" && LowerDigit(s[0])
    ensures ParseInt("0" + s, 36) == ParseInt(s, 36)
  {
    LeadingZeroReadsAlike(s, 36);
    hide ParseNat;
  }

  /** A zero in front is read over. */
  lemma LeadingZeroReadOver(maker: Generator, verifier: Generator, made: Subject, user: Subject,
                            timestamp: int, now: int, mac: Mac)
    requires maker.secret != "" && 0 <= timestamp <= MAX_INT64
    ensures Accepts(verifier, Some(user), "0" + Make(maker, Some(made), timestamp, mac).value, now, mac) <==>
            Accepts(verifier, Some(user), Make(maker, Some(made), timestamp, mac).value, now, mac)
  {
    var encoded, signature := FormatInt(timestamp, 36), mac(maker.secret, SignedValue(made, timestamp));
    FormatIntRoundTrip(timestamp, 36);
    NoDash(encoded);
    ParseZero(encoded);
    HeadsReadAlike(verifier, user, encoded, "0" + encoded, signature, now, mac);
    assert "0" + (encoded + "-" + signature) == ("0" + encoded) + "-" + signature;
    hide FormatInt, SignedValue, SignedBy, Accepts, ParseInt;
  }

  function UpperCase(c: char): char {
    if 'a' <= c <= 'z' then (c as int - 32) as char else c
  }

  lemma ParseUpper(s: string, i: nat)
    requires i < |s| && forall c :: c in s ==> LowerDigit(c)
    ensures var upper := s[i := UpperCase(s[i])];
            '-' !in upper && ParseInt(upper, 36) == ParseInt(s, 36)
  {
    var upper := s[i := UpperCase(s[i])];
    assert s[0] in s && s[i] in s;
    forall j | 0 <= j < |s| ensures upper[j] != '-' && DigitValue(s[j]) == DigitValue(upper[j]) {
      assert s[j] in s;
    }
    SameDigitsReadAlike(s, upper, 36);
    hide ParseNat;
  }

  /** A letter of the instant is read in either case. */
  lemma UpperCaseReadOver(maker: Generator, verifier: Generator, made: Subject, user: Subject,
                          timestamp: int, now: int, mac: Mac, i: nat)
    requires maker.secret != "" && 0 <= timestamp <= MAX_INT64 && i < |FormatInt(timestamp, 36)|
    ensures var token := Make(maker, Some(made), timestamp, mac).value;
            && (token[i := UpperCase(token[i])] != token <==> 'a' <= token[i] <= 'z')
            && (Accepts(verifier, Some(user), token[i := UpperCase(token[i])], now, mac) <==>
                Accepts(verifier, Some(user), token, now, mac))
  {
    var encoded, signature := FormatInt(timestamp, 36), mac(maker.secret, SignedValue(made, timestamp));
    FormatIntRoundTrip(timestamp, 36);
    NoDash(encoded);
    var upper := encoded[i := UpperCase(encoded[i])];
    ParseUpper(encoded, i);
    HeadsReadAlike(verifier, user, encoded, upper, signature, now, mac);
    var token := encoded + "-" + signature;
    assert token[i := UpperCase(token[i])] == upper + "-" + signature;
    hide FormatInt, SignedValue, SignedBy, Accepts, ParseInt;
  }
}
