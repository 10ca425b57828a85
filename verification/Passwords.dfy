/** Encoded passwords (auth/password.go), with PBKDF2 of section 5.2 of RFC 8018 left as a parameter. */
module Passwords {
  import opened Options
  import opened GoStrings
  import opened Numerals
  import opened Base64

  const ALGORITHM := "pbkdf2_sha256"
  const ITERATIONS := 1_800_000
  const KEY_LENGTH := 32

  /** password, salt, iterations, length of the derived key */
  type Kdf = (string, string, nat, nat) -> seq<Byte>

  ghost predicate GivesLength(kdf: Kdf) {
    forall raw, salt, iterations, length :: |kdf(raw, salt, iterations, length)| == length
  }

  datatype PasswordCheck = Checked(ok: bool, needsUpdate: bool) | UnknownAlgorithm | InvalidEncoding

  /** PasswordHasher.Encode with the random text it draws; no raw password means an unusable encoding. */
  function Encode(raw: Option<string>, text: string, kdf: Kdf): string {
    match raw
    case None => "!" + text
    case Some(password) =>
      Join([ALGORITHM, FormatInt(ITERATIONS, 10), text, EncodeStd(kdf(password, text, ITERATIONS, KEY_LENGTH))], "$")
  }

  /** PasswordHasher.Check. */
  function Check(raw: Option<string>, encoded: string, kdf: Kdf): PasswordCheck {
    if HasPrefix(encoded, "!") then Checked(false, false)
    else
      var parts := Split(encoded, '$');
      if parts[0] != ALGORITHM then UnknownAlgorithm
      else if |parts| != 4 then InvalidEncoding
      else
        match (ParseInt(parts[1], 10), DecodeStd(parts[3]))
        case (Some(iterations), Some(expected)) =>
          if iterations <= 0 || expected == [] then InvalidEncoding
          else if raw.None? then Checked(false, false)
          else
            var ok := kdf(raw.value, parts[2], iterations, |expected|) == expected;
            Checked(ok, ok && iterations != ITERATIONS)
        case _ => InvalidEncoding
  }

  predicate IsUsable(encoded: string) {
    encoded != "" && !HasPrefix(encoded, "!")
  }

  lemma JoinStarts(parts: seq<string>)
    requires parts != []
    ensures HasPrefix(Join(parts, "$"), parts[0])
  {
  }

  lemma NoDollarInBase64(s: string)
    requires forall c :: c in s ==> c == '=' || InAlphabet(c, false)
    ensures '$' !in s
  {
  }

  lemma NoDollarInDigits(s: string)
    requires forall c :: c in s ==> LowerDigit(c)
    ensures '$' !in s
  {
  }

  /** Four pieces, none holding a '$', come apart as they were put together. */
  lemma FourParts(algorithm: string, iterations: nat, salt: string, derived: seq<Byte>)
    requires '$' !in algorithm && '$' !in salt && iterations <= MAX_INT64
    ensures var parts := [algorithm, FormatInt(iterations, 10), salt, EncodeStd(derived)];
            Split(Join(parts, "$"), '$') == parts && HasPrefix(Join(parts, "$"), algorithm)
  {
    var parts := [algorithm, FormatInt(iterations, 10), salt, EncodeStd(derived)];
    StdRoundTrip(derived);
    FormatIntRoundTrip(iterations, 10);
    hide EncodeStd, FormatInt, Split, Join;
    NoDollarInBase64(parts[3]);
    NoDollarInDigits(parts[1]);
    SplitJoin(parts, '$');
    JoinStarts(parts);
  }

  lemma EncodedParts(password: string, salt: string, kdf: Kdf)
    requires '$' !in salt
    ensures var digest := EncodeStd(kdf(password, salt, ITERATIONS, KEY_LENGTH));
            Split(Encode(Some(password), salt, kdf), '$') == [ALGORITHM, FormatInt(ITERATIONS, 10), salt, digest]
    ensures HasPrefix(Encode(Some(password), salt, kdf), ALGORITHM)
  {
    FourParts(ALGORITHM, ITERATIONS, salt, kdf(password, salt, ITERATIONS, KEY_LENGTH));
    hide FormatInt, EncodeStd, Split, Join;
  }

  /**
   * Round trip: what Encode makes from a salt without '$' checks without an update, and a password
   * passes exactly when its derived key is the same.
   */
  lemma EncodeCheckRoundTrip(password: string, other: string, salt: string, kdf: Kdf)
    requires GivesLength(kdf) && '$' !in salt
    ensures Check(Some(other), Encode(Some(password), salt, kdf), kdf) ==
            Checked(kdf(other, salt, ITERATIONS, KEY_LENGTH) == kdf(password, salt, ITERATIONS, KEY_LENGTH), false)
    ensures Check(Some(password), Encode(Some(password), salt, kdf), kdf) == Checked(true, false)
    ensures IsUsable(Encode(Some(password), salt, kdf))
  {
    var derived := kdf(password, salt, ITERATIONS, KEY_LENGTH);
    var encoded := Encode(Some(password), salt, kdf);
    EncodedParts(password, salt, kdf);
    StdRoundTrip(derived);
    FormatIntRoundTrip(ITERATIONS, 10);
    assert |derived| == KEY_LENGTH;
    assert encoded[0] == 'p';
    hide Encode, Split, EncodeStd, DecodeStd, FormatInt, ParseInt;
  }

  /** The text of four fields, as Django lays an encoding out. */
  function Fields(algorithm: string, count: string, salt: string, digest: string): string {
    algorithm + "$" + count + "$" + salt + "$" + digest
  }

  lemma FieldsJoin(algorithm: string, count: string, salt: string, digest: string)
    ensures Fields(algorithm, count, salt, digest) == Join([algorithm, count, salt, digest], "$")
  {
    JoinCons(salt, [digest], "$");
    JoinCons(count, [salt, digest], "$");
    JoinCons(algorithm, [count, salt, digest], "$");
    assert Join([digest], "$") == digest;
    hide Join;
    assert [salt] + [digest] == [salt, digest];
    assert [count] + [salt, digest] == [count, salt, digest];
    assert [algorithm] + [count, salt, digest] == [algorithm, count, salt, digest];
    assert salt + "$" + digest == salt + ("$" + digest);
    assert Fields(algorithm, count, salt, digest) == algorithm + "$" + (count + "$" + (salt + "$" + digest));
  }

  lemma FieldsSplit(algorithm: string, count: string, salt: string, digest: string)
    requires '$' !in algorithm && '$' !in count && '$' !in salt && '$' !in digest
    ensures Split(Fields(algorithm, count, salt, digest), '$') == [algorithm, count, salt, digest]
  {
    hide Split, Join, Fields;
    FieldsJoin(algorithm, count, salt, digest);
    SplitJoin([algorithm, count, salt, digest], '$');
  }

  lemma SplitFields(s: string)
    requires |Split(s, '$')| == 4
    ensures var parts := Split(s, '$');
            && s == Fields(parts[0], parts[1], parts[2], parts[3])
            && '$' !in parts[1] && '$' !in parts[2] && '$' !in parts[3]
  {
    hide Split, Join, Fields;
    var parts := Split(s, '$');
    JoinSplit(s, '$');
    SplitPieces(s, '$');
    FieldsJoin(parts[0], parts[1], parts[2], parts[3]);
    assert parts == [parts[0], parts[1], parts[2], parts[3]];
    assert parts[1] in parts && parts[2] in parts && parts[3] in parts;
  }

  /** The text is one of 'iterations' rounds under this salt, and its key is the one the password derives. */
  ghost predicate Derives(raw: string, encoded: string, iterations: int, kdf: Kdf) {
    exists count, salt, digest ::
      && encoded == Fields("pbkdf2_sha256", count, salt, digest)
      && '$' !in count && '$' !in salt && '$' !in digest
      && iterations > 0 && ParseInt(count, 10) == Some(iterations)
      && DecodeStd(digest).Some? && DecodeStd(digest).value != []
      && kdf(raw, salt, iterations, |DecodeStd(digest).value|) == DecodeStd(digest).value
  }

  lemma DerivesChecks(raw: string, encoded: string, iterations: int, kdf: Kdf)
    requires Derives(raw, encoded, iterations, kdf)
    ensures Check(Some(raw), encoded, kdf) == Checked(true, iterations != 1_800_000)
  {
    hide Split, ParseInt, DecodeStd;
    var count, salt, digest :|
      && encoded == Fields("pbkdf2_sha256", count, salt, digest)
      && '$' !in count && '$' !in salt && '$' !in digest
      && iterations > 0 && ParseInt(count, 10) == Some(iterations)
      && DecodeStd(digest).Some? && DecodeStd(digest).value != []
      && kdf(raw, salt, iterations, |DecodeStd(digest).value|) == DecodeStd(digest).value;
    FieldsSplit("pbkdf2_sha256", count, salt, digest);
    assert encoded[0] == 'p';
  }

  lemma ChecksDerives(raw: string, encoded: string, kdf: Kdf) returns (iterations: int)
    requires Check(Some(raw), encoded, kdf).Checked? && Check(Some(raw), encoded, kdf).ok
    ensures Derives(raw, encoded, iterations, kdf)
  {
    hide Split, ParseInt, DecodeStd, Fields;
    var parts := Split(encoded, '$');
    SplitFields(encoded);
    iterations := ParseInt(parts[1], 10).value;
  }

  /**
   * A password verifies exactly against the texts that hold the key it derives in the number of rounds they
   * name, and an update is asked for exactly when that is not today's number.
   */
  lemma VerifiesExactly(raw: string, encoded: string, kdf: Kdf, update: bool)
    ensures Check(Some(raw), encoded, kdf) == Checked(true, update) <==>
            exists iterations: int :: Derives(raw, encoded, iterations, kdf) && update == (iterations != 1_800_000)
  {
    hide Derives, Check;
    if Check(Some(raw), encoded, kdf) == Checked(true, update) {
      var iterations := ChecksDerives(raw, encoded, kdf);
      DerivesChecks(raw, encoded, iterations, kdf);
      assert Derives(raw, encoded, iterations, kdf) && update == (iterations != 1_800_000);
    }
    if iterations: int :| Derives(raw, encoded, iterations, kdf) && update == (iterations != 1_800_000) {
      DerivesChecks(raw, encoded, iterations, kdf);
    }
  }

  /**
   * Round trip at every number of rounds: an encoding made with another number still verifies its
   * passwords, and only then asks to be replaced.
   */
  lemma OtherCountsVerify(password: string, other: string, salt: string, iterations: int, kdf: Kdf)
    requires GivesLength(kdf) && '$' !in salt && 0 < iterations <= MAX_INT64
    ensures var derived := kdf(password, salt, iterations, 32);
            var encoded := Fields("pbkdf2_sha256", FormatInt(iterations, 10), salt, EncodeStd(derived));
            var ok := kdf(other, salt, iterations, 32) == derived;
            && Check(Some(other), encoded, kdf) == Checked(ok, ok && iterations != 1_800_000)
            && (iterations == 1_800_000 ==> encoded == Encode(Some(password), salt, kdf))
  {
    var derived := kdf(password, salt, iterations, 32);
    var encoded := Fields("pbkdf2_sha256", FormatInt(iterations, 10), salt, EncodeStd(derived));
    FormatIntRoundTrip(iterations, 10);
    StdRoundTrip(derived);
    assert |derived| == 32;
    hide Split, EncodeStd, DecodeStd, FormatInt, ParseInt;
    NoDollarInBase64(EncodeStd(derived));
    NoDollarInDigits(FormatInt(iterations, 10));
    FieldsSplit("pbkdf2_sha256", FormatInt(iterations, 10), salt, EncodeStd(derived));
    FieldsJoin("pbkdf2_sha256", FormatInt(iterations, 10), salt, EncodeStd(derived));
    assert encoded[0] == 'p';
    hide Join;
  }

  /** Which texts are of another algorithm: neither unusable nor headed by this one's name. */
  lemma UnknownExactly(raw: Option<string>, encoded: string, kdf: Kdf)
    ensures Check(raw, encoded, kdf) == UnknownAlgorithm <==>
            && (encoded == "" || encoded[0] != '!')
            && encoded != "pbkdf2_sha256" && !HasPrefix(encoded, "pbkdf2_sha256$")
  {
    hide ParseInt, DecodeStd;
    var name := "pbkdf2_sha256";
    if encoded == name {
      SplitWhole(name, '$');
    } else if HasPrefix(encoded, "pbkdf2_sha256$") {
      assert encoded == name + ['$'] + encoded[14..];
      SplitCons(name, encoded[14..], '$');
    }
    JoinSplit(encoded, '$');
    hide Split;
    var parts := Split(encoded, '$');
    if parts[0] == name && |parts| > 1 {
      assert parts == [name] + parts[1..];
      JoinCons(name, parts[1..], "$");
    }
  }

  /** Encodings made from different salts differ, so fresh salts give encodings never seen before. */
  lemma EncodingsDiffer(a: string, saltA: string, b: string, saltB: string, kdf: Kdf)
    requires '$' !in saltA && '$' !in saltB
    ensures Encode(Some(a), saltA, kdf) == Encode(Some(b), saltB, kdf) <==>
            saltA == saltB && kdf(a, saltA, ITERATIONS, KEY_LENGTH) == kdf(b, saltB, ITERATIONS, KEY_LENGTH)
  {
    EncodedParts(a, saltA, kdf);
    EncodedParts(b, saltB, kdf);
    var derivedA, derivedB := kdf(a, saltA, ITERATIONS, KEY_LENGTH), kdf(b, saltB, ITERATIONS, KEY_LENGTH);
    StdRoundTrip(derivedA);
    StdRoundTrip(derivedB);
    hide Split, EncodeStd, DecodeStd, FormatInt, Join;
    if Encode(Some(a), saltA, kdf) == Encode(Some(b), saltB, kdf) {
      var parts := Split(Encode(Some(a), saltA, kdf), '$');
      assert parts[2] == saltA == saltB;
      assert parts[3] == EncodeStd(derivedA) == EncodeStd(derivedB);
    }
  }

  /** An encoding that is not usable verifies nothing, and an update is asked for only of a password that passed. */
  lemma UnusableNeverVerifies(raw: Option<string>, encoded: string, text: string, kdf: Kdf)
    ensures !IsUsable(Encode(None, text, kdf))
    ensures !IsUsable(encoded) ==>
              Check(raw, encoded, kdf) == (if encoded == "" then UnknownAlgorithm else Checked(false, false))
    ensures Check(raw, encoded, kdf).Checked? && Check(raw, encoded, kdf).needsUpdate ==> Check(raw, encoded, kdf).ok
    ensures raw.None? && Check(raw, encoded, kdf).Checked? ==> !Check(raw, encoded, kdf).ok
  {
    assert Split("", '$')[0] == "";
  }
}
