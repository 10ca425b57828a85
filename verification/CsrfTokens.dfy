/** Masked CSRF tokens (web/csrf.go). */
module CsrfTokens {
  import opened Options
  import opened GoStrings
  import opened Base64

  const CSRF_BYTES := 32

  // ---------------------------------------------------------------- masking

  function Masked(secret: seq<Byte>, mask: seq<Byte>): seq<Byte>
    requires |secret| == |mask| == CSRF_BYTES
  {
    mask + seq(CSRF_BYTES, i requires 0 <= i < CSRF_BYTES => mask[i] ^ secret[i])
  }

  /** maskCSRF with the mask it draws; any other length of secret is refused. */
  function Mask(secret: seq<Byte>, mask: seq<Byte>): Option<string>
    requires |mask| == CSRF_BYTES
  {
    if |secret| != CSRF_BYTES then None else Some(EncodeRaw(Masked(secret, mask), true))
  }

  /** The token pattern: 86 characters of the URL alphabet. */
  predicate TokenPattern(token: string) {
    |token| == 86 && AllInAlphabet(token, true)
  }

  function Unmasked(masked: seq<Byte>): seq<Byte>
    requires |masked| == 2 * CSRF_BYTES
  {
    seq(CSRF_BYTES, i requires 0 <= i < CSRF_BYTES => masked[i] ^ masked[CSRF_BYTES + i])
  }

  /** unmaskCSRF. */
  function Unmask(token: string): Option<seq<Byte>> {
    if !TokenPattern(token) then None
    else
      match DecodeRaw(token, true)
      case None => None
      case Some(masked) => if |masked| != 2 * CSRF_BYTES then None else Some(Unmasked(masked))
  }

  predicate ValidToken(secret: seq<Byte>, token: string) {
    Unmask(TrimSpace(token)) == Some(secret)
  }

  /** validCSRFPair. */
  predicate ValidPair(first: string, second: string) {
    Unmask(first).Some? && Unmask(first) == Unmask(second)
  }

  method MaskLoop(secret: seq<Byte>, mask: seq<Byte>) returns (token: Option<string>)
    requires |mask| == CSRF_BYTES
    ensures token == Mask(secret, mask)
  {
    if |secret| != CSRF_BYTES {
      return None;
    }
    var masked := new Byte[2 * CSRF_BYTES](i => 0);
    forall i | 0 <= i < CSRF_BYTES {
      masked[i] := mask[i];
    }
    for index := 0 to |secret|
      invariant forall i :: 0 <= i < CSRF_BYTES + index ==> masked[i] == Masked(secret, mask)[i]
    {
      masked[CSRF_BYTES + index] := mask[index] ^ secret[index];
    }
    assert masked[..] == Masked(secret, mask);
    return Some(EncodeRaw(masked[..], true));
  }

  method UnmaskLoop(token: string) returns (secret: Option<seq<Byte>>)
    ensures secret == Unmask(token)
  {
    if !TokenPattern(token) {
      return None;
    }
    var decoded := DecodeRaw(token, true);
    if decoded.None? || |decoded.value| != 2 * CSRF_BYTES {
      return None;
    }
    var bytes := new Byte[CSRF_BYTES](i => 0);
    for index := 0 to CSRF_BYTES
      invariant forall i :: 0 <= i < index ==> bytes[i] == Unmasked(decoded.value)[i]
    {
      bytes[index] := decoded.value[index] ^ decoded.value[CSRF_BYTES + index];
    }
    assert bytes[..] == Unmasked(decoded.value);
    return Some(bytes[..]);
  }

  // ---------------------------------------------------------------- properties

  lemma XorTwice(m: Byte, s: Byte)
    ensures m ^ (m ^ s) == s
  {
  }

  lemma UnmaskedMasked(secret: seq<Byte>, mask: seq<Byte>)
    requires |secret| == |mask| == CSRF_BYTES
    ensures Unmasked(Masked(secret, mask)) == secret
  {
    forall i | 0 <= i < CSRF_BYTES ensures Unmasked(Masked(secret, mask))[i] == secret[i] {
      XorTwice(mask[i], secret[i]);
    }
  }

  lemma TrimsToItself(token: string)
    requires AllInAlphabet(token, true)
    ensures TrimSpace(token) == token
  {
    if token != "" {
      assert InAlphabet(token[0], true) && InAlphabet(token[|token| - 1], true);
    }
    TrimSpaceFixes(token);
  }

  /** Masking yields a token of the pattern, and unmasking it gives the secret back, whatever the mask. */
  lemma MaskRoundTrip(secret: seq<Byte>, mask: seq<Byte>)
    requires |secret| == |mask| == CSRF_BYTES
    ensures TokenPattern(Mask(secret, mask).value)
    ensures Unmask(Mask(secret, mask).value) == Some(secret)
    ensures TrimSpace(Mask(secret, mask).value) == Mask(secret, mask).value
  {
    var masked := Masked(secret, mask);
    EncodeRawShape(masked, true);
    RawRoundTrip(masked, true);
    UnmaskedMasked(secret, mask);
    TrimsToItself(EncodeRaw(masked, true));
    hide EncodeRaw, DecodeRaw, Masked, Unmasked, TrimSpace;
  }

  /** What a token carries: the mask, and the secret under it byte by byte. */
  lemma TokenCarries(secret: seq<Byte>, mask: seq<Byte>, i: nat)
    requires |secret| == |mask| == 32 && i < 32
    ensures Mask(secret, mask).Some?
    ensures var bytes := DecodeRaw(Mask(secret, mask).value, true);
            && bytes.Some? && |bytes.value| == 64
            && bytes.value[i] == mask[i] && bytes.value[32 + i] == mask[i] ^ secret[i]
  {
    RawRoundTrip(Masked(secret, mask), true);
    hide EncodeRaw, DecodeRaw;
  }

  function Xor(a: Byte, b: Byte): Byte {
    a ^ b
  }

  lemma XorBack(m: Byte, s: Byte)
    ensures Xor(Xor(m, s), s) == m
  {
  }

  lemma XorMoves(m: Byte, s: Byte, h: Byte)
    ensures Xor(m, s) == h <==> m == Xor(h, s)
  {
    XorBack(m, s);
    XorBack(h, s);
    hide Xor;
  }

  /** The last 32 of a token's 64 bytes. */
  function CoveredHalf(token: string): seq<Byte> {
    match DecodeRaw(token, true)
    case Some(bytes) => if |bytes| == 64 then bytes[32..] else []
    case None => []
  }

  lemma CoveredAt(secret: seq<Byte>, mask: seq<Byte>, i: nat)
    requires |secret| == |mask| == 32 && i < 32
    ensures var covered := CoveredHalf(Mask(secret, mask).value);
            |covered| == 32 && covered[i] == Xor(mask[i], secret[i])
  {
    TokenCarries(secret, mask, i);
    hide Mask, DecodeRaw;
  }

  lemma CoveredIs(half: seq<Byte>, secret: seq<Byte>, mask: seq<Byte>, i: nat)
    requires |half| == |secret| == |mask| == 32 && i < 32
    ensures var covered := CoveredHalf(Mask(secret, mask).value);
            |covered| == 32 && (covered[i] == half[i] <==> mask[i] == Xor(half[i], secret[i]))
  {
    CoveredAt(secret, mask, i);
    hide *;
    XorMoves(mask[i], secret[i], half[i]);
  }

  lemma TogetherEqual<T>(a: seq<T>, b: seq<T>, c: seq<T>, d: seq<T>)
    requires |a| == |b| == |c| == |d|
    requires forall i :: 0 <= i < |a| ==> (a[i] == b[i] <==> c[i] == d[i])
    ensures a == b <==> c == d
  {
  }

  /**
   * The covered half of a token says nothing of the secret: under each secret there is one mask, and only
   * one, that gives this half.
   */
  lemma CoveredHalfSaysNothing(half: seq<Byte>, secret: seq<Byte>, mask: seq<Byte>)
    requires |half| == |secret| == |mask| == 32
    ensures CoveredHalf(Mask(secret, mask).value) == half <==>
            mask == seq(32, i requires 0 <= i < 32 => Xor(half[i], secret[i]))
  {
    var covered := CoveredHalf(Mask(secret, mask).value);
    var needed := seq(32, i requires 0 <= i < 32 => Xor(half[i], secret[i]));
    CoveredIs(half, secret, mask, 0);
    forall i | 0 <= i < 32 ensures covered[i] == half[i] <==> mask[i] == needed[i] {
      CoveredIs(half, secret, mask, i);
    }
    hide *;
    TogetherEqual(covered, half, mask, needed);
  }

  /** A token minted from one secret is valid for another exactly when the two are the same. */
  lemma MintedTokenValidExactly(minted: seq<Byte>, mask: seq<Byte>, secret: seq<Byte>)
    requires |minted| == |mask| == CSRF_BYTES
    ensures ValidToken(secret, Mask(minted, mask).value) <==> secret == minted
  {
    MaskRoundTrip(minted, mask);
    hide Mask, Unmask, TrimSpace;
  }

  /** Two minted tokens pair up exactly when they carry the same secret. */
  lemma MintedPairsExactly(a: seq<Byte>, maskA: seq<Byte>, b: seq<Byte>, maskB: seq<Byte>)
    requires |a| == |maskA| == |b| == |maskB| == CSRF_BYTES
    ensures ValidPair(Mask(a, maskA).value, Mask(b, maskB).value) <==> a == b
  {
    MaskRoundTrip(a, maskA);
    MaskRoundTrip(b, maskB);
    hide Mask, Unmask, TrimSpace;
  }

  /** Every string of the pattern unmasks to some secret of the right length. */
  lemma PatternUnmasks(token: string)
    ensures TokenPattern(token) <==> Unmask(token).Some?
    ensures Unmask(token).Some? ==> |Unmask(token).value| == CSRF_BYTES
  {
    if TokenPattern(token) {
      DecodeLength(token, true);
      AlphabetHasNoNewline(token, true);
    }
  }

  /**
   * Tokens are not unique: two strings of the pattern decode to the same masked bytes exactly when
   * they agree but for the low four bits of the last character, and then they unmask alike.
   */
  lemma LowBitsIgnored(a: string, b: string)
    requires TokenPattern(a) && TokenPattern(b)
    ensures DecodeRaw(a, true) == DecodeRaw(b, true) <==> SameButLowBits(a, b, true)
    ensures SameButLowBits(a, b, true) ==> Unmask(a) == Unmask(b)
  {
    AlphabetHasNoNewline(a, true);
    AlphabetHasNoNewline(b, true);
    DecodeForgetsLowBits(a, b, true);
    hide DecodeSextets, SkipNewlines, SameButLowBits;
  }

  /** The text is the mask's token of this secret but for the bits the last character does not use. */
  predicate Spells(text: string, secret: seq<Byte>, mask: seq<Byte>) {
    && |secret| == |mask| == CSRF_BYTES
    && TokenPattern(text) && TokenPattern(Mask(secret, mask).value)
    && SameButLowBits(text, Mask(secret, mask).value, true)
  }

  /** The mask that turns a secret into given masked bytes is their first half. */
  lemma MaskOfMasked(masked: seq<Byte>)
    requires |masked| == 2 * CSRF_BYTES
    ensures Masked(Unmasked(masked), masked[..CSRF_BYTES]) == masked
  {
    var mask, secret := masked[..CSRF_BYTES], Unmasked(masked);
    forall i | CSRF_BYTES <= i < 2 * CSRF_BYTES ensures Masked(secret, mask)[i] == masked[i] {
      XorTwice(masked[i - CSRF_BYTES], masked[i]);
    }
    assert Masked(secret, mask) == masked;
  }

  /** The texts that unmask to a secret are exactly its minted tokens and their spellings. */
  lemma UnmasksExactly(text: string, secret: seq<Byte>)
    ensures Unmask(text) == Some(secret) <==> exists mask :: Spells(text, secret, mask)
  {
    PatternUnmasks(text);
    if Unmask(text) == Some(secret) {
      var masked := DecodeRaw(text, true).value;
      var mask := masked[..CSRF_BYTES];
      MaskOfMasked(masked);
      RawRoundTrip(masked, true);
      hide DecodeRaw, EncodeRaw, Masked, Unmasked, SameButLowBits;
      assert Mask(secret, mask) == Some(EncodeRaw(masked, true));
      MaskRoundTrip(secret, mask);
      LowBitsIgnored(text, Mask(secret, mask).value);
      assert Spells(text, secret, mask);
    }
    if mask :| Spells(text, secret, mask) {
      MaskRoundTrip(secret, mask);
      LowBitsIgnored(text, Mask(secret, mask).value);
    }
  }

  /**
   * The texts accepted for a secret are exactly these: white space around a token minted from it,
   * whose last character may differ in the low four bits.
   */
  lemma ValidTextsExactly(secret: seq<Byte>, text: string)
    ensures ValidToken(secret, text) <==> exists mask :: Spells(TrimSpace(text), secret, mask)
  {
    UnmasksExactly(TrimSpace(text), secret);
    hide Unmask, Spells, TrimSpace;
  }

  /** The bits that the last character does not use are zero. */
  predicate CanonicalEnd(token: string)
    requires TokenPattern(token)
  {
    DecodeChar(token[85], true) & 15 == 0
  }

  ghost predicate IsMinted(secret: seq<Byte>, text: string) {
    exists mask :: |secret| == |mask| == CSRF_BYTES && Mask(secret, mask) == Some(text)
  }

  lemma MintedEnd(secret: seq<Byte>, mask: seq<Byte>)
    requires |secret| == |mask| == CSRF_BYTES
    ensures TokenPattern(Mask(secret, mask).value) && CanonicalEnd(Mask(secret, mask).value)
  {
    var masked := Masked(secret, mask);
    assert |masked| % 3 == 1;
    assert Mask(secret, mask).value == EncodeRaw(masked, true);
    hide EncodeRaw, Mask, Masked, Unmask, TrimSpace, DecodeChar, InAlphabet;
    MaskRoundTrip(secret, mask);
    EncodedLastChar(masked, true);
  }

  /** A spelling with a canonical end is the minted token itself. */
  lemma CanonicalSpelling(text: string, secret: seq<Byte>, mask: seq<Byte>)
    requires Spells(text, secret, mask) && CanonicalEnd(text)
    ensures text == Mask(secret, mask).value
  {
    var token := Mask(secret, mask).value;
    MintedEnd(secret, mask);
    assert InAlphabet(text[85], true) && InAlphabet(token[85], true);
    hide Mask, DecodeChar, InAlphabet;
    SameSextet(DecodeChar(text[85], true), DecodeChar(token[85], true));
    SameChar(text[85], token[85], true);
    assert text == text[..85] + [text[85]] && token == token[..85] + [token[85]];
  }

  lemma SpellsLengths(text: string, secret: seq<Byte>, mask: seq<Byte>)
    requires Spells(text, secret, mask)
    ensures |secret| == |mask| == CSRF_BYTES && Mask(secret, mask).Some?
  {
  }

  /**
   * A text accepted for a secret is a token minted from it exactly when it has no white space around it
   * and the unused bits of its last character are zero.
   */
  lemma AcceptedIsMintedExactly(secret: seq<Byte>, text: string)
    requires ValidToken(secret, text)
    ensures TokenPattern(TrimSpace(text))
    ensures IsMinted(secret, text) <==> TrimSpace(text) == text && CanonicalEnd(TrimSpace(text))
  {
    PatternUnmasks(TrimSpace(text));
    ValidTextsExactly(secret, text);
    hide TrimSpace, Unmask, Mask, CanonicalEnd, Spells;
    if IsMinted(secret, text) {
      var mask :| |secret| == |mask| == CSRF_BYTES && Mask(secret, mask) == Some(text);
      MaskRoundTrip(secret, mask);
      MintedEnd(secret, mask);
    }
    if TrimSpace(text) == text && CanonicalEnd(TrimSpace(text)) {
      var mask :| Spells(text, secret, mask);
      CanonicalSpelling(text, secret, mask);
      SpellsLengths(text, secret, mask);
      assert Mask(secret, mask) == Some(text);
    }
  }

  /** A valid text with a space in front is valid. */
  lemma SpaceReadOver(secret: seq<Byte>, text: string)
    ensures ValidToken(secret, " " + text) <==> ValidToken(secret, text)
  {
    assert (" " + text)[1..] == text;
    hide Unmask, TrimRight;
  }

  /** The last character with one of its unused bits flipped. */
  function Twin(token: string): string
    requires TokenPattern(token)
  {
    token[85 := EncodeChar(DecodeChar(token[85], true) ^ 1, true)]
  }

  lemma SwappedLast(token: string, c: char)
    requires TokenPattern(token) && InAlphabet(c, true)
    ensures TokenPattern(token[85 := c]) && token[85 := c][..85] == token[..85]
  {
    hide InAlphabet;
    var swapped := token[85 := c];
    assert forall i :: 0 <= i < 85 ==> InAlphabet(token[i], true) && swapped[i] == token[i];
  }

  lemma FlippedLowBit(s: Sextet)
    ensures s ^ 1 != s && (s ^ 1) >> 4 == s >> 4
  {
  }

  /** Every token of the pattern has a twin, another text that unmasks to the same secret. */
  lemma TwinsUnmaskAlike(token: string)
    requires TokenPattern(token)
    ensures TokenPattern(Twin(token)) && Twin(token) != token && Unmask(Twin(token)) == Unmask(token)
  {
    var s, twin := DecodeChar(token[85], true), Twin(token);
    FlippedLowBit(s);
    CharRoundTrip(s ^ 1, true);
    PlaceRoundTrip(token[85], true);
    hide EncodeChar, DecodeChar, InAlphabet, Unmask, DecodeRaw;
    SwappedLast(token, twin[85]);
    LowBitsIgnored(twin, token);
  }

  /** For instance the two texts of 86 characters that start with 85 letters A and end in A and B. */
  lemma TwinExample(token: string)
    requires |token| == 86 && forall i :: 0 <= i < 86 ==> token[i] == 'A'
    ensures Unmask(token).Some? && token[85 := 'B'] != token && Unmask(token[85 := 'B']) == Unmask(token)
  {
    assert DecodeChar('A', true) == 0 && EncodeChar(1, true) == 'B';
    assert TokenPattern(token) && Twin(token) == token[85 := 'B'];
    hide Unmask, DecodeChar, EncodeChar, TokenPattern;
    PatternUnmasks(token);
    TwinsUnmaskAlike(token);
  }
}
