/**
 * The base64 of section 4 (padded) and the base64url of section 5 (unpadded) of RFC 4648, as Go reads and
 * writes them.
 */
module Base64 {
  import opened Options

  type Byte = bv8
  type Sextet = bv6

  // ---------------------------------------------------------------- alphabets

  function CharAt(i: int, url: bool): char
    requires 0 <= i < 64
  {
    if i < 26 then (65 + i) as char
    else if i < 52 then (71 + i) as char
    else if i < 62 then (i - 4) as char
    else if i == 62 then (if url then '-' else '+')
    else (if url then '_' else '/')
  }

  function PlaceOf(c: char, url: bool): int {
    if 'A' <= c <= 'Z' then c as int - 65
    else if 'a' <= c <= 'z' then c as int - 71
    else if '0' <= c <= '9' then c as int + 4
    else if c == (if url then '-' else '+') then 62
    else if c == (if url then '_' else '/') then 63
    else -1
  }

  predicate InAlphabet(c: char, url: bool) {
    PlaceOf(c, url) != -1
  }

  function EncodeChar(s: Sextet, url: bool): char {
    CharAt(s as int, url)
  }

  function DecodeChar(c: char, url: bool): Sextet
    requires InAlphabet(c, url)
  {
    PlaceOf(c, url) as Sextet
  }

  lemma CharRoundTrip(s: Sextet, url: bool)
    ensures InAlphabet(EncodeChar(s, url), url) && DecodeChar(EncodeChar(s, url), url) == s
  {
    var i := s as int;
    assert PlaceOf(CharAt(i, url), url) == i;
    assert i as Sextet == s;
  }

  lemma PlaceRoundTrip(c: char, url: bool)
    requires InAlphabet(c, url)
    ensures 0 <= PlaceOf(c, url) < 64 && EncodeChar(DecodeChar(c, url), url) == c
  {
    var i := PlaceOf(c, url);
    assert CharAt(i, url) == c;
    assert (i as Sextet) as int == i;
  }

  // ---------------------------------------------------------------- three bytes and four sextets

  function S0(a: Byte): Sextet { (a >> 2) as Sextet }
  function S1(a: Byte, b: Byte): Sextet { (((a & 3) << 4) | (b >> 4)) as Sextet }
  function S2(b: Byte, c: Byte): Sextet { (((b & 15) << 2) | (c >> 6)) as Sextet }
  function S3(c: Byte): Sextet { (c & 63) as Sextet }

  function B0(p: Sextet, q: Sextet): Byte { (p as Byte << 2) | (q as Byte >> 4) }
  function B1(q: Sextet, r: Sextet): Byte { (q as Byte << 4) | (r as Byte >> 2) }
  function B2(r: Sextet, s: Sextet): Byte { (r as Byte << 6) | s as Byte }

  lemma BytesRoundTrip(a: Byte, b: Byte, c: Byte)
    ensures B0(S0(a), S1(a, b)) == a && B1(S1(a, b), S2(b, c)) == b && B2(S2(b, c), S3(c)) == c
  {
  }

  /** Three bytes and their four sextets are one number of 24 bits, most significant first. */
  lemma SameBits(a: Byte, b: Byte, c: Byte)
    ensures (S0(a) as bv24 << 18) | (S1(a, b) as bv24 << 12) | (S2(b, c) as bv24 << 6) | S3(c) as bv24 ==
            (a as bv24 << 16) | (b as bv24 << 8) | c as bv24
  {
  }

  lemma TailSextets(p: Sextet, q: Sextet, p': Sextet, q': Sextet)
    ensures B0(p, q) == B0(p', q') <==> p == p' && q >> 4 == q' >> 4
  {
  }

  // ---------------------------------------------------------------- without padding

  function EncodeBlock(a: Byte, b: Byte, c: Byte, url: bool): (block: string)
    ensures |block| == 4
  {
    [EncodeChar(S0(a), url), EncodeChar(S1(a, b), url), EncodeChar(S2(b, c), url), EncodeChar(S3(c), url)]
  }

  function EncodeRaw(bytes: seq<Byte>, url: bool): string {
    if bytes == [] then ""
    else if |bytes| == 1 then
      [EncodeChar(S0(bytes[0]), url), EncodeChar(S1(bytes[0], 0), url)]
    else if |bytes| == 2 then
      [EncodeChar(S0(bytes[0]), url), EncodeChar(S1(bytes[0], bytes[1]), url), EncodeChar(S2(bytes[1], 0), url)]
    else EncodeBlock(bytes[0], bytes[1], bytes[2], url) + EncodeRaw(bytes[3..], url)
  }

  predicate AllInAlphabet(s: string, url: bool) {
    forall i :: 0 <= i < |s| ==> InAlphabet(s[i], url)
  }

  /** The bytes of a string over the alphabet; one character left over at the end is an error. */
  function DecodeSextets(s: string, url: bool): Option<seq<Byte>>
    requires AllInAlphabet(s, url)
  {
    if s == "" then Some([])
    else if |s| == 1 then None
    else
      var p, q := DecodeChar(s[0], url), DecodeChar(s[1], url);
      if |s| == 2 then Some([B0(p, q)])
      else
        var r := DecodeChar(s[2], url);
        if |s| == 3 then Some([B0(p, q), B1(q, r)])
        else
          match DecodeSextets(s[4..], url)
          case None => None
          case Some(rest) => Some([B0(p, q), B1(q, r), B2(r, DecodeChar(s[3], url))] + rest)
  }

  /** Go's decoder skips carriage returns and newlines wherever they stand. */
  function SkipNewlines(s: string): string {
    if s == "" then ""
    else if s[0] == '\r' || s[0] == '\n' then SkipNewlines(s[1..])
    else [s[0]] + SkipNewlines(s[1..])
  }

  lemma {:induction false} SkipNothing(s: string)
    requires forall i :: 0 <= i < |s| ==> s[i] != '\r' && s[i] != '\n'
    ensures SkipNewlines(s) == s
  {
    if s != "" {
      SkipNothing(s[1..]);
    }
  }

  /** RawURLEncoding.DecodeString. */
  function DecodeRaw(s: string, url: bool): Option<seq<Byte>> {
    var text := SkipNewlines(s);
    if AllInAlphabet(text, url) then DecodeSextets(text, url) else None
  }

  function RawLength(n: nat): nat {
    n / 3 * 4 + (if n % 3 == 0 then 0 else n % 3 + 1)
  }

  lemma {:induction false} EncodeRawShape(bytes: seq<Byte>, url: bool)
    ensures |EncodeRaw(bytes, url)| == RawLength(|bytes|)
    ensures AllInAlphabet(EncodeRaw(bytes, url), url)
    decreases |bytes|
  {
    hide EncodeChar, InAlphabet, S0, S1, S2, S3;
    forall s: Sextet ensures InAlphabet(EncodeChar(s, url), url) {
      CharRoundTrip(s, url);
    }
    if |bytes| >= 3 {
      EncodeRawShape(bytes[3..], url);
    }
  }

  /** One block decodes to its bytes, and so do its first two and three characters to theirs. */
  lemma BlockRoundTrip(a: Byte, b: Byte, c: Byte, url: bool)
    ensures var s := EncodeBlock(a, b, c, url);
            && AllInAlphabet(s, url)
            && B0(DecodeChar(s[0], url), DecodeChar(s[1], url)) == a
            && B1(DecodeChar(s[1], url), DecodeChar(s[2], url)) == b
            && B2(DecodeChar(s[2], url), DecodeChar(s[3], url)) == c
  {
    CharRoundTrip(S0(a), url);
    CharRoundTrip(S1(a, b), url);
    CharRoundTrip(S2(b, c), url);
    CharRoundTrip(S3(c), url);
    BytesRoundTrip(a, b, c);
    hide EncodeChar, DecodeChar, InAlphabet, S0, S1, S2, S3, B0, B1, B2;
  }

  lemma SextetsOfBlock(a: Byte, b: Byte, c: Byte, rest: string, url: bool)
    requires AllInAlphabet(rest, url) && DecodeSextets(rest, url).Some?
    ensures AllInAlphabet(EncodeBlock(a, b, c, url) + rest, url)
    ensures DecodeSextets(EncodeBlock(a, b, c, url) + rest, url) == Some([a, b, c] + DecodeSextets(rest, url).value)
  {
    BlockRoundTrip(a, b, c, url);
    hide EncodeChar, DecodeChar, InAlphabet, S0, S1, S2, S3, B0, B1, B2, EncodeBlock;
    assert (EncodeBlock(a, b, c, url) + rest)[4..] == rest;
  }

  lemma SextetsOfOne(a: Byte, url: bool)
    ensures AllInAlphabet(EncodeRaw([a], url), url) && DecodeSextets(EncodeRaw([a], url), url) == Some([a])
  {
    CharRoundTrip(S0(a), url);
    CharRoundTrip(S1(a, 0), url);
    BytesRoundTrip(a, 0, 0);
    hide EncodeChar, DecodeChar, InAlphabet, S0, S1, B0, B1;
  }

  lemma SextetsOfTwo(a: Byte, b: Byte, url: bool)
    ensures AllInAlphabet(EncodeRaw([a, b], url), url) && DecodeSextets(EncodeRaw([a, b], url), url) == Some([a, b])
  {
    CharRoundTrip(S0(a), url);
    CharRoundTrip(S1(a, b), url);
    CharRoundTrip(S2(b, 0), url);
    BytesRoundTrip(a, b, 0);
    hide EncodeChar, DecodeChar, InAlphabet, S0, S1, S2, B0, B1, B2;
  }

  lemma {:induction false} SextetsOfEncoded(bytes: seq<Byte>, url: bool)
    requires AllInAlphabet(EncodeRaw(bytes, url), url)
    ensures DecodeSextets(EncodeRaw(bytes, url), url) == Some(bytes)
    decreases |bytes|
  {
    hide EncodeChar, DecodeChar, InAlphabet, S0, S1, S2, S3, B0, B1, B2, EncodeBlock;
    if |bytes| == 0 {
    } else if |bytes| == 1 {
      assert bytes == [bytes[0]];
      SextetsOfOne(bytes[0], url);
    } else if |bytes| == 2 {
      assert bytes == [bytes[0], bytes[1]];
      SextetsOfTwo(bytes[0], bytes[1], url);
    } else {
      EncodeRawShape(bytes[3..], url);
      SextetsOfEncoded(bytes[3..], url);
      assert EncodeRaw(bytes, url) == EncodeBlock(bytes[0], bytes[1], bytes[2], url) + EncodeRaw(bytes[3..], url);
      hide DecodeSextets, EncodeRaw;
      SextetsOfBlock(bytes[0], bytes[1], bytes[2], EncodeRaw(bytes[3..], url), url);
      assert bytes == [bytes[0], bytes[1], bytes[2]] + bytes[3..];
    }
  }

  lemma AlphabetHasNoNewline(s: string, url: bool)
    requires AllInAlphabet(s, url)
    ensures SkipNewlines(s) == s
  {
    forall i | 0 <= i < |s| ensures s[i] != '\r' && s[i] != '\n' {
      assert InAlphabet(s[i], url);
    }
    SkipNothing(s);
  }

  /** Decoding undoes encoding, for every byte string. */
  lemma RawRoundTrip(bytes: seq<Byte>, url: bool)
    ensures DecodeRaw(EncodeRaw(bytes, url), url) == Some(bytes)
  {
    EncodeRawShape(bytes, url);
    AlphabetHasNoNewline(EncodeRaw(bytes, url), url);
    SextetsOfEncoded(bytes, url);
  }

  lemma {:induction false} DecodeLength(s: string, url: bool)
    requires AllInAlphabet(s, url) && |s| % 4 != 1
    ensures DecodeSextets(s, url).Some?
    ensures |DecodeSextets(s, url).value| == |s| / 4 * 3 + (if |s| % 4 == 0 then 0 else |s| % 4 - 1)
    decreases |s|
  {
    hide DecodeChar, InAlphabet, B0, B1, B2;
    if |s| >= 4 {
      DecodeLength(s[4..], url);
    }
  }

  /** Agreement of two strings in all but the four bits the last character does not use. */
  predicate SameButLowBits(s: string, t: string, url: bool)
    requires AllInAlphabet(s, url) && AllInAlphabet(t, url) && |s| == |t| && |s| % 4 == 2
  {
    && s[..|s| - 1] == t[..|s| - 1]
    && DecodeChar(s[|s| - 1], url) >> 4 == DecodeChar(t[|s| - 1], url) >> 4
  }

  lemma SameChar(c: char, d: char, url: bool)
    requires InAlphabet(c, url) && InAlphabet(d, url)
    ensures DecodeChar(c, url) == DecodeChar(d, url) <==> c == d
  {
    PlaceRoundTrip(c, url);
    PlaceRoundTrip(d, url);
  }

  lemma TailForgets(s: string, t: string, url: bool)
    requires AllInAlphabet(s, url) && AllInAlphabet(t, url) && |s| == |t| == 2
    ensures DecodeSextets(s, url) == DecodeSextets(t, url) <==> SameButLowBits(s, t, url)
  {
    SameChar(s[0], t[0], url);
    TailSextets(DecodeChar(s[0], url), DecodeChar(s[1], url), DecodeChar(t[0], url), DecodeChar(t[1], url));
    hide DecodeChar, InAlphabet, B0;
    assert s[..1] == [s[0]] && t[..1] == [t[0]];
  }

  lemma SameButLowBitsSplits(s: string, t: string, url: bool)
    requires AllInAlphabet(s, url) && AllInAlphabet(t, url) && |s| == |t| && |s| % 4 == 2 && |s| > 4
    ensures SameButLowBits(s, t, url) <==> s[..4] == t[..4] && SameButLowBits(s[4..], t[4..], url)
  {
    hide DecodeChar, InAlphabet;
    var n := |s| - 1;
    assert s[..n] == s[..4] + s[4..][..n - 4];
    assert t[..n] == t[..4] + t[4..][..n - 4];
    if s[..n] == t[..n] {
      assert s[..4] == s[..n][..4] && t[..4] == t[..n][..4];
      assert s[4..][..n - 4] == s[..n][4..] && t[4..][..n - 4] == t[..n][4..];
    }
  }

  lemma DecodeSplits(s: string, t: string, url: bool)
    requires AllInAlphabet(s, url) && AllInAlphabet(t, url) && |s| == |t| && |s| >= 4
    requires DecodeSextets(s[4..], url).Some? && DecodeSextets(t[4..], url).Some?
    ensures DecodeSextets(s, url) == DecodeSextets(t, url) <==>
            && B0(DecodeChar(s[0], url), DecodeChar(s[1], url)) == B0(DecodeChar(t[0], url), DecodeChar(t[1], url))
            && B1(DecodeChar(s[1], url), DecodeChar(s[2], url)) == B1(DecodeChar(t[1], url), DecodeChar(t[2], url))
            && B2(DecodeChar(s[2], url), DecodeChar(s[3], url)) == B2(DecodeChar(t[2], url), DecodeChar(t[3], url))
            && DecodeSextets(s[4..], url) == DecodeSextets(t[4..], url)
  {
    hide DecodeChar, InAlphabet, B0, B1, B2;
    var x, y := DecodeSextets(s, url).value, DecodeSextets(t, url).value;
    assert x[3..] == DecodeSextets(s[4..], url).value;
    assert y[3..] == DecodeSextets(t[4..], url).value;
  }

  lemma SameSextets(p: Sextet, q: Sextet, r: Sextet, s: Sextet, p': Sextet, q': Sextet, r': Sextet, s': Sextet)
    ensures B0(p, q) == B0(p', q') && B1(q, r) == B1(q', r') && B2(r, s) == B2(r', s')
       <==> p == p' && q == q' && r == r' && s == s'
  {
  }

  lemma BlockInjective(s: string, t: string, url: bool)
    requires AllInAlphabet(s, url) && AllInAlphabet(t, url) && |s| >= 4 && |t| >= 4
    ensures (&& B0(DecodeChar(s[0], url), DecodeChar(s[1], url)) == B0(DecodeChar(t[0], url), DecodeChar(t[1], url))
             && B1(DecodeChar(s[1], url), DecodeChar(s[2], url)) == B1(DecodeChar(t[1], url), DecodeChar(t[2], url))
             && B2(DecodeChar(s[2], url), DecodeChar(s[3], url)) == B2(DecodeChar(t[2], url), DecodeChar(t[3], url)))
       <==> s[..4] == t[..4]
  {
    SameChar(s[0], t[0], url);
    SameChar(s[1], t[1], url);
    SameChar(s[2], t[2], url);
    SameChar(s[3], t[3], url);
    SameSextets(DecodeChar(s[0], url), DecodeChar(s[1], url), DecodeChar(s[2], url), DecodeChar(s[3], url),
                DecodeChar(t[0], url), DecodeChar(t[1], url), DecodeChar(t[2], url), DecodeChar(t[3], url));
    hide DecodeChar, InAlphabet, B0, B1, B2;
    assert s[..4] == [s[0], s[1], s[2], s[3]];
    assert t[..4] == [t[0], t[1], t[2], t[3]];
  }

  /** With two characters left over, decoding forgets exactly the last character's low four bits. */
  lemma {:induction false} DecodeForgetsLowBits(s: string, t: string, url: bool)
    requires AllInAlphabet(s, url) && AllInAlphabet(t, url) && |s| == |t| && |s| % 4 == 2
    ensures DecodeSextets(s, url) == DecodeSextets(t, url) <==> SameButLowBits(s, t, url)
    decreases |s|
  {
    hide DecodeChar, InAlphabet, B0, B1, B2, DecodeSextets, SameButLowBits;
    if |s| == 2 {
      TailForgets(s, t, url);
    } else {
      DecodeForgetsLowBits(s[4..], t[4..], url);
      DecodeLength(s[4..], url);
      DecodeLength(t[4..], url);
      BlockInjective(s, t, url);
      DecodeSplits(s, t, url);
      SameButLowBitsSplits(s, t, url);
    }
  }

  lemma UnusedBitsZero(a: Byte)
    ensures S1(a, 0) & 15 == 0
  {
  }

  lemma SameSextet(p: Sextet, q: Sextet)
    requires p >> 4 == q >> 4 && p & 15 == q & 15
    ensures p == q
  {
  }

  /** Where one byte is left over, encoding leaves the last character's low four bits zero. */
  lemma {:induction false} EncodedLastChar(bytes: seq<Byte>, url: bool)
    requires |bytes| % 3 == 1
    ensures var raw := EncodeRaw(bytes, url);
            raw != "" && InAlphabet(raw[|raw| - 1], url) && DecodeChar(raw[|raw| - 1], url) & 15 == 0
    decreases |bytes|
  {
    hide EncodeChar, DecodeChar, InAlphabet, S0, S1, S2, S3;
    if |bytes| == 1 {
      UnusedBitsZero(bytes[0]);
      CharRoundTrip(S1(bytes[0], 0), url);
    } else {
      EncodedLastChar(bytes[3..], url);
      var block, rest := EncodeBlock(bytes[0], bytes[1], bytes[2], url), EncodeRaw(bytes[3..], url);
      assert EncodeRaw(bytes, url) == block + rest;
      assert (block + rest)[|block + rest| - 1] == rest[|rest| - 1];
    }
  }

  // ---------------------------------------------------------------- with padding

  function EncodeStd(bytes: seq<Byte>): string {
    EncodeRaw(bytes, false) + (match |bytes| % 3 case 0 => "" case 1 => "==" case _ => "=")
  }

  /** Whole blocks of four; only the last may end in one or two '='. */
  function DecodeBlocks(s: string): Option<seq<Byte>> {
    if s == "" then Some([])
    else if |s| < 4 then None
    else if |s| > 4 then
      if !AllInAlphabet(s[..4], false) then None
      else
        match (DecodeSextets(s[..4], false), DecodeBlocks(s[4..]))
        case (Some(block), Some(rest)) => Some(block + rest)
        case _ => None
    else
      var body := if s[2] == '=' && s[3] == '=' then s[..2] else if s[3] == '=' then s[..3] else s;
      if AllInAlphabet(body, false) then DecodeSextets(body, false) else None
  }

  /** StdEncoding.DecodeString. */
  function DecodeStd(s: string): Option<seq<Byte>> {
    DecodeBlocks(SkipNewlines(s))
  }

  lemma SextetsOfWhole(a: Byte, b: Byte, c: Byte)
    ensures AllInAlphabet(EncodeBlock(a, b, c, false), false)
    ensures DecodeSextets(EncodeBlock(a, b, c, false), false) == Some([a, b, c])
  {
    SextetsOfBlock(a, b, c, "", false);
    hide EncodeBlock, InAlphabet;
    assert EncodeBlock(a, b, c, false) + "" == EncodeBlock(a, b, c, false);
    assert [a, b, c] + [] == [a, b, c];
  }

  lemma EncodeStdStep(bytes: seq<Byte>)
    requires |bytes| > 3
    ensures EncodeStd(bytes) == EncodeBlock(bytes[0], bytes[1], bytes[2], false) + EncodeStd(bytes[3..])
  {
    hide EncodeBlock;
    assert |bytes[3..]| % 3 == |bytes| % 3;
  }

  lemma DecodeBlocksStep(block: string, rest: string, first: seq<Byte>, others: seq<Byte>)
    requires |block| == 4 && AllInAlphabet(block, false) && DecodeSextets(block, false) == Some(first)
    requires rest != "" && DecodeBlocks(rest) == Some(others)
    ensures DecodeBlocks(block + rest) == Some(first + others)
  {
    hide DecodeSextets, InAlphabet;
    assert (block + rest)[..4] == block && (block + rest)[4..] == rest;
  }

  lemma StdLastBlock(bytes: seq<Byte>)
    requires 1 <= |bytes| <= 3
    ensures DecodeBlocks(EncodeStd(bytes)) == Some(bytes)
    ensures |EncodeStd(bytes)| == 4
    ensures forall i :: 0 <= i < 4 ==> EncodeStd(bytes)[i] == '=' || InAlphabet(EncodeStd(bytes)[i], false)
  {
    var raw, s := EncodeRaw(bytes, false), EncodeStd(bytes);
    EncodeRawShape(bytes, false);
    SextetsOfEncoded(bytes, false);
    hide EncodeRaw, DecodeSextets;
    assert forall i :: 0 <= i < |raw| ==> InAlphabet(raw[i], false);
    assert s[..|raw|] == raw;
    assert forall i :: 0 <= i < |raw| ==> s[i] == raw[i] && s[i] != '=';
  }

  lemma {:induction false} StdBlocks(bytes: seq<Byte>)
    ensures DecodeBlocks(EncodeStd(bytes)) == Some(bytes)
    ensures |EncodeStd(bytes)| >= 4 || bytes == []
    ensures forall i :: 0 <= i < |EncodeStd(bytes)| ==>
              EncodeStd(bytes)[i] == '=' || InAlphabet(EncodeStd(bytes)[i], false)
    decreases |bytes|
  {
    hide EncodeBlock, DecodeSextets, InAlphabet;
    if |bytes| > 3 {
      hide EncodeRaw;
      StdBlocks(bytes[3..]);
      EncodeStdStep(bytes);
      SextetsOfWhole(bytes[0], bytes[1], bytes[2]);
      var block, rest := EncodeBlock(bytes[0], bytes[1], bytes[2], false), EncodeStd(bytes[3..]);
      hide EncodeStd, DecodeBlocks;
      DecodeBlocksStep(block, rest, [bytes[0], bytes[1], bytes[2]], bytes[3..]);
      assert bytes == [bytes[0], bytes[1], bytes[2]] + bytes[3..];
    } else if |bytes| > 0 {
      StdLastBlock(bytes);
      hide EncodeStd;
    }
  }

  lemma NoNewlines(s: string)
    requires forall c :: c in s ==> c == '=' || InAlphabet(c, false)
    ensures '\n' !in s && '\r' !in s
  {
  }

  /** Decoding undoes padded encoding, for every byte string. */
  lemma StdRoundTrip(bytes: seq<Byte>)
    ensures DecodeStd(EncodeStd(bytes)) == Some(bytes)
    ensures forall c :: c in EncodeStd(bytes) ==> c == '=' || InAlphabet(c, false)
  {
    hide EncodeStd, DecodeBlocks, SkipNewlines, InAlphabet;
    StdBlocks(bytes);
    NoNewlines(EncodeStd(bytes));
    SkipNothing(EncodeStd(bytes));
  }
}
