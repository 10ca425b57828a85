/** strconv.FormatInt and strconv.ParseInt for 64-bit integers in bases 2 to 36. */
module Numerals {
  import opened Options

  const MAX_INT64 := 0x7FFF_FFFF_FFFF_FFFF
  const MIN_INT64 := -0x8000_0000_0000_0000

  /** The nearest 64-bit integer, as time.Time.Sub answers for a difference that does not fit. */
  function Saturated(n: int): int {
    if n > MAX_INT64 then MAX_INT64 else if n < MIN_INT64 then MIN_INT64 else n
  }

  function Digit(d: int): char
    requires 0 <= d < 36
  {
    if d < 10 then (48 + d) as char else (87 + d) as char
  }

  /** Both letter cases are read; anything else is no digit. */
  function DigitValue(c: char): int {
    if '0' <= c <= '9' then c as int - 48
    else if 'a' <= c <= 'z' then c as int - 87
    else if 'A' <= c <= 'Z' then c as int - 55
    else 36
  }

  lemma Grows(q: nat, n: nat, base: nat)
    requires q >= n && base >= 2
    ensures q * base >= n * 2
  {
  }

  lemma DivMod(n: nat, base: nat)
    requires 2 <= base
    ensures n / base * base + n % base == n && 0 <= n % base < base
    ensures n >= base ==> n / base < n
  {
    if n >= base && n / base >= n {
      assert n / base * base >= n * 2 by {
        Grows(n / base, n, base);
      }
    }
  }

  function FormatNat(n: nat, base: nat): string
    requires 2 <= base <= 36
  {
    if n < base then [Digit(n)]
    else
      DivMod(n, base);
      FormatNat(n / base, base) + [Digit(n % base)]
  }

  function FormatInt(n: int, base: nat): string
    requires 2 <= base <= 36
  {
    if n < 0 then "-" + FormatNat(-n, base) else FormatNat(n, base)
  }

  function ParseNat(s: string, base: nat): Option<nat>
    requires 2 <= base <= 36
  {
    if s == "" then None
    else
      var d := DigitValue(s[|s| - 1]);
      if d >= base then None
      else if |s| == 1 then Some(d)
      else
        match ParseNat(s[..|s| - 1], base)
        case None => None
        case Some(high) => Some(high * base + d)
  }

  /** One optional sign, digits, and a value that fits; None stands for a syntax or range error. */
  function ParseInt(s: string, base: nat): Option<int>
    requires 2 <= base <= 36
  {
    if s == "" then None
    else
      var signed := s[0] == '+' || s[0] == '-';
      match ParseNat(if signed then s[1..] else s, base)
      case None => None
      case Some(n) =>
        if s[0] == '-' then (if n > -MIN_INT64 then None else Some(-(n as int)))
        else if n > MAX_INT64 then None else Some(n)
  }

  predicate LowerDigit(c: char) {
    '0' <= c <= '9' || 'a' <= c <= 'z'
  }

  lemma {:induction false} FormatNatRoundTrip(n: nat, base: nat)
    requires 2 <= base <= 36
    ensures FormatNat(n, base) != ""
    ensures forall c :: c in FormatNat(n, base) ==> LowerDigit(c)
    ensures ParseNat(FormatNat(n, base), base) == Some(n)
    decreases n
  {
    DivMod(n, base);
    if n >= base {
      FormatNatRoundTrip(n / base, base);
      var s := FormatNat(n, base);
      assert s[..|s| - 1] == FormatNat(n / base, base);
    }
  }

  /** Parsing undoes formatting for every 64-bit integer. */
  lemma FormatIntRoundTrip(n: int, base: nat)
    requires 2 <= base <= 36 && MIN_INT64 <= n <= MAX_INT64
    ensures ParseInt(FormatInt(n, base), base) == Some(n)
    ensures n >= 0 ==> FormatInt(n, base) != "" && forall c :: c in FormatInt(n, base) ==> LowerDigit(c)
    ensures n < 0 ==> FormatInt(n, base)[0] == '-'
  {
    var m := if n < 0 then -n else n;
    FormatNatRoundTrip(m, base);
    var s := FormatNat(m, base);
    assert s[0] in s;
    if n < 0 {
      assert ("-" + s)[1..] == s;
    }
  }

  // ---------------------------------------------------------------- which texts are printed ones

  /** A printed natural number: small digits of the base, and no zero in front of another digit. */
  predicate CanonicalNat(s: string, base: nat) {
    && s != "" && (forall c :: c in s ==> LowerDigit(c) && DigitValue(c) < base)
    && (|s| > 1 ==> s[0] != '0')
  }

  lemma DigitOfValue(c: char)
    ensures LowerDigit(c) ==> Digit(DigitValue(c)) == c
  {
  }

  lemma AtLeastBase(k: nat, base: nat)
    requires k >= 1
    ensures k * base >= base
  {
  }

  /** Reading shifts by one digit, so dividing gives the digits before the last one and the last one back. */
  lemma ShiftedDigit(high: nat, d: nat, base: nat)
    requires 2 <= base && d < base
    ensures (high * base + d) / base == high && (high * base + d) % base == d
    ensures high > 0 ==> high * base + d >= base
  {
    DivMod(high * base + d, base);
    var q, r := (high * base + d) / base, (high * base + d) % base;
    assert (q - high) * base == d - r;
    if q > high {
      AtLeastBase(q - high, base);
    } else if q < high {
      AtLeastBase(high - q, base);
    }
    if high > 0 {
      AtLeastBase(high, base);
    }
  }

  /** The printed form of a positive number starts with a digit that is not zero. */
  lemma {:induction false} FormatNatLeads(n: nat, base: nat)
    requires 2 <= base <= 36 && n > 0
    ensures FormatNat(n, base) != "" && FormatNat(n, base)[0] != '0'
    decreases n
  {
    DivMod(n, base);
    if n >= base {
      FormatNatLeads(n / base, base);
      var high := FormatNat(n / base, base);
      assert FormatNat(n, base) == high + [Digit(n % base)];
      assert FormatNat(n, base)[0] == high[0];
    }
  }

  lemma {:induction false} FormatNatDigits(n: nat, base: nat)
    requires 2 <= base <= 36
    ensures FormatNat(n, base) != "" && forall c :: c in FormatNat(n, base) ==> LowerDigit(c) && DigitValue(c) < base
    ensures n < base ==> |FormatNat(n, base)| == 1
    decreases n
  {
    DivMod(n, base);
    if n >= base {
      FormatNatDigits(n / base, base);
    }
  }

  /** Printing gives canonical digits. */
  lemma FormatNatCanonical(n: nat, base: nat)
    requires 2 <= base <= 36
    ensures CanonicalNat(FormatNat(n, base), base)
  {
    FormatNatDigits(n, base);
    if n >= base {
      FormatNatLeads(n, base);
    }
  }

  /** Canonical digits are what printing the number they read as gives back. */
  lemma {:induction false} CanonicalIsPrinted(s: string, base: nat)
    requires 2 <= base <= 36 && CanonicalNat(s, base)
    ensures ParseNat(s, base).Some? && FormatNat(ParseNat(s, base).value, base) == s
    ensures s[0] != '0' ==> ParseNat(s, base).value > 0
    decreases |s|
  {
    var last := s[|s| - 1];
    assert last in s;
    DigitOfValue(last);
    if |s| > 1 {
      var init := s[..|s| - 1];
      assert forall c :: c in init ==> c in s;
      CanonicalIsPrinted(init, base);
      ShiftedDigit(ParseNat(init, base).value, DigitValue(last), base);
      assert s == init + [last];
    }
  }

  /** A text that reads as a number is the printed one exactly when it is canonical. */
  lemma PrintedExactly(s: string, n: int, base: nat)
    requires 2 <= base <= 36 && n >= 0 && ParseInt(s, base) == Some(n)
    ensures s == FormatInt(n, base) <==> CanonicalNat(s, base)
  {
    FormatNatCanonical(n, base);
    if CanonicalNat(s, base) {
      assert s[0] in s;
      CanonicalIsPrinted(s, base);
    }
  }

  /** Only the values of the digits count. */
  lemma {:induction false} SameDigitsReadAlike(s: string, r: string, base: nat)
    requires 2 <= base <= 36 && |s| == |r|
    requires forall i :: 0 <= i < |s| ==> DigitValue(s[i]) == DigitValue(r[i])
    ensures ParseNat(s, base) == ParseNat(r, base)
    decreases |s|
  {
    if |s| > 1 {
      SameDigitsReadAlike(s[..|s| - 1], r[..|r| - 1], base);
    }
  }

  /** A zero in front adds nothing. */
  lemma {:induction false} LeadingZeroReadsAlike(s: string, base: nat)
    requires 2 <= base <= 36 && s != ""
    ensures ParseNat("0" + s, base) == ParseNat(s, base)
    decreases |s|
  {
    var zero := "0" + s;
    assert zero[|zero| - 1] == s[|s| - 1];
    assert zero[..|zero| - 1] == "0" + s[..|s| - 1];
    if |s| > 1 {
      LeadingZeroReadsAlike(s[..|s| - 1], base);
    } else {
      assert "0" + s[..0] == "0";
      assert ParseNat("0", base) == Some(0);
    }
  }
}
