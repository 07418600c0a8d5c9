/** Go's `strconv.ParseInt(s, base, 64)` as a pure function, and `strconv.FormatInt`
    as its inverse. */
module Strconv {
  import opened Wrappers

  const MinInt64: int := -0x8000_0000_0000_0000
  const MaxInt64: int := 0x7fff_ffff_ffff_ffff

  /** The values an `int64` can hold. */
  predicate InInt64(n: int)
  {
    MinInt64 <= n <= MaxInt64
  }

  /** A numeric base `strconv` accepts as an explicit argument. */
  type Base = b: int | 2 <= b <= 36 witness 10

  /** Value of a character as a digit: `0`-`9`, then letters of either case from 10 to 35;
      -1 for every other character. */
  function DigitValue(c: char): int
  {
    if '0' <= c <= '9' then c as int - '0' as int
    else if 'a' <= c <= 'z' then c as int - 'a' as int + 10
    else if 'A' <= c <= 'Z' then c as int - 'A' as int + 10
    else -1
  }

  /** A digit of the base. */
  predicate IsDigit(c: char, base: Base)
  {
    0 <= DigitValue(c) < base
  }

  /** Every character is a digit of the base. */
  predicate AllDigits(s: string, base: Base)
  {
    forall i :: 0 <= i < |s| ==> IsDigit(s[i], base)
  }

  /** The number a digit string denotes, most significant digit first. */
  function DigitsValue(s: string, base: Base): nat
    requires AllDigits(s, base)
  {
    if |s| == 0 then 0
    else DigitsValue(s[..|s| - 1], base) * base + DigitValue(s[|s| - 1])
  }

  /** `strconv.ParseInt(s, base, 64)`: an optional `+` or `-` sign, then a non-empty
      run of digits of the base (no `0x` prefix and no underscores, since the base is
      given explicitly), with a result that fits in `int64`. Every error is `None`. */
  function ParseInt(s: string, base: Base): (r: Option<int>)
    ensures r.Some? ==> InInt64(r.value)
    ensures r.Some? ==> |s| >= 1 && IsDigit(s[|s| - 1], base)
  {
    if |s| == 0 then None
    else
      var signed := s[0] == '+' || s[0] == '-';
      var body := if signed then s[1..] else s;
      if |body| == 0 || !AllDigits(body, base) then None
      else
        var magnitude: int := DigitsValue(body, base);
        var n := if s[0] == '-' then -magnitude else magnitude;
        if InInt64(n) then Some(n) else None
  }

  /** The character of a digit value, lower-case letters above 9, as `FormatInt` writes it. */
  function DigitChar(d: nat): (c: char)
    requires d < 36
    ensures DigitValue(c) == d
  {
    if d < 10 then ('0' as int + d) as char else ('a' as int + d - 10) as char
  }

  /** The digits of a natural number, without leading zeros. */
  function FormatNat(n: nat, base: Base): string
  {
    if n < base then [DigitChar(n)]
    else
      DivideByBase(n, base);
      FormatNat(n / base, base) + [DigitChar(n % base)]
  }

  /** `strconv.FormatInt(n, base)`: a `-` for negative numbers, then the digits. */
  function FormatInt(n: int, base: Base): string
  {
    if n < 0 then "-" + FormatNat(-n, base) else FormatNat(n, base)
  }

  /** `FormatNat` writes a non-empty digit string denoting exactly `n`. */
  lemma {:induction false} FormatNatDenotes(n: nat, base: Base)
    ensures |FormatNat(n, base)| >= 1
    ensures AllDigits(FormatNat(n, base), base)
    ensures DigitsValue(FormatNat(n, base), base) == n
    decreases n
  {
    if n >= base {
      DivideByBase(n, base);
      var high := FormatNat(n / base, base);
      var low := DigitChar(n % base);
      FormatNatDenotes(n / base, base);
      AppendDigit(high, low, base);
      assert FormatNat(n, base) == high + [low];
      assert DigitsValue(high, base) == n / base;
      assert DigitValue(low) == n % base;
    } else {
      assert FormatNat(n, base)[..0] == [];
    }
  }

  /** Appending a digit shifts the value one place left and adds the digit. */
  lemma AppendDigit(high: string, low: char, base: Base)
    requires AllDigits(high, base) && IsDigit(low, base)
    ensures AllDigits(high + [low], base)
    ensures DigitsValue(high + [low], base) == DigitsValue(high, base) * base + DigitValue(low)
  {
    var s := high + [low];
    assert s[..|s| - 1] == high;
  }

  /** Euclidean division by the base: quotient and a remainder below the base, with
      the quotient smaller than `n` once `n` reaches the base. */
  lemma DivideByBase(n: nat, base: Base)
    ensures (n / base) * base + n % base == n
    ensures 0 <= n % base < base
    ensures n >= base ==> n / base < n
  {
  }

  /** Parsing what `FormatInt` wrote gives the number back whenever it fits in
      `int64`, and fails exactly when it does not. */
  lemma ParseFormat(n: int, base: Base)
    ensures ParseInt(FormatInt(n, base), base) == if InInt64(n) then Some(n) else None
  {
    var m: nat := if n < 0 then -n else n;
    FormatNatDenotes(m, base);
    if n < 0 {
      ParseNegative(FormatNat(m, base), base);
    } else {
      ParseUnsigned(FormatNat(m, base), base);
    }
  }

  /** An unsigned digit string parses to its value when that fits in `int64`. */
  lemma ParseUnsigned(digits: string, base: Base)
    requires |digits| >= 1 && AllDigits(digits, base)
    ensures ParseInt(digits, base) ==
      if InInt64(DigitsValue(digits, base)) then Some(DigitsValue(digits, base)) else None
  {
    assert IsDigit(digits[0], base);
  }

  /** A digit string after `-` parses to its negated value when that fits in `int64`. */
  lemma ParseNegative(digits: string, base: Base)
    requires |digits| >= 1 && AllDigits(digits, base)
    ensures var n: int := -(DigitsValue(digits, base) as int);
      ParseInt("-" + digits, base) == if InInt64(n) then Some(n) else None
  {
    var s := "-" + digits;
    assert s[0] == '-' && s[1..] == digits;
  }

  /** A digit string after `+` parses to its value when that fits in `int64`. */
  lemma ParsePositive(digits: string, base: Base)
    requires |digits| >= 1 && AllDigits(digits, base)
    ensures ParseInt("+" + digits, base) ==
      if InInt64(DigitsValue(digits, base)) then Some(DigitsValue(digits, base)) else None
  {
    var s := "+" + digits;
    assert s[0] == '+' && s[1..] == digits;
  }

  /** Every optional sign followed by a non-empty digit string parses, leading zeros
      included, to its signed value when that fits in `int64`, and fails otherwise.
      With `ParsedCharacters` this is the whole of `ParseInt`: nothing else parses. */
  lemma ParseSignedDigits(sign: string, digits: string, base: Base)
    requires sign == "" || sign == "+" || sign == "-"
    requires |digits| >= 1 && AllDigits(digits, base)
    ensures var n: int := if sign == "-" then -(DigitsValue(digits, base) as int) else DigitsValue(digits, base);
      ParseInt(sign + digits, base) == if InInt64(n) then Some(n) else None
  {
    if sign == "" {
      assert sign + digits == digits;
      ParseUnsigned(digits, base);
    } else if sign == "+" {
      ParsePositive(digits, base);
    } else {
      ParseNegative(digits, base);
    }
  }

  /** A leading `+` is accepted: `+255` is read as 255. */
  lemma PlusSignAccepted()
    ensures ParseInt("+255", 10) == Some(255)
  {
    assert "255"[..2] == "25" && "25"[..1] == "2" && "2"[..0] == "";
    ParseSignedDigits("+", "255", 10);
  }

  /** Leading zeros are accepted: `007` is read as 7. */
  lemma LeadingZerosAccepted()
    ensures ParseInt("007", 10) == Some(7)
  {
    assert "007"[..2] == "00" && "00"[..1] == "0" && "0"[..0] == "";
    ParseSignedDigits("", "007", 10);
  }

  /** Everything `FormatInt` writes is digits and an optional leading minus sign. */
  lemma FormatIntCharacters(n: int, base: Base)
    ensures forall i :: 0 <= i < |FormatInt(n, base)| ==>
      IsDigit(FormatInt(n, base)[i], base) || (i == 0 && n < 0 && FormatInt(n, base)[i] == '-')
  {
    FormatNatDenotes(if n < 0 then -n else n, base);
  }

  /** A successful parse accepted only a sign followed by digits of the base. */
  lemma ParsedCharacters(s: string, base: Base)
    requires ParseInt(s, base).Some?
    ensures forall i :: 0 <= i < |s| ==> IsDigit(s[i], base) || (i == 0 && (s[i] == '+' || s[i] == '-'))
  {
    if s[0] == '+' || s[0] == '-' {
      assert forall i :: 1 <= i < |s| ==> s[i] == s[1..][i - 1];
    }
  }
}
