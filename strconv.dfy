/** Go's `strconv.Atoi` on unbounded integers, and `strconv.Itoa` as its partner. */
module Strconv {

  /** Go's `(int, error)` from `Atoi`: `ok` is false exactly when the error is non-nil. */
  datatype Parsed = Parsed(value: int, ok: bool)

  predicate IsDigit(c: char)
  {
    '0' <= c <= '9'
  }

  predicate AllDigits(s: string)
  {
    forall i | 0 <= i < |s| :: IsDigit(s[i])
  }

  function DigitValue(c: char): nat
    requires IsDigit(c)
  {
    c as int - '0' as int
  }

  /** The number a run of decimal digits denotes, most significant first. */
  function DigitsValue(s: string): nat
    requires AllDigits(s)
  {
    if s == [] then 0 else DigitsValue(s[..|s| - 1]) * 10 + DigitValue(s[|s| - 1])
  }

  /** `strconv.Atoi`: an optional `+` or `-`, then at least one decimal digit. Any other text
      is a syntax error, reported together with the value 0. */
  function Atoi(s: string): (p: Parsed)
    ensures !p.ok ==> p.value == 0
    ensures p.ok && p.value < 0 ==> |s| > 0 && s[0] == '-'
  {
    if |s| > 0 && (s[0] == '+' || s[0] == '-') then
      var digits := s[1..];
      if digits == [] || !AllDigits(digits) then Parsed(0, false)
      else if s[0] == '-' then Parsed(0 - DigitsValue(digits), true)
      else Parsed(DigitsValue(digits), true)
    else if s == [] || !AllDigits(s) then Parsed(0, false)
    else Parsed(DigitsValue(s), true)
  }

  function DigitChar(d: nat): (c: char)
    requires d < 10
    ensures IsDigit(c) && DigitValue(c) == d
  {
    ('0' as int + d) as char
  }

  /** The decimal digits of `n`, without leading zeros. */
  function FormatNat(n: nat): string
  {
    if n < 10 then [DigitChar(n)] else FormatNat(n / 10) + [DigitChar(n % 10)]
  }

  /** `strconv.Itoa`. */
  function FormatInt(n: int): string
  {
    if n < 0 then "-" + FormatNat(-n) else FormatNat(n)
  }

  lemma {:induction false} FormatNatDigits(n: nat)
    ensures FormatNat(n) != [] && AllDigits(FormatNat(n))
    ensures DigitsValue(FormatNat(n)) == n
  {
    if n >= 10 {
      FormatNatDigits(n / 10);
      var s := FormatNat(n);
      assert s[..|s| - 1] == FormatNat(n / 10);
    }
  }

  /** Parsing what `Itoa` prints gives the number back, without error. */
  lemma AtoiFormatInt(n: int)
    ensures Atoi(FormatInt(n)) == Parsed(n, true)
  {
    if n < 0 {
      FormatNatDigits(-n);
      assert FormatInt(n)[1..] == FormatNat(-n);
    } else {
      FormatNatDigits(n);
    }
  }
}
