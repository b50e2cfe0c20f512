/**
 * Go's `strconv.Atoi` on a 64-bit platform, which the `-s WxH` parse uses:
 * an optional sign followed by one or more decimal digits, whose value must
 * lie in the `int` range; anything else is an error.
 */
module Strconv {
  import opened Wrappers

  const MaxInt: int := 0x7fff_ffff_ffff_ffff
  const MinInt: int := -0x8000_0000_0000_0000

  predicate IsDigit(c: char) { '0' <= c <= '9' }

  predicate AllDigits(s: string) { forall i :: 0 <= i < |s| ==> IsDigit(s[i]) }

  function DigitValue(c: char): nat
    requires IsDigit(c)
  {
    c as int - '0' as int
  }

  function DigitChar(d: nat): (c: char)
    requires d < 10
    ensures IsDigit(c) && DigitValue(c) == d
  {
    ('0' as int + d) as char
  }

  /** The value of a digit string, most significant digit first. */
  function DigitsValue(s: string): nat
    requires AllDigits(s)
  {
    if |s| == 0 then 0 else DigitsValue(s[..|s| - 1]) * 10 + DigitValue(s[|s| - 1])
  }

  /**
   * `s` spells `v`: one or more digits, optionally after a `+` or `-`
   * sign, whose value with that sign is `v`.
   */
  predicate Spells(s: string, v: int)
  {
    || (|s| > 0 && AllDigits(s) && v == DigitsValue(s))
    || (|s| > 1 && s[0] == '+' && AllDigits(s[1..]) && v == DigitsValue(s[1..]))
    || (|s| > 1 && s[0] == '-' && AllDigits(s[1..]) && v == 0 - DigitsValue(s[1..]))
  }

  /**
   * `strconv.Atoi`; `None` stands for its syntax and range errors. It
   * succeeds exactly on the spellings of a value in the `int` range, and
   * then yields that value.
   */
  function Atoi(s: string): (r: Option<int>)
    ensures r.Some? ==> MinInt <= r.value <= MaxInt && Spells(s, r.value)
    ensures r.None? ==> forall v :: Spells(s, v) ==> v < MinInt || MaxInt < v
    ensures r.Some? ==> |s| > 0 && (IsDigit(s[0]) || s[0] == '-' || s[0] == '+')
    ensures AllDigits(s) && |s| > 0 && DigitsValue(s) <= MaxInt ==> r == Some(DigitsValue(s))
  {
    var signed := |s| > 0 && (s[0] == '-' || s[0] == '+');
    var digits := if signed then s[1..] else s;
    if |digits| == 0 || !AllDigits(digits) then None
    else
      var n: int := if signed && s[0] == '-' then 0 - DigitsValue(digits) as int else DigitsValue(digits);
      if MinInt <= n <= MaxInt then Some(n) else None
  }

  /** A string spells at most one value, so `Atoi`'s result is determined by its contract. */
  lemma SpellsIsFunctional(s: string)
    ensures forall v, w :: Spells(s, v) && Spells(s, w) ==> v == w
  {
  }

  /** A trailing letter is a syntax error. */
  lemma TrailingLetterRejected()
    ensures Atoi("1a") == None
  {
    assert !IsDigit("1a"[1]);
  }

  /** The shortest decimal spelling of `n`, as `strconv.Itoa` prints it. */
  function Decimal(n: nat): (s: string)
    ensures |s| > 0 && AllDigits(s)
  {
    if n < 10 then [DigitChar(n)] else Decimal(n / 10) + [DigitChar(n % 10)]
  }

  lemma {:induction false} DecimalValue(n: nat)
    ensures DigitsValue(Decimal(n)) == n
  {
    if n >= 10 {
      var s := Decimal(n);
      assert s[..|s| - 1] == Decimal(n / 10);
      DecimalValue(n / 10);
    }
  }

  /** Atoi reads back what Itoa prints, for every value of either sign. */
  lemma AtoiDecimal(n: int)
    requires MinInt <= n <= MaxInt
    ensures n >= 0 ==> Atoi(Decimal(n)) == Some(n)
    ensures n < 0 ==> Atoi("-" + Decimal(-n)) == Some(n)
  {
    if n >= 0 {
      DecimalValue(n);
    } else {
      DecimalValue(-n);
      var s := "-" + Decimal(-n);
      assert s[1..] == Decimal(-n);
    }
  }
}
