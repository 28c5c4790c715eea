/** Decimal text of unsigned integers: the parse that Rust's `str::parse` performs
    for `u32` and `usize`, and the `{}` formatting used when a number is written
    to a device file. */
module Decimal {
  import opened Wrappers

  const U32Limit: nat := 0x1_0000_0000
  const UsizeLimit: nat := 0x1_0000_0000_0000_0000
  const U64Limit: nat := 0x1_0000_0000_0000_0000

  predicate IsDigit(c: char) {
    '0' <= c <= '9'
  }

  predicate AllDigits(s: string) {
    forall i :: 0 <= i < |s| ==> IsDigit(s[i])
  }

  function DigitValue(c: char): nat
    requires IsDigit(c)
  {
    (c as int - '0' as int) as nat
  }

  function DigitChar(d: nat): (c: char)
    requires d < 10
    ensures IsDigit(c) && DigitValue(c) == d
  {
    ('0' as int + d) as char
  }

  /** The value of a digit string, most significant digit first. */
  function DigitsValue(s: string): nat
    requires AllDigits(s)
  {
    if |s| == 0 then 0
    else 10 * DigitsValue(s[..|s| - 1]) + DigitValue(s[|s| - 1])
  }

  /** The digits of `s` once one optional leading '+' is removed. */
  function Unsigned(s: string): string {
    if |s| > 0 && s[0] == '+' then s[1..] else s
  }

  /** Parsing an unsigned integer of a type whose values are below `limit`:
      an optional '+', then at least one decimal digit and nothing else; a value
      that does not fit is an error, as is the empty string and a lone '+'. */
  function ParseUnsigned(s: string, limit: nat): (r: Option<nat>)
    ensures r.Some? <==>
              && |Unsigned(s)| > 0
              && AllDigits(Unsigned(s))
              && DigitsValue(Unsigned(s)) < limit
    ensures r.Some? ==> r.value < limit
    ensures r.Some? && |s| > 0 && s[0] != '+' ==> AllDigits(s) && r.value == DigitsValue(s)
    ensures r.Some? && |s| > 0 && s[0] == '+' ==> AllDigits(s[1..]) && r.value == DigitsValue(s[1..])
  {
    var digits := Unsigned(s);
    if |digits| == 0 || !AllDigits(digits) then None
    else
      var v := DigitsValue(digits);
      if v < limit then Some(v) else None
  }

  /** Rust's `{}` formatting of an unsigned integer: its decimal digits,
      without sign or leading zeros. */
  function Show(n: nat): string
  {
    if n < 10 then [DigitChar(n)]
    else Show(n / 10) + [DigitChar(n % 10)]
  }

  lemma {:induction false} ShowIsDigits(n: nat)
    ensures |Show(n)| > 0
    ensures AllDigits(Show(n))
    ensures DigitsValue(Show(n)) == n
    ensures Show(n)[0] != '+'
    ensures |Show(n)| > 1 ==> Show(n)[0] != '0'
  {
    if n >= 10 {
      ShowIsDigits(n / 10);
      var s := Show(n);
      assert s[..|s| - 1] == Show(n / 10);
      assert s[0] == Show(n / 10)[0];
    }
  }

  /** Formatting then parsing gives back the number, for every value of the type. */
  lemma ParseShow(n: nat, limit: nat)
    requires n < limit
    ensures ParseUnsigned(Show(n), limit) == Some(n)
  {
    ShowIsDigits(n);
  }

  /** The parse is injective on canonical text: two numbers with the same
      formatting are equal, so the written text determines the value read back. */
  lemma ShowInjective(m: nat, n: nat)
    requires Show(m) == Show(n)
    ensures m == n
  {
    ShowIsDigits(m);
    ShowIsDigits(n);
  }
}
