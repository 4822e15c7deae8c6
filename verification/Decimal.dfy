/** Decimal numerals: the printer every Rust and JavaScript integer formatter shares, and the
    parser behind Rust's `str::parse` for unsigned integers. */
module Decimal {
  import opened Wrappers

  predicate IsDigit(c: char) {
    '0' <= c <= '9'
  }

  predicate AllDigits(s: string) {
    forall i :: 0 <= i < |s| ==> IsDigit(s[i])
  }

  function DigitChar(d: nat): (c: char)
    requires d < 10
    ensures IsDigit(c) && c as int == '0' as int + d
  {
    ('0' as int + d) as char
  }

  /** The canonical numeral of n. */
  function Dec(n: nat): (s: string)
    ensures s != [] && AllDigits(s)
    ensures n > 0 ==> s[0] != '0'
  {
    if n < 10 then [DigitChar(n)] else Dec(n / 10) + [DigitChar(n % 10)]
  }

  /** What a string of digits denotes; leading zeros are allowed. */
  function Value(s: string): nat
    requires AllDigits(s)
  {
    if s == [] then 0 else 10 * Value(s[..|s| - 1]) + (s[|s| - 1] as int - '0' as int)
  }

  /** No sign and no leading zero: the numerals that Dec prints. */
  predicate Canonical(s: string) {
    s != [] && AllDigits(s) && (s[0] == '0' ==> |s| == 1)
  }

  /** Rust's `str::parse` for an unsigned type whose largest value is `max`: one leading plus sign
      is accepted, then at least one ASCII digit, and nothing above `max`. */
  function Parse(s: string, max: nat): Option<nat> {
    var digits := if s != [] && s[0] == '+' then s[1..] else s;
    if digits == [] || !AllDigits(digits) || Value(digits) > max then None else Some(Value(digits))
  }

  lemma {:induction false} ValueOfDec(n: nat)
    ensures Value(Dec(n)) == n
  {
    if n < 10 {
    } else {
      ValueOfDec(n / 10);
      assert Dec(n)[..|Dec(n)| - 1] == Dec(n / 10);
    }
  }

  lemma {:induction false} ValueIsPositive(s: string)
    requires s != [] && AllDigits(s) && s[0] != '0'
    ensures Value(s) > 0
  {
    if |s| == 1 {
    } else {
      ValueIsPositive(s[..|s| - 1]);
    }
  }

  lemma {:induction false} DecOfValue(s: string)
    requires Canonical(s)
    ensures Dec(Value(s)) == s
  {
    if |s| == 1 {
      assert s[..0] == [];
    } else {
      var front := s[..|s| - 1];
      ValueIsPositive(front);
      DecOfValue(front);
      var d := s[|s| - 1] as int - '0' as int;
      assert Value(s) / 10 == Value(front) && Value(s) % 10 == d;
      assert s == front + [DigitChar(d)];
    }
  }

  /** The printer's image is exactly the canonical numerals, and the parser undoes it. */
  lemma {:induction false} ParseUndoesDec(n: nat, max: nat)
    ensures Canonical(Dec(n))
    ensures Parse(Dec(n), max) == if n <= max then Some(n) else None
  {
    ValueOfDec(n);
    assert IsDigit(Dec(n)[0]);
    if n < 10 {
      assert |Dec(n)| == 1;
    }
  }

  lemma DecIsInjective(m: nat, n: nat)
    requires Dec(m) == Dec(n)
    ensures m == n
  {
    ValueOfDec(m);
    ValueOfDec(n);
  }
}
