/** Decimal numbers in text: `std::to_string`, `parse_decimal`, and that they undo each other. */
module Decimal {
  import opened Wrappers

  predicate IsDigit(c: char) {
    '0' <= c <= '9'
  }

  predicate AllDigits(s: string) {
    forall c | c in s :: IsDigit(c)
  }

  function Digit(c: char): nat
    requires IsDigit(c)
  {
    (c as int) - ('0' as int)
  }

  /** The number a digit string denotes. */
  function Value(s: string): nat
    requires AllDigits(s)
  {
    if s == [] then 0 else Value(s[..|s| - 1]) * 10 + Digit(s[|s| - 1])
  }

  const DIGITS := "0123456789"

  lemma DigitsHaveTheirValue(c: char, d: nat)
    requires d < 10
    ensures IsDigit(c) <==> c in DIGITS
    ensures IsDigit(DIGITS[d]) && Digit(DIGITS[d]) == d
  {
    if IsDigit(c) {
      assert DIGITS[Digit(c)] == c;
    }
  }

  function Power10(n: nat): nat {
    if n == 0 then 1 else 10 * Power10(n - 1)
  }

  lemma NoPower()
    ensures Power10(0) == 1
  {
  }

  lemma TimesTen(v: nat, n: nat)
    ensures v * Power10(n) * 10 == v * Power10(n + 1)
  {
  }

  /** Digits weigh ten times as much as those after them. */
  lemma {:induction false} ValueOfConcat(a: string, b: string)
    requires AllDigits(a) && AllDigits(b)
    ensures AllDigits(a + b) && Value(a + b) == Value(a) * Power10(|b|) + Value(b)
    ensures |b| == 1 ==> Value(b) == Digit(b[0])
  {
    hide Power10;
    NoPower();
    if b == "" {
      assert a + b == a;
    } else {
      var front := b[..|b| - 1];
      assert forall i | 0 <= i < |front| :: front[i] in b;
      ValueOfConcat(a, front);
      assert (a + b)[..|a + b| - 1] == a + front;
      TimesTen(Value(a), |front|);
      if |b| == 1 {
        assert b[..0] == "";
      }
    }
  }

  /** The number in s, if s is a nonempty digit string whose value is at most `max`. */
  function Parsed(s: string, max: nat): Option<nat> {
    if s != [] && AllDigits(s) && Value(s) <= max then Some(Value(s)) else None
  }

  lemma {:induction false} ValueGrows(s: string, k: nat)
    requires AllDigits(s) && k <= |s|
    ensures AllDigits(s[..k]) && Value(s[..k]) <= Value(s)
  {
    if k == |s| {
      assert s[..k] == s;
    } else {
      ValueGrows(s[..|s| - 1], k);
      assert s[..|s| - 1][..k] == s[..k];
    }
  }

  /**
   The digit loop of `parse_decimal` for an integer type with maximum `max`: it accepts
   exactly the digit strings whose value the type can hold, though it never computes a larger one.
   */
  method ParseDecimal(value: string, max: nat) returns (r: Option<nat>)
    requires max >= 9
    ensures r == Parsed(value, max)
  {
    if value == [] {
      return None;
    }
    var parsed := 0;
    for index := 0 to |value|
      invariant AllDigits(value[..index]) && parsed == Value(value[..index]) <= max
    {
      var character := value[index];
      if character < '0' || character > '9' {
        assert character in value;
        return None;
      }
      var digit := Digit(character);
      assert value[..index + 1] == value[..index] + [character];
      assert value[..index + 1][..index] == value[..index];
      assert AllDigits(value[..index + 1]) && Value(value[..index + 1]) == parsed * 10 + digit;
      if parsed > (max - digit) / 10 {
        if AllDigits(value) {
          ValueGrows(value, index + 1);
        }
        return None;
      }
      parsed := parsed * 10 + digit;
    }
    assert value[..|value|] == value;
    return Some(parsed);
  }

  function DigitChar(d: nat): (c: char)
    requires d < 10
    ensures IsDigit(c) && Digit(c) == d
  {
    (d + '0' as int) as char
  }

  /** `std::to_string`. */
  function ToString(n: nat): (r: string)
    ensures r != [] && AllDigits(r)
  {
    if n < 10 then [DigitChar(n)] else ToString(n / 10) + [DigitChar(n % 10)]
  }

  /** No more digits than the number needs. */
  lemma {:induction false} DigitsNeeded(n: nat, k: nat)
    requires 1 <= k && n < Power10(k)
    ensures |ToString(n)| <= k
  {
    if n >= 10 {
      assert Power10(k) == 10 * Power10(k - 1);
      assert Power10(0) == 1;
      DigitsNeeded(n / 10, k - 1);
    }
  }

  /** Nothing is padded: only zero itself starts with a zero. */
  lemma {:induction false} NoLeadingZero(n: nat)
    ensures ToString(n)[0] == '0' <==> n == 0
    ensures n == 0 ==> ToString(n) == "0"
  {
    if n >= 10 {
      NoLeadingZero(n / 10);
      assert ToString(n)[0] == ToString(n / 10)[0];
    }
  }

  lemma {:induction false} ToStringValue(n: nat)
    ensures Value(ToString(n)) == n
  {
    var s := ToString(n);
    if n < 10 {
      assert s[..0] == [] && s[|s| - 1] == DigitChar(n);
    } else {
      ToStringValue(n / 10);
      assert s[..|s| - 1] == ToString(n / 10);
    }
  }
}
