/** Hexadecimal digits: chunk sizes, `\u` escapes and percent-encoding all use them. */
module Hex {
  import opened Wrappers

  /** The digits of `hex`, the lower-case alphabet of the source. */
  function HexChar(d: nat): char
    requires d < 16
  {
    if d < 10 then (d + '0' as int) as char else (d - 10 + 'a' as int) as char
  }

  /** The value of a hexadecimal digit of either case. */
  function HexDigit(c: char): Option<nat> {
    if '0' <= c <= '9' then Some(c as int - '0' as int)
    else if 'a' <= c <= 'f' then Some(c as int - 'a' as int + 10)
    else if 'A' <= c <= 'F' then Some(c as int - 'A' as int + 10)
    else None
  }

  const LOWER_DIGITS := "0123456789abcdef"
  const UPPER_DIGITS := "0123456789ABCDEF"

  /** The digits of both cases are read, with the value of their place in the alphabet, and nothing else is. */
  lemma DigitsOfBothCases(c: char, d: nat)
    requires d < 16
    ensures HexDigit(c) == Some(d) <==> c == LOWER_DIGITS[d] || c == UPPER_DIGITS[d]
    ensures HexDigit(c).Some? <==> c in LOWER_DIGITS || c in UPPER_DIGITS
    ensures HexDigit(c).Some? ==> HexDigit(c).value < 16
    ensures HexChar(d) == LOWER_DIGITS[d]
  {
    if HexDigit(c).Some? {
      var v := HexDigit(c).value;
      assert c == LOWER_DIGITS[v] || c == UPPER_DIGITS[v];
    }
  }

  lemma HexCharReads(d: nat)
    requires d < 16
    ensures HexDigit(HexChar(d)) == Some(d)
  {
  }

  predicate AllHex(s: string) {
    forall c | c in s :: HexDigit(c).Some?
  }

  function HexValue(s: string): nat
    requires AllHex(s)
  {
    if s == [] then 0 else HexValue(s[..|s| - 1]) * 16 + HexDigit(s[|s| - 1]).value
  }

  function Power16(n: nat): nat {
    if n == 0 then 1 else 16 * Power16(n - 1)
  }

  lemma NoPower()
    ensures Power16(0) == 1
  {
  }

  lemma TimesSixteen(v: nat, n: nat)
    ensures v * Power16(n) * 16 == v * Power16(n + 1)
  {
  }

  /** Digits weigh sixteen times as much as those after them. */
  lemma {:induction false} HexValueOfConcat(a: string, b: string)
    requires AllHex(a) && AllHex(b)
    ensures AllHex(a + b) && HexValue(a + b) == HexValue(a) * Power16(|b|) + HexValue(b)
    ensures |b| == 1 ==> HexValue(b) == HexDigit(b[0]).value
  {
    hide HexDigit, Power16;
    NoPower();
    if b == "" {
      assert a + b == a;
    } else {
      var front := b[..|b| - 1];
      assert forall i | 0 <= i < |front| :: front[i] in b;
      HexValueOfConcat(a, front);
      assert (a + b)[..|a + b| - 1] == a + front;
      TimesSixteen(HexValue(a), |front|);
      if |b| == 1 {
        assert b[..0] == "";
      }
    }
  }

  /** A number without leading zeros. */
  function HexDigits(n: nat): (r: string)
    ensures r != [] && AllHex(r)
  {
    if n < 16 then
      HexCharReads(n);
      [HexChar(n)]
    else
      HexCharReads(n % 16);
      HexDigits(n / 16) + [HexChar(n % 16)]
  }

  lemma {:induction false} HexDigitsValue(n: nat)
    ensures HexValue(HexDigits(n)) == n
  {
    var s := HexDigits(n);
    if n < 16 {
      HexCharReads(n);
      assert s[..0] == [] && s[|s| - 1] == HexChar(n);
    } else {
      HexCharReads(n % 16);
      HexDigitsValue(n / 16);
      assert s[..|s| - 1] == HexDigits(n / 16);
    }
  }

  /** Nothing is padded: only zero itself starts with a zero. */
  lemma {:induction false} NoLeadingZero(n: nat)
    ensures HexDigits(n)[0] == '0' <==> n == 0
    ensures n == 0 ==> HexDigits(n) == "0"
  {
    if n >= 16 {
      NoLeadingZero(n / 16);
      assert HexDigits(n)[0] == HexDigits(n / 16)[0];
    }
  }
}
