/** Rust's fixed-width integers used by the game, and the decimal rendering
    that `to_string` / `format!("{}")` give them. */
module Numbers {

  type u8 = x: int | 0 <= x < 0x100
  type u16 = x: int | 0 <= x < 0x1_0000
  type i8 = x: int | -0x80 <= x < 0x80
  type i16 = x: int | -0x8000 <= x < 0x8000

  /** `v as i16` for a `u16`: the bit pattern is reinterpreted. */
  function U16AsI16(v: u16): i16 {
    if v < 0x8000 then v else v - 0x1_0000
  }

  /** `v as u16` for an `i16`: the bit pattern is reinterpreted. */
  function I16AsU16(v: i16): u16 {
    if v >= 0 then v else v + 0x1_0000
  }

  /** Two's-complement wrap of a mathematical sum into `i16`
      (what `a + b` on `i16` gives in a release build). */
  function WrapI16(v: int): i16 {
    (v + 0x8000) % 0x1_0000 - 0x8000
  }

  predicate IsDigit(ch: char) {
    '0' <= ch <= '9'
  }

  function DigitChar(d: int): (ch: char)
    requires 0 <= d < 10
    ensures IsDigit(ch)
  {
    ['0', '1', '2', '3', '4', '5', '6', '7', '8', '9'][d]
  }

  function DigitValue(ch: char): (d: nat)
    requires IsDigit(ch)
    ensures d < 10
  {
    ch as int - '0' as int
  }

  lemma DigitRoundTrip(d: int)
    requires 0 <= d < 10
    ensures DigitValue(DigitChar(d)) == d
  {
  }

  /** Decimal digits of `n`, most significant first, without leading zeros. */
  function DecimalString(n: nat): (s: string)
    ensures |s| >= 1
    ensures forall i | 0 <= i < |s| :: IsDigit(s[i])
    ensures n < 10 <==> |s| == 1
  {
    if n < 10 then [DigitChar(n)] else DecimalString(n / 10) + [DigitChar(n % 10)]
  }

  /** Reads a non-empty string of decimal digits back into a number. */
  function ParseDecimal(s: string): nat
    requires |s| >= 1
    requires forall i | 0 <= i < |s| :: IsDigit(s[i])
  {
    if |s| == 1 then DigitValue(s[0])
    else ParseDecimal(s[..|s| - 1]) * 10 + DigitValue(s[|s| - 1])
  }

  /** Parsing undoes rendering, so `DecimalString` loses no information. */
  lemma {:induction false} DecimalRoundTrip(n: nat)
    ensures ParseDecimal(DecimalString(n)) == n
  {
    if n < 10 {
      DigitRoundTrip(n);
    } else {
      var s := DecimalString(n);
      assert s[..|s| - 1] == DecimalString(n / 10);
      DecimalRoundTrip(n / 10);
      DigitRoundTrip(n % 10);
    }
  }

  lemma DecimalStringInjective(m: nat, n: nat)
    requires DecimalString(m) == DecimalString(n)
    ensures m == n
  {
    DecimalRoundTrip(m);
    DecimalRoundTrip(n);
  }
}
