/** Integers written in digits alone, the only numbers the chain's members hold. */
module Decimal {
  import opened Octets

  predicate IsDigit(c: char) { '0' <= c <= '9' }

  function DigitValue(c: char): (value: nat)
    requires IsDigit(c)
    ensures value < 10
  {
    c as int - '0' as int
  }

  function DigitOf(value: nat): (c: Byte)
    requires value < 10
    ensures IsDigit(c) && DigitValue(c) == value
  {
    ('0' as int + value) as char
  }

  predicate AllDigits(text: Bytes) { forall i | 0 <= i < |text| :: IsDigit(text[i]) }

  /** Digits with no leading zero: how a JSON integer that is not negative is spelled. */
  predicate IsNumeral(text: Bytes) {
    text != [] && AllDigits(text) && (text[0] == '0' ==> |text| == 1)
  }

  function ToNat(text: Bytes): nat
    requires AllDigits(text)
  {
    if text == [] then 0
    else 10 * ToNat(text[..|text| - 1]) + DigitValue(text[|text| - 1])
  }

  function FromNat(n: nat): (text: Bytes)
    ensures IsNumeral(text)
    ensures n > 0 ==> text[0] != '0'
  {
    if n < 10 then [DigitOf(n)] else FromNat(n / 10) + [DigitOf(n % 10)]
  }

  lemma {:induction false} ReadsBack(n: nat)
    ensures ToNat(FromNat(n)) == n
  {
    if n < 10 {
      assert FromNat(n)[..0] == [];
      assert ToNat(FromNat(n)) == 10 * ToNat([]) + DigitValue(DigitOf(n));
    } else {
      ReadsBack(n / 10);
      assert FromNat(n)[..|FromNat(n)| - 1] == FromNat(n / 10);
    }
  }

  /** A numeral that is not zero names a positive number. */
  lemma {:induction false} NumeralPositive(text: Bytes)
    requires IsNumeral(text) && text[0] != '0'
    ensures ToNat(text) > 0
  {
    if |text| == 1 {
      assert text[..0] == [];
    } else {
      NumeralPositive(text[..|text| - 1]);
    }
  }

  /** Each number has one spelling. */
  lemma {:induction false} SpelledOnce(text: Bytes)
    requires IsNumeral(text)
    ensures FromNat(ToNat(text)) == text
  {
    var front, last := text[..|text| - 1], text[|text| - 1];
    if |text| == 1 {
      assert front == [];
      assert text == [last];
    } else {
      NumeralPositive(front);
      SpelledOnce(front);
      assert ToNat(text) / 10 == ToNat(front);
    }
  }

  function PowerOfTen(k: nat): (p: nat)
    ensures p > 0
  {
    if k == 0 then 1 else 10 * PowerOfTen(k - 1)
  }
}
