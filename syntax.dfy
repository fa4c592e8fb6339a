/** The character classes of the unit-expression syntax, and decimal digits. */
module Syntax {

  /** "⁻" SUPERSCRIPT MINUS */
  const SuperscriptMinus: char := '\U{207B}'

  /** "⁰" to "⁹", indexed by the digit they show. */
  const Superscript0To9: seq<char> :=
    ['\U{2070}', '\U{00B9}', '\U{00B2}', '\U{00B3}', '\U{2074}',
     '\U{2075}', '\U{2076}', '\U{2077}', '\U{2078}', '\U{2079}']

  const AsciiDigits: set<char> := {'0', '1', '2', '3', '4', '5', '6', '7', '8', '9'}

  /** The four single-character symbols: minus, exponent, term joiner, fraction. */
  const Symbols: set<char> := {'-', '^', '*', '/'}

  /** The ten superscript digits. */
  const SuperscriptDigits: set<char> := set i | 0 <= i < |Superscript0To9| :: Superscript0To9[i]

  /**
    Characters that cannot occur in an identifier: ASCII digits and minus,
    superscript digits and minus, `^`, `/`, `*` and the space.
  */
  const NonIdChars: set<char> := AsciiDigits + Symbols + SuperscriptDigits + {SuperscriptMinus, ' '}

  predicate IsIdChar(c: char)
  {
    c !in NonIdChars
  }

  predicate AllDigits(s: string)
  {
    forall i :: 0 <= i < |s| ==> s[i] in AsciiDigits
  }

  predicate AllSpaces(s: string)
  {
    forall i :: 0 <= i < |s| ==> s[i] == ' '
  }

  predicate AllIdChars(s: string)
  {
    forall i :: 0 <= i < |s| ==> IsIdChar(s[i])
  }

  function DigitValue(c: char): (d: nat)
    requires c in AsciiDigits
    ensures d <= 9
  {
    (c as int) - ('0' as int)
  }

  /** The number a string of decimal digits denotes, most significant digit first. */
  function DecimalValue(digits: string): nat
    requires AllDigits(digits)
    decreases |digits|
  {
    if digits == [] then 0
    else DecimalValue(digits[..|digits| - 1]) * 10 + DigitValue(digits[|digits| - 1])
  }

  /** Appending a digit multiplies the value by ten and adds the digit. */
  lemma DecimalSnoc(digits: string, c: char)
    requires AllDigits(digits) && c in AsciiDigits
    ensures AllDigits(digits + [c])
    ensures DecimalValue(digits + [c]) == DecimalValue(digits) * 10 + DigitValue(c)
  {
    var longer := digits + [c];
    assert longer[..|longer| - 1] == digits;
  }

  /** Leading zeros do not change a decimal value. */
  lemma {:induction false} LeadingZero(digits: string)
    requires AllDigits(digits)
    ensures AllDigits("0" + digits) && DecimalValue("0" + digits) == DecimalValue(digits)
    decreases |digits|
  {
    if digits != [] {
      var init := digits[..|digits| - 1];
      assert ("0" + digits)[..|digits|] == "0" + init;
      LeadingZero(init);
    }
  }
}
