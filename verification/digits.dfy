/** Decimal digit strings: the check made by isValidNumber and the conversion std::stoi
    performs on a string of digits. */
module Digits {

  predicate IsDigit(c: char) {
    '0' <= c <= '9'
  }

  predicate AllDigits(s: string) {
    forall i :: 0 <= i < |s| ==> IsDigit(s[i])
  }

  /** A non-empty string of decimal digits. */
  predicate ValidNumber(s: string) {
    |s| > 0 && AllDigits(s)
  }

  function DigitValue(c: char): (d: nat)
    requires IsDigit(c)
    ensures d < 10
  {
    (c - '0') as nat
  }

  function DigitChar(d: nat): (c: char)
    requires d < 10
    ensures IsDigit(c) && DigitValue(c) == d
  {
    ('0' as int + d) as char
  }

  /** The number a string of decimal digits denotes, most significant digit first. */
  function Value(s: string): (r: nat)
    requires AllDigits(s)
    ensures r == 0 <==> forall i :: 0 <= i < |s| ==> s[i] == '0'
  {
    if |s| == 0 then 0 else Value(s[..|s| - 1]) * 10 + DigitValue(s[|s| - 1])
  }

  /** The shortest decimal spelling of n. */
  function ToDigits(n: nat): (s: string)
    ensures ValidNumber(s)
    ensures |s| == 1 || s[0] != '0'
    decreases n
  {
    if n < 10 then [DigitChar(n)] else ToDigits(n / 10) + [DigitChar(n % 10)]
  }

  /** Reading back the spelling of n gives n. */
  lemma {:induction false} ValueOfToDigits(n: nat)
    ensures Value(ToDigits(n)) == n
    decreases n
  {
    if n >= 10 {
      var s := ToDigits(n / 10) + [DigitChar(n % 10)];
      assert s[..|s| - 1] == ToDigits(n / 10);
      ValueOfToDigits(n / 10);
    }
  }

  /** Leading zeros do not change the value. */
  lemma {:induction false} ValueIgnoresLeadingZero(s: string)
    requires AllDigits(s)
    ensures Value(['0'] + s) == Value(s)
    decreases |s|
  {
    if |s| > 0 {
      var t := ['0'] + s;
      assert t[..|t| - 1] == ['0'] + s[..|s| - 1];
      ValueIgnoresLeadingZero(s[..|s| - 1]);
    }
  }

  /** Line number "007" is line 7. */
  lemma LeadingZerosExample()
    ensures Value("007") == Value("7") == 7
  {
    ValueIgnoresLeadingZero("07");
    ValueIgnoresLeadingZero("7");
    assert "007" == ['0'] + "07" && "07" == ['0'] + "7";
  }

  /** A digit string without a leading zero is the spelling of its own value. */
  lemma {:induction false} ToDigitsOfValue(s: string)
    requires ValidNumber(s)
    requires |s| == 1 || s[0] != '0'
    ensures ToDigits(Value(s)) == s
    decreases |s|
  {
    if |s| > 1 {
      var init := s[..|s| - 1];
      ToDigitsOfValue(init);
      ValueNoLeadingZeroIsLarge(init);
      var v := Value(s);
      assert v / 10 == Value(init);
      assert v % 10 == DigitValue(s[|s| - 1]);
      assert s == init + [s[|s| - 1]];
    } else {
      assert s == [DigitChar(DigitValue(s[0]))];
    }
  }

  /** A digit string of two or more digits without a leading zero denotes at least 10. */
  lemma {:induction false} ValueNoLeadingZeroIsLarge(s: string)
    requires ValidNumber(s)
    requires s[0] != '0'
    ensures Value(s) >= 1
    decreases |s|
  {
    if |s| > 1 {
      ValueNoLeadingZeroIsLarge(s[..|s| - 1]);
    }
  }
}
