/** The phone number response: a plus sign, the country code and the national
    number, both in decimal, with nothing in between. Parsing the submitted
    number into these two integers is done by a phone-number library that is
    not modelled; the two integers are given. */
module Phone {

  predicate IsDigit(c: char)
  {
    '0' <= c <= '9'
  }

  predicate AllDigits(s: string)
  {
    forall i :: 0 <= i < |s| ==> IsDigit(s[i])
  }

  function DigitChar(d: nat): (c: char)
    requires d < 10
    ensures IsDigit(c)
    ensures c as int - '0' as int == d
  {
    ('0' as int + d) as char
  }

  /** Python's `str(n)` for a non-negative integer. */
  function Decimal(n: nat): (r: string)
    ensures r != [] && AllDigits(r)
    ensures r[0] == '0' <==> n == 0
    ensures n < 10 <==> |r| == 1
  {
    if n < 10 then [DigitChar(n)] else Decimal(n / 10) + [DigitChar(n % 10)]
  }

  /** The number written by a string of decimal digits. */
  function DigitsValue(s: string): nat
    requires AllDigits(s)
  {
    if s == [] then 0
    else DigitsValue(s[..|s| - 1]) * 10 + (s[|s| - 1] as int - '0' as int)
  }

  /** Reading `str(n)` back gives `n`. */
  lemma {:induction false} DecimalReadBack(n: nat)
    ensures DigitsValue(Decimal(n)) == n
    decreases n
  {
    if n >= 10 {
      DecimalReadBack(n / 10);
      var r := Decimal(n);
      assert r[..|r| - 1] == Decimal(n / 10);
    }
  }

  lemma {:induction false} LeadingDigitPositive(s: string)
    requires s != [] && AllDigits(s) && s[0] != '0'
    ensures DigitsValue(s) > 0
    decreases |s|
  {
    if |s| > 1 {
      LeadingDigitPositive(s[..|s| - 1]);
    }
  }

  /** A digit string without a leading zero is the decimal form of its value:
      `Decimal` writes every number in exactly one way. */
  lemma {:induction false} DecimalOfValue(s: string)
    requires s != [] && AllDigits(s) && (s[0] != '0' || |s| == 1)
    ensures Decimal(DigitsValue(s)) == s
    decreases |s|
  {
    var v := DigitsValue(s);
    var d := s[|s| - 1] as int - '0' as int;
    if |s| == 1 {
      assert s[..0] == [];
      assert v == DigitsValue([]) * 10 + d;
      assert [DigitChar(d)] == s;
    } else {
      var p := s[..|s| - 1];
      LeadingDigitPositive(p);
      DecimalOfValue(p);
      var pv := DigitsValue(p);
      assert v == pv * 10 + d;
      assert v / 10 == pv && v % 10 == d;
      assert s == p + [DigitChar(d)];
    }
  }

  /** The handler's `f"+{country_code}{national_number}"`. */
  function FormatPhone(countryCode: nat, nationalNumber: nat): string
  {
    "+" + Decimal(countryCode) + Decimal(nationalNumber)
  }

  /** The result is a plus sign followed by at least two digits and nothing
      else. */
  lemma FormatPhoneShape(countryCode: nat, nationalNumber: nat)
    ensures var r := FormatPhone(countryCode, nationalNumber);
      |r| >= 3 && r[0] == '+' && AllDigits(r[1..])
  {
  }

  /** Knowing how many digits the country code has, both numbers can be read
      back from the formatted string. */
  lemma FormatPhoneReadBack(countryCode: nat, nationalNumber: nat)
    ensures var r := FormatPhone(countryCode, nationalNumber);
      var k := 1 + |Decimal(countryCode)|;
      k < |r|
      && AllDigits(r[1..k]) && DigitsValue(r[1..k]) == countryCode
      && AllDigits(r[k..]) && DigitsValue(r[k..]) == nationalNumber
  {
    var r := FormatPhone(countryCode, nationalNumber);
    var k := 1 + |Decimal(countryCode)|;
    assert r[1..k] == Decimal(countryCode);
    assert r[k..] == Decimal(nationalNumber);
    DecimalReadBack(countryCode);
    DecimalReadBack(nationalNumber);
  }

  /** For one country code, different national numbers give different
      strings. */
  lemma FormatPhoneInjective(countryCode: nat, a: nat, b: nat)
    requires FormatPhone(countryCode, a) == FormatPhone(countryCode, b)
    ensures a == b
  {
    FormatPhoneReadBack(countryCode, a);
    FormatPhoneReadBack(countryCode, b);
  }

  /** Without a separator the string alone does not tell where the country code
      ends: it relies on country codes being prefix-free, as the E.164 plan
      assigns them. */
  lemma FormatPhoneNeedsPrefixFreeCodes()
    ensures FormatPhone(1, 23) == FormatPhone(12, 3)
  {
  }

  lemma DecimalOfExample()
    ensures Decimal(41555) == "41555"
    ensures Decimal(4155552671) == "4155552671"
  {
    assert Decimal(4) == "4";
    assert Decimal(41) == "41";
    assert Decimal(415) == "415";
    assert Decimal(4155) == "4155";
    assert Decimal(41555) == "41555";
    assert Decimal(415555) == "415555";
    assert Decimal(4155552) == "4155552";
    assert Decimal(41555526) == "41555526";
    assert Decimal(415555267) == "415555267";
  }

  /** A United States number parsed as country code 1 and national number
      4155552671 is written `+14155552671`. */
  lemma FormatPhoneExample()
    ensures FormatPhone(1, 4155552671) == "+14155552671"
  {
    assert Decimal(1) == "1";
    DecimalOfExample();
    assert "+" + "1" + "4155552671" == "+14155552671";
  }
}
