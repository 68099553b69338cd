/** Decimal text as cursors and limits carry it: strconv's Itoa, Atoi,
    FormatUint and ParseUint in base 10. */
module Decimal {
  import opened Records

  const MAX_INT64 := 0x7FFF_FFFF_FFFF_FFFF
  const MAX_UINT64 := 0xFFFF_FFFF_FFFF_FFFF

  /** The value of a text of decimal digits and nothing else. */
  function Digits(text: string): Option<nat> {
    if text == "" then Some(0)
    else
      var n := |text| - 1;
      var front := Digits(text[..n]);
      if front.Some? && '0' <= text[n] <= '9' then Some(10 * front.value + (text[n] as int - '0' as int)) else None
  }

  function FormatUint(n: nat): string {
    (if n < 10 then "" else FormatUint(n / 10)) + [('0' as int + n % 10) as char]
  }

  function ParseUint(text: string): Option<nat> {
    var value := Digits(text);
    if text != "" && value.Some? && value.value <= MAX_UINT64 then value else None
  }

  function Itoa(n: int): string {
    if n < 0 then "-" + FormatUint(-n) else FormatUint(n)
  }

  /** An optional sign, then digits, within 64 bits. */
  function Atoi(text: string): Option<int> {
    var signed := text != "" && (text[0] == '-' || text[0] == '+');
    var digits := if signed then text[1..] else text;
    var size := Digits(digits);
    if digits == "" || size.None? then None
    else
      var value := if signed && text[0] == '-' then -(size.value as int) else size.value;
      if -MAX_INT64 - 1 <= value <= MAX_INT64 then Some(value) else None
  }

  /** Without leading zeros. */
  lemma {:induction false} FormattedDigits(n: nat)
    ensures FormatUint(n) != "" && Digits(FormatUint(n)) == Some(n)
    ensures '0' <= FormatUint(n)[0] <= '9'
    ensures |FormatUint(n)| == 1 || FormatUint(n)[0] != '0'
    ensures n > 0 ==> FormatUint(n)[0] != '0'
  {
    if n >= 10 {
      FormattedDigits(n / 10);
      assert FormatUint(n)[..|FormatUint(n)| - 1] == FormatUint(n / 10);
    } else {
      assert Digits(FormatUint(n)[..0]) == Some(0);
    }
  }

  function Power10(i: nat): (p: nat)
    ensures p > 0
  {
    if i == 0 then 1 else 10 * Power10(i - 1)
  }

  /** A text of digits and nothing else means the number of which these are the
      decimal digits, the last one counting units. */
  lemma {:induction false} DigitsAreDecimal(text: string, i: nat)
    requires i < |text| && Digits(text).Some?
    ensures '0' <= text[|text| - 1 - i] <= '9'
    ensures text[|text| - 1 - i] as int - '0' as int == Digits(text).value / Power10(i) % 10
  {
    var n := |text| - 1;
    if i > 0 {
      DigitsAreDecimal(text[..n], i - 1);
      assert Digits(text).value / 10 == Digits(text[..n]).value;
      DivideTwice(Digits(text).value, Power10(i - 1));
    }
  }

  lemma {:induction false} DigitsAreAll(text: string)
    requires Digits(text).Some?
    ensures Digits(text).value < Power10(|text|)
  {
    if text != "" {
      DigitsAreAll(text[..|text| - 1]);
    }
  }

  lemma DivideTwice(n: nat, p: nat)
    requires p > 0
    ensures n / (10 * p) == n / 10 / p
  {
    var q, r := n / 10, n % 10;
    var a, b := q / p, q % p;
    assert n == (10 * p) * a + (10 * b + r) && 10 * b + r < 10 * p;
    Quotient(n, 10 * p, a, 10 * b + r);
  }

  lemma Quotient(n: nat, d: nat, q: nat, r: nat)
    requires n == d * q + r && r < d
    ensures n / d == q
  {
    assert d * (n / d - q) == r - n % d;
    Multiple(d, n / d - q);
  }

  lemma Multiple(d: nat, x: int)
    ensures x >= 1 ==> d * x >= d
    ensures x <= -1 ==> d * x + d <= 0
  {
  }

  /** One sign may stand in front. */
  lemma SignsAreTaken(digits: string)
    requires digits != "" && Digits(digits).Some? && Digits(digits).value <= MAX_INT64
    ensures Atoi("+" + digits) == Some(Digits(digits).value) && Atoi("-" + digits) == Some(-(Digits(digits).value as int))
    ensures ParseUint("+" + digits) == None && ParseUint("-" + digits) == None
  {
    assert ("+" + digits)[1..] == digits && ("-" + digits)[1..] == digits;
    DigitsIfEachIsOne("+" + digits);
    DigitsIfEachIsOne("-" + digits);
  }

  lemma {:induction false} DigitsIfEachIsOne(text: string)
    ensures Digits(text).Some? <==> forall i :: 0 <= i < |text| ==> '0' <= text[i] <= '9'
  {
    if text != "" {
      DigitsIfEachIsOne(text[..|text| - 1]);
    }
  }

  ghost predicate IsSigned(text: string, sign: string, digits: string, n: int) {
    && text == sign + digits && digits != "" && Digits(digits).Some?
    && ((sign in ["", "+"] && n == Digits(digits).value) || (sign == "-" && n == -(Digits(digits).value as int)))
  }

  lemma UnsignedMeansDigits(text: string)
    requires Digits(text).Some? && text != ""
    ensures '0' <= text[0] <= '9'
  {
    DigitsIfEachIsOne(text);
  }

  lemma SignIsFound(text: string, n: int)
    requires Atoi(text) == Some(n)
    ensures exists sign, digits :: IsSigned(text, sign, digits, n)
  {
    hide Digits;
    if text[0] == '-' {
      assert IsSigned(text, "-", text[1..], n);
    } else if text[0] == '+' {
      assert IsSigned(text, "+", text[1..], n);
    } else {
      assert text == "" + text;
      assert IsSigned(text, "", text, n);
    }
  }

  lemma SignedIsTaken(text: string, sign: string, digits: string, n: int)
    requires IsSigned(text, sign, digits, n) && -9223372036854775808 <= n <= 9223372036854775807
    ensures Atoi(text) == Some(n)
  {
    hide Digits;
    if sign == "" {
      assert text == digits;
      UnsignedMeansDigits(digits);
    } else {
      assert text[1..] == digits;
    }
  }

  /** Which texts are numbers: digits, at least one, behind one sign at most where
      a sign is allowed, of a value within 64 bits. */
  lemma NumbersExactlyWhen(text: string, n: int)
    ensures ParseUint(text) == Some(n) <==> text != "" && Digits(text) == Some(n) && n <= 18446744073709551615
    ensures Atoi(text) == Some(n) <==>
      -9223372036854775808 <= n <= 9223372036854775807 && exists sign, digits :: IsSigned(text, sign, digits, n)
  {
    hide Digits, IsSigned, Atoi;
    if Atoi(text) == Some(n) {
      SignIsFound(text, n);
      AtoiIsInRange(text);
    }
    if sign, digits :| IsSigned(text, sign, digits, n) && -9223372036854775808 <= n <= 9223372036854775807 {
      SignedIsTaken(text, sign, digits, n);
    }
  }

  lemma AtoiIsInRange(text: string)
    ensures Atoi(text).Some? ==> -9223372036854775808 <= Atoi(text).value <= 9223372036854775807
  {
    hide Digits;
  }

  /** A formatted number reads back as itself exactly when it fits 64 bits. */
  lemma UintRoundTrip(n: nat)
    ensures ParseUint(FormatUint(n)) == (if n <= 18446744073709551615 then Some(n) else None)
    ensures FormatUint(n) != ""
  {
    FormattedDigits(n);
  }

  lemma IntRoundTrip(n: int)
    ensures Atoi(Itoa(n)) == (if -9223372036854775808 <= n <= 9223372036854775807 then Some(n) else None)
    ensures Itoa(n) != ""
  {
    hide Digits, FormatUint;
    var size: nat := if n < 0 then -n else n;
    FormattedDigits(size);
    if n < 0 {
      assert Itoa(n)[1..] == FormatUint(size);
    }
  }
}
