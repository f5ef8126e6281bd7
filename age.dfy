/**
 * The age rule of the submit handler: `Number(age.value)` compared with 18.
 * A decimal literal is kept exactly, as its digits and the number of them
 * after the point; `Number` rounds it to the nearest double, and the
 * comparison with 18 is decided by where that rounding lands (see
 * `BelowMinimum`).
 */
module AgeCheck {
  import opened Wrappers
  import opened Strings

  /**
   * The literal `Number` reads: a finite one is `digits / 10^places` with its
   * sign, before rounding to a double.
   */
  datatype Numeral = Finite(negative: bool, digits: nat, places: nat) | Infinite(negative: bool)

  const MinimumAge: nat := 18

  function Pow10(n: nat): (r: nat)
    ensures r >= 1
  {
    if n == 0 then 1 else 10 * Pow10(n - 1)
  }

  predicate IsDigit(c: char) {
    '0' <= c <= '9'
  }

  predicate AllDigits(s: string) {
    forall i :: 0 <= i < |s| ==> IsDigit(s[i])
  }

  function DigitChar(d: nat): (c: char)
    requires d < 10
    ensures IsDigit(c) && c as int - '0' as int == d
  {
    ('0' as int + d) as char
  }

  /** The decimal value of a run of digits, most significant first. */
  function DigitsValue(s: string): nat
    requires AllDigits(s)
  {
    if s == [] then 0 else DigitsValue(s[..|s| - 1]) * 10 + (s[|s| - 1] as int - '0' as int)
  }

  /** The number of digits at the front of `s`. */
  function LeadingDigits(s: string): (n: nat)
    ensures n <= |s| && AllDigits(s[..n])
    ensures n < |s| ==> !IsDigit(s[n])
  {
    if s != [] && IsDigit(s[0]) then
      var n := LeadingDigits(s[1..]) + 1;
      assert s[..n] == [s[0]] + s[1..][..n - 1];
      n
    else 0
  }

  /**
   * The decimal literal `digits [. digits]` after an optional sign; None
   * stands for NaN.
   */
  function ParseDecimal(body: string, negative: bool): Option<Numeral> {
    var n := LeadingDigits(body);
    var rest := body[n..];
    if n > 0 && rest == [] then
      Some(Finite(negative, DigitsValue(body[..n]), 0))
    else if n > 0 && rest[0] == '.' && AllDigits(rest[1..]) then
      Some(Finite(negative, DigitsValue(body[..n] + rest[1..]), |rest| - 1))
    else
      None
  }

  /**
   * `Number(text)` for the forms an age field can hold: surrounding
   * whitespace is ignored, a blank string is 0, a sign may precede a decimal
   * literal or `Infinity`; everything else is NaN (None).
   */
  function ParseNumber(text: string): (r: Option<Numeral>)
    ensures AllWhitespace(text) ==> r == Some(Finite(false, 0, 0))
  {
    TrimEmptyIff(text);
    ParseTrimmed(Trim(text))
  }

  function ParseTrimmed(t: string): Option<Numeral> {
    if t == [] then Some(Finite(false, 0, 0))
    else
      var negative := t[0] == '-';
      var body := if t[0] == '-' || t[0] == '+' then t[1..] else t;
      if body == "Infinity" then Some(Infinite(negative)) else ParseDecimal(body, negative)
  }

  /**
   * `Number(...) < 18` for a numeral that is not NaN. A non-negative literal
   * rounds to a double below 18 exactly when it is below 18 - 2^-49, the
   * midpoint between 18 and the double before it; the midpoint itself rounds
   * to 18, whose significand is even. Cross-multiplied, with
   * 2^49 = 562949953421312 and 18 * 2^49 - 1 = 10133099161583615:
   * `digits * 2^49 < (18 * 2^49 - 1) * 10^places`.
   */
  predicate BelowMinimum(v: Numeral) {
    match v
    case Finite(negative, digits, places) =>
      negative || digits * 562949953421312 < 10133099161583615 * Pow10(places)
    case Infinite(negative) => negative
  }

  /** `!age.value || isNaN(ageNum) || ageNum < 18`. */
  predicate AgeRejected(age: string) {
    age == [] || ParseNumber(age).None? || BelowMinimum(ParseNumber(age).value)
  }

  /** The decimal numeral of `n`, without sign or leading zeros. */
  function NatToString(n: nat): (s: string)
    ensures |s| >= 1 && AllDigits(s) && IsDigit(s[0])
  {
    if n < 10 then [DigitChar(n)] else NatToString(n / 10) + [DigitChar(n % 10)]
  }

  lemma {:induction false} NatToStringValue(n: nat)
    ensures DigitsValue(NatToString(n)) == n
  {
    var s := NatToString(n);
    if n >= 10 {
      NatToStringValue(n / 10);
      assert s[..|s| - 1] == NatToString(n / 10);
    }
  }

  /** A plain run of digits is read as its decimal value. */
  lemma ParseDigits(s: string)
    requires |s| >= 1 && AllDigits(s)
    ensures ParseNumber(s) == Some(Finite(false, DigitsValue(s), 0))
  {
    DigitsAreTrimmed(s);
    assert ParseNumber(s) == ParseTrimmed(s);
    DigitsAreUnsigned(s);
    DigitsAreDecimal(s, false);
  }

  lemma DigitsAreUnsigned(s: string)
    requires |s| >= 1 && AllDigits(s)
    ensures ParseTrimmed(s) == ParseDecimal(s, false)
  {
    assert s[0] != "Infinity"[0];
  }

  lemma DigitsAreTrimmed(s: string)
    requires |s| >= 1 && AllDigits(s)
    ensures Trim(s) == s
  {
    assert IsTrimmed(s);
    TrimOfTrimmed(s);
  }

  lemma DigitsAreDecimal(s: string, negative: bool)
    requires |s| >= 1 && AllDigits(s)
    ensures ParseDecimal(s, negative) == Some(Finite(negative, DigitsValue(s), 0))
  {
    var n := LeadingDigits(s);
    assert n == |s|;
    assert s[..n] == s;
  }

  /** A whole number typed into the field is accepted exactly when it is at least 18. */
  lemma WholeAgeRule(n: nat)
    ensures !AgeRejected(NatToString(n)) <==> n >= MinimumAge
  {
    ParseDigits(NatToString(n));
    NatToStringValue(n);
  }

  /** "17" is refused and "18" accepted. */
  lemma SeventeenAndEighteen()
    ensures AgeRejected("17")
    ensures !AgeRejected("18")
  {
    assert "17"[..1] == "1" == "18"[..1] && "1"[..0] == "";
    assert DigitsValue("1") == 1;
    ParseDigits("17");
    ParseDigits("18");
  }

  /** A field holding only whitespace is read as 0 and refused, although it is not empty. */
  lemma BlankAgeRejected(age: string)
    requires AllWhitespace(age)
    ensures AgeRejected(age)
  {
  }

  /** Any negative whole number is refused. */
  lemma NegativeAgeRejected(n: nat)
    ensures AgeRejected("-" + NatToString(n))
  {
    var digits := NatToString(n);
    var age := "-" + digits;
    assert IsTrimmed(age);
    TrimOfTrimmed(age);
    assert age[1..] == digits;
    assert digits != "Infinity" by {
      assert IsDigit(digits[0]);
    }
    DigitsAreDecimal(digits, true);
  }

  /** Spaces around the age change nothing: `Number` trims its argument. */
  lemma SurroundingSpaceIgnored(age: string)
    ensures AgeRejected(" " + age + " ") == AgeRejected(age)
  {
    var spaced := " " + age;
    TrimTrailingSpace(spaced);
    assert spaced[1..] == age;
    assert Trim(spaced) == Trim(age);
    if age == [] {
      assert AllWhitespace(" " + age + " ");
    }
  }

  /**
   * `BelowMinimum` read on the exact value of a non-negative literal
   * `digits / 10^places`: it is below 18 exactly when the literal is below
   * 18 - 2^-49 (stated multiplied out by `10^places`).
   */
  lemma BelowMinimumExact(digits: nat, places: nat)
    ensures BelowMinimum(Finite(false, digits, places))
        <==> (digits as real) < (18.0 - 1.0 / 562949953421312.0) * (Pow10(places) as real)
  {
  }

  /** `n` nines. */
  function Nines(n: nat): (s: string)
    ensures |s| == n && AllDigits(s)
  {
    if n == 0 then "" else Nines(n - 1) + "9"
  }

  /** The digits of `17.99…9` with `n` nines, read without the point: `18 * 10^n - 1`. */
  lemma {:induction false} NinesValue(n: nat)
    ensures AllDigits("17" + Nines(n))
    ensures DigitsValue("17" + Nines(n)) == MinimumAge * Pow10(n) - 1
  {
    var s := "17" + Nines(n);
    if n == 0 {
      assert s == "17" && s[..1] == "1" && s[..1][..0] == "";
      assert DigitsValue(s[..1]) == 1;
    } else {
      NinesValue(n - 1);
      assert s[..|s| - 1] == "17" + Nines(n - 1);
    }
  }

  lemma {:induction false} Pow10Monotone(a: nat, b: nat)
    requires a <= b
    ensures Pow10(a) <= Pow10(b)
    decreases b
  {
    if a < b {
      Pow10Monotone(a, b - 1);
    }
  }

  /** `n` digits followed by a character that is not one are counted as `n`. */
  lemma {:induction false} LeadingDigitsExact(s: string, n: nat)
    requires n < |s| && !IsDigit(s[n])
    requires forall i :: 0 <= i < n ==> IsDigit(s[i])
    ensures LeadingDigits(s) == n
  {
    if n > 0 {
      LeadingDigitsExact(s[1..], n - 1);
    }
  }

  /** Text without surrounding whitespace is parsed as it stands. */
  lemma ParseOfTrimmed(t: string)
    requires IsTrimmed(t)
    ensures ParseNumber(t) == ParseTrimmed(t)
  {
    TrimOfTrimmed(t);
  }

  /** Text starting with a digit has no sign and is not `Infinity`. */
  lemma UnsignedDecimal(t: string)
    requires t != [] && IsDigit(t[0])
    ensures ParseTrimmed(t) == ParseDecimal(t, false)
  {
    assert t[0] != "Infinity"[0];
  }

  /** `whole.frac` is read as the literal `whole frac / 10^|frac|`. */
  lemma DecimalWithPoint(whole: string, frac: string, negative: bool)
    requires |whole| >= 1 && AllDigits(whole) && AllDigits(frac)
    ensures AllDigits(whole + frac)
    ensures ParseDecimal(whole + "." + frac, negative)
         == Some(Finite(negative, DigitsValue(whole + frac), |frac|))
  {
    var body := whole + "." + frac;
    LeadingDigitsExact(body, |whole|);
    assert body[..|whole|] == whole;
    assert body[|whole|..][1..] == frac;
  }

  /** `17.` followed by `n` nines is read as the literal `(18 * 10^n - 1) / 10^n`. */
  lemma NinesParse(n: nat)
    ensures ParseNumber("17." + Nines(n)) == Some(Finite(false, MinimumAge * Pow10(n) - 1, n))
  {
    var age := "17." + Nines(n);
    assert age == "17" + "." + Nines(n);
    assert age[0] == '1' && age[|age| - 1] in "9.";
    ParseOfTrimmed(age);
    UnsignedDecimal(age);
    DecimalWithPoint("17", Nines(n), false);
    NinesValue(n);
  }

  /** The two powers of ten around 2^49. */
  lemma Pow10Around2To49()
    ensures Pow10(14) == 100000000000000 < 562949953421312
    ensures Pow10(15) == 1000000000000000 > 562949953421312
  {
    assert Pow10(5) == 100000;
    assert Pow10(10) == 10000000000;
  }

  /**
   * Just below 18, rounding decides: `17.` followed by `n` nines reads as 18
   * and is accepted exactly when there are at least 15 nines
   * (`17.999999999999999` is accepted, `17.99999999999999` refused).
   */
  lemma NinesBelowEighteen(n: nat)
    ensures !AgeRejected("17." + Nines(n)) <==> n >= 15
  {
    var age := "17." + Nines(n);
    NinesParse(n);
    var q := Pow10(n);
    assert AgeRejected(age) <==> BelowMinimum(Finite(false, MinimumAge * q - 1, n));
    assert BelowMinimum(Finite(false, MinimumAge * q - 1, n)) <==> q < 562949953421312;
    Pow10Around2To49();
    if n < 15 {
      Pow10Monotone(n, 14);
    } else {
      Pow10Monotone(15, n);
    }
  }

  /** An empty field and a field that is not a number are both refused. */
  lemma EmptyAndNotANumber()
    ensures AgeRejected("")
    ensures AgeRejected("abc")
  {
    assert Trim("abc") == "abc" by { TrimOfTrimmed("abc"); }
    assert LeadingDigits("abc") == 0;
  }
}
