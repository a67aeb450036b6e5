/** The text shown in the results panel after a non-blank search: the
    number of matches in decimal, with the Portuguese plural, or the
    "no results" sentence. */
module ResultText {

  predicate IsDigit(c: char) {
    '0' <= c <= '9'
  }

  function DigitChar(d: nat): (c: char)
    requires d < 10
    ensures IsDigit(c)
  {
    ('0' as int + d) as char
  }

  function DigitValue(c: char): (d: nat)
    requires IsDigit(c)
    ensures d < 10 && DigitChar(d) == c
  {
    c as int - '0' as int
  }

  /** The decimal numeral of `n`, as a template literal prints a number. */
  function Decimal(n: nat): (r: string)
    ensures |r| >= 1
    ensures forall i | 0 <= i < |r| :: IsDigit(r[i])
    ensures |r| > 1 ==> r[0] != '0'
  {
    if n < 10 then [DigitChar(n)] else Decimal(n / 10) + [DigitChar(n % 10)]
  }

  /** The number a string of digits denotes. */
  function DecimalValue(s: string): nat
    requires forall i | 0 <= i < |s| :: IsDigit(s[i])
  {
    if s == [] then 0
    else DecimalValue(s[..|s| - 1]) * 10 + DigitValue(s[|s| - 1])
  }

  /** Reading back the numeral gives the number. */
  lemma {:induction false} DecimalRoundTrip(n: nat)
    ensures DecimalValue(Decimal(n)) == n
  {
    if n >= 10 {
      DecimalRoundTrip(n / 10);
      var r := Decimal(n);
      assert r[..|r| - 1] == Decimal(n / 10);
    }
  }

  /** The text of `resultsCount` for a non-blank query with `total` matches. */
  function ResultMessage(total: nat): (r: string)
    ensures total == 0 ==> r == "Nenhum resultado encontrado"
    ensures total == 1 ==> r == "1 resultado encontrado"
    ensures total > 1 ==> r == Decimal(total) + " resultados encontrados"
  {
    if total > 0 then
      var plural := if total != 1 then "s" else "";
      Decimal(total) + " resultado" + plural + " encontrado" + plural
    else
      "Nenhum resultado encontrado"
  }

  /** The number of digits a text starts with. */
  function LeadingDigits(s: string): (k: nat)
    ensures k <= |s|
  {
    if s != [] && IsDigit(s[0]) then 1 + LeadingDigits(s[1..]) else 0
  }

  /** A numeral followed by a text that does not start with a digit: the
      numeral is exactly the leading digits. */
  lemma {:induction false} LeadingDigitsOfNumeral(a: string, x: string)
    requires forall i | 0 <= i < |a| :: IsDigit(a[i])
    requires |x| >= 1 && !IsDigit(x[0])
    ensures LeadingDigits(a + x) == |a|
  {
    if a == [] {
      assert a + x == x;
    } else {
      assert (a + x)[1..] == a[1..] + x;
      LeadingDigitsOfNumeral(a[1..], x);
    }
  }

  /** The message starts with the numeral of the count, if any. */
  lemma ResultMessageNumeral(t: nat)
    ensures LeadingDigits(ResultMessage(t)) == (if t == 0 then 0 else |Decimal(t)|)
    ensures t > 0 ==> ResultMessage(t)[..|Decimal(t)|] == Decimal(t)
  {
    if t > 0 {
      var plural := if t != 1 then "s" else "";
      var tail := " resultado" + plural + " encontrado" + plural;
      assert ResultMessage(t) == Decimal(t) + tail;
      LeadingDigitsOfNumeral(Decimal(t), tail);
    }
  }

  /** Different counts give different texts: the message determines the
      number of matches. */
  lemma ResultMessageInjective(m: nat, n: nat)
    requires ResultMessage(m) == ResultMessage(n)
    ensures m == n
  {
    ResultMessageNumeral(m);
    ResultMessageNumeral(n);
    if m > 0 {
      DecimalRoundTrip(m);
      DecimalRoundTrip(n);
    }
  }
}
