/**
 How a stored option value (a string) is read as a boolean or an integer,
 and the decimal spelling of integers that the integer reading inverts.
 */
module Values {

  /** Boolean reading of a stored value: "0" is false; anything else,
      including the empty value of a bare flag, is true. */
  function AsBool(v: string): bool
  {
    v != "0"
  }

  predicate IsDigit(c: char)
  {
    '0' <= c <= '9'
  }

  predicate AllDigits(d: string)
  {
    forall j :: 0 <= j < |d| ==> IsDigit(d[j])
  }

  /** The longest prefix of `s` made of decimal digits. */
  function LeadingDigits(s: string): (d: string)
    ensures d <= s && AllDigits(d)
    ensures |d| < |s| ==> !IsDigit(s[|d|])
  {
    if s == [] || !IsDigit(s[0]) then []
    else [s[0]] + LeadingDigits(s[1..])
  }

  /** The value of a string of decimal digits, most significant first. */
  function DigitsValue(d: string): nat
    requires AllDigits(d)
  {
    if d == [] then 0
    else DigitsValue(d[..|d| - 1]) * 10 + (d[|d| - 1] as int - '0' as int)
  }

  /** Integer reading of a stored value: an optional sign followed by the
      leading run of decimal digits; text with no leading digits reads as 0. */
  function AsInt(v: string): int
  {
    if |v| > 0 && v[0] == '-' then -(DigitsValue(LeadingDigits(v[1..])) as int)
    else if |v| > 0 && v[0] == '+' then DigitsValue(LeadingDigits(v[1..]))
    else DigitsValue(LeadingDigits(v))
  }

  function DigitChar(k: nat): (c: char)
    requires k < 10
    ensures IsDigit(c) && c as int - '0' as int == k
  {
    ('0' as int + k) as char
  }

  /** The decimal spelling of a natural number, without leading zeros. */
  function Decimal(n: nat): (d: string)
    ensures |d| > 0 && AllDigits(d)
  {
    if n < 10 then [DigitChar(n)] else Decimal(n / 10) + [DigitChar(n % 10)]
  }

  /** The decimal spelling of an integer, with a '-' when negative. */
  function Show(i: int): string
  {
    if i < 0 then "-" + Decimal(-i) else Decimal(i)
  }

  lemma {:induction false} DecimalValue(n: nat)
    ensures DigitsValue(Decimal(n)) == n
  {
    if n >= 10 {
      var d := Decimal(n);
      assert d[..|d| - 1] == Decimal(n / 10);
      DecimalValue(n / 10);
    }
  }

  lemma {:induction false} LeadingDigitsOfDigits(d: string)
    requires AllDigits(d)
    ensures LeadingDigits(d) == d
  {
    if d != [] {
      LeadingDigitsOfDigits(d[1..]);
    }
  }

  /** Reading an integer back from its decimal spelling gives the integer. */
  lemma AsIntShow(i: int)
    ensures AsInt(Show(i)) == i
  {
    var n: nat := if i < 0 then -i else i;
    DecimalValue(n);
    LeadingDigitsOfDigits(Decimal(n));
    if i < 0 {
      assert Show(i)[1..] == Decimal(n);
    } else {
      assert IsDigit(Decimal(n)[0]);
    }
  }

  /** Text that starts with neither a digit nor a sign, such as "NaN", or
      an empty value, reads as 0. */
  lemma AsIntNonNumeric(v: string)
    requires v == [] || (!IsDigit(v[0]) && v[0] != '-' && v[0] != '+')
    ensures AsInt(v) == 0
  {
  }
}
