/** Decimal numerals, as `%ld` prints them and `atol` reads them. */
module Decimal {
  import opened Seqs

  predicate IsDigit(c: char) { '0' <= c <= '9' }

  predicate AllDigits(s: string) {
    forall i :: 0 <= i < |s| ==> IsDigit(s[i])
  }

  function DigitChar(d: nat): (c: char)
    requires d < 10
    ensures IsDigit(c) && (c as int) - ('0' as int) == d
  {
    ('0' as int + d) as char
  }

  /** `%u` */
  function Digits(n: nat): (s: string)
    ensures s != "" && AllDigits(s)
    ensures n > 0 ==> s[0] != '0'
  {
    if n < 10 then [DigitChar(n)] else Digits(n / 10) + [DigitChar(n % 10)]
  }

  /** `%ld` */
  function Dec(n: int): string {
    if n < 0 then "-" + Digits(-n) else Digits(n)
  }

  /** The value of a string of digits. */
  function Number(s: string): nat
    requires AllDigits(s)
  {
    if s == "" then 0 else Number(Init(s)) * 10 + (Last(s) as int - '0' as int)
  }

  lemma {:induction false} NumberDigits(n: nat)
    ensures Number(Digits(n)) == n
  {
    if n < 10 {
      assert Init(Digits(n)) == "";
    } else {
      assert Init(Digits(n)) == Digits(n / 10);
      NumberDigits(n / 10);
    }
  }

  /** `is_integer` */
  predicate IsInteger(s: string) {
    forall i :: 0 <= i < |s| ==> IsDigit(s[i]) || (s[i] == '-' && i == 0)
  }

  /** The digits at the head of a string. */
  function Leading(s: string): (r: string)
    ensures AllDigits(r) && |r| <= |s| && s[..|r|] == r
    ensures |r| < |s| ==> !IsDigit(s[|r|])
  {
    if s == "" || !IsDigit(s[0]) then "" else [s[0]] + Leading(s[1..])
  }

  lemma {:induction false} LeadingOf(d: string, rest: string)
    requires AllDigits(d) && (rest == "" || !IsDigit(rest[0]))
    ensures Leading(d + rest) == d
  {
    if d == "" {
      assert d + rest == rest;
    } else {
      assert (d + rest)[1..] == d[1..] + rest;
      LeadingOf(d[1..], rest);
    }
  }

  predicate IsSpace(c: char) {
    c == ' ' || '\t' <= c <= '\r'
  }

  /** `atol`: blanks, an optional sign, digits; anything after that is ignored. */
  function Atol(s: string): int {
    if s == "" then 0
    else if IsSpace(s[0]) then Atol(s[1..])
    else if s[0] == '-' then -(Number(Leading(s[1..])) as int)
    else if s[0] == '+' then Number(Leading(s[1..]))
    else Number(Leading(s))
  }

  lemma AtolDec(n: int)
    ensures Atol(Dec(n)) == n
  {
    if n < 0 {
      assert Dec(n)[1..] == Digits(-n);
      LeadingOf(Digits(-n), "");
      assert Digits(-n) + "" == Digits(-n);
      NumberDigits(-n);
    } else {
      LeadingOf(Digits(n), "");
      assert Digits(n) + "" == Digits(n);
      NumberDigits(n);
      assert IsDigit(Dec(n)[0]);
    }
  }
}
