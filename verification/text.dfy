/** Decimal formatting and parsing of integers (`strconv.Itoa`, `%d`,
    `strconv.Atoi`) and `strings.Join`, shared by the handlers and the report. */
module Text {
  import opened Wrappers

  predicate IsDigit(c: char) {
    '0' <= c <= '9'
  }

  function DigitChar(d: nat): (c: char)
    requires d < 10
    ensures IsDigit(c)
  {
    (('0' as int) + d) as char
  }

  function DigitValue(c: char): (d: nat)
    requires IsDigit(c)
    ensures d < 10
  {
    (c as int) - ('0' as int)
  }

  /** The decimal digits of n, most significant first, without leading zeros. */
  function NatDigits(n: nat): (s: string)
    ensures |s| >= 1
    ensures forall i :: 0 <= i < |s| ==> IsDigit(s[i])
    ensures |s| > 1 ==> s[0] != '0'
  {
    if n < 10 then [DigitChar(n)] else NatDigits(n / 10) + [DigitChar(n % 10)]
  }

  /** `strconv.Itoa(n)`, which is also what `%d` prints. */
  function DecimalString(n: int): (s: string)
    ensures |s| >= 1
    ensures n < 0 <==> s[0] == '-'
  {
    if n < 0 then "-" + NatDigits(-n) else NatDigits(n)
  }

  /** The value of a non-empty run of decimal digits. */
  function DigitsValue(s: string): nat
    requires forall i :: 0 <= i < |s| ==> IsDigit(s[i])
  {
    if s == [] then 0 else DigitsValue(s[..|s| - 1]) * 10 + DigitValue(s[|s| - 1])
  }

  predicate AllDigits(s: string) {
    |s| > 0 && forall i :: 0 <= i < |s| ==> IsDigit(s[i])
  }

  /** `strconv.Atoi`: an optional sign followed by at least one digit; anything
      else is an error. */
  function ParseDecimal(s: string): (r: Option<int>)
    ensures r.Some? ==> |s| > 0
  {
    if |s| > 0 && (s[0] == '-' || s[0] == '+') then
      if AllDigits(s[1..]) then
        var magnitude: int := DigitsValue(s[1..]);
        Some(if s[0] == '-' then -magnitude else magnitude)
      else None
    else if AllDigits(s) then Some(DigitsValue(s))
    else None
  }

  lemma {:induction false} NatDigitsValue(n: nat)
    ensures DigitsValue(NatDigits(n)) == n
  {
    if n >= 10 {
      var s := NatDigits(n);
      var prefix := NatDigits(n / 10);
      assert s == prefix + [DigitChar(n % 10)];
      assert s[..|s| - 1] == prefix;
      NatDigitsValue(n / 10);
    }
  }

  /** What `strconv.Itoa` writes, `strconv.Atoi` reads back. */
  lemma {:induction false} ParseDecimalRoundTrip(n: int)
    ensures ParseDecimal(DecimalString(n)) == Some(n)
  {
    var s := DecimalString(n);
    if n < 0 {
      var digits := NatDigits(-n);
      assert s == "-" + digits;
      assert s[1..] == digits;
      assert AllDigits(digits);
      NatDigitsValue(-n);
    } else {
      assert s == NatDigits(n);
      assert s[0] != '-' && s[0] != '+';
      assert AllDigits(s);
      NatDigitsValue(n);
    }
  }

  /** `strings.Join(parts, sep)`. */
  function Join(parts: seq<string>, sep: string): (r: string)
    ensures parts == [] ==> r == ""
    ensures |parts| == 1 ==> r == parts[0]
  {
    if parts == [] then ""
    else if |parts| == 1 then parts[0]
    else parts[0] + sep + Join(parts[1..], sep)
  }
}
