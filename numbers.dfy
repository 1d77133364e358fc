/**
 * Base-10 integer strings: the ASCII part of the grammar Python's `int(s)`
 * accepts once `s` has been stripped, and `str(n)` for the natural numbers
 * that number rows in messages.
 */
module Numbers {
  import opened Wrappers

  predicate IsDigit(c: char) {
    '0' <= c <= '9'
  }

  /** A non-empty run of digits in which single underscores may separate two
      digits: `digit ("_"? digit)*`. */
  predicate DigitRun(s: string) {
    |s| > 0 && IsDigit(s[0]) &&
    (|s| == 1 || DigitRun(s[1..]) || (s[1] == '_' && DigitRun(s[2..])))
  }

  /** The strings `int(s)` accepts in base 10 (ASCII only): an optional sign
      followed by a digit run. The empty string is not one. */
  predicate IsIntString(s: string) {
    if |s| > 0 && (s[0] == '+' || s[0] == '-') then DigitRun(s[1..]) else DigitRun(s)
  }

  function DropUnderscores(s: string): string {
    if |s| == 0 then ""
    else (if s[0] == '_' then "" else [s[0]]) + DropUnderscores(s[1..])
  }

  function DigitValue(c: char): nat {
    if IsDigit(c) then c as int - '0' as int else 0
  }

  /** The value of a string of decimal digits, most significant first. */
  function Decimal(ds: string): nat {
    if |ds| == 0 then 0 else Decimal(ds[..|ds| - 1]) * 10 + DigitValue(ds[|ds| - 1])
  }

  /** `int(s)`: the value of an integer string, `None` where Python raises
      `ValueError`. */
  function ParseInt(s: string): (r: Option<int>)
    ensures r.Some? <==> IsIntString(s)
    ensures s == "" ==> r == None
  {
    if !IsIntString(s) then None
    else if s[0] == '-' then Some(-(Decimal(DropUnderscores(s[1..])) as int))
    else if s[0] == '+' then Some(Decimal(DropUnderscores(s[1..])))
    else Some(Decimal(DropUnderscores(s)))
  }

  function DigitChar(d: nat): char
    requires d < 10
  {
    ('0' as int + d) as char
  }

  /** `str(n)` for a natural number: its decimal digits without leading zeros. */
  function NatToString(n: nat): (r: string)
    ensures |r| > 0
    ensures forall k :: 0 <= k < |r| ==> IsDigit(r[k])
    ensures r[0] == '0' ==> n == 0 && r == "0"
  {
    if n < 10 then [DigitChar(n)] else NatToString(n / 10) + [DigitChar(n % 10)]
  }

  lemma {:induction false} AllDigitsAreRun(s: string)
    requires |s| > 0
    requires forall k :: 0 <= k < |s| ==> IsDigit(s[k])
    ensures DigitRun(s)
    ensures DropUnderscores(s) == s
  {
    if |s| > 1 {
      AllDigitsAreRun(s[1..]);
    }
  }

  lemma {:induction false} DecimalOfNatToString(n: nat)
    ensures Decimal(NatToString(n)) == n
  {
    if n >= 10 {
      var p := NatToString(n / 10);
      var r := p + [DigitChar(n % 10)];
      assert r[..|r| - 1] == p;
      DecimalOfNatToString(n / 10);
    }
  }

  /** `int(str(n)) == n`, also with an explicit sign in front. */
  lemma NatRoundTrip(n: nat)
    ensures ParseInt(NatToString(n)) == Some(n)
    ensures ParseInt("+" + NatToString(n)) == Some(n)
    ensures ParseInt("-" + NatToString(n)) == Some(-(n as int))
  {
    var d := NatToString(n);
    AllDigitsAreRun(d);
    DecimalOfNatToString(n);
    assert IsDigit(d[0]);
    SignedDigits(d, '+');
    SignedDigits(d, '-');
  }

  /** A sign in front of a digit run is read as that sign. */
  lemma SignedDigits(d: string, sign: char)
    requires sign == '+' || sign == '-'
    requires DigitRun(d)
    ensures var v := Decimal(DropUnderscores(d));
            ParseInt([sign] + d) == Some(if sign == '-' then -(v as int) else v)
  {
    assert ([sign] + d)[1..] == d;
  }
}
