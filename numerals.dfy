/** Python's `int(text)` on strings and `str(n)` on integers, the only conversions between
    text and numbers the school-records tool performs. */
module Numerals {
  import opened Options
  import opened Text

  predicate IsDigit(c: char) {
    '0' <= c <= '9'
  }

  /** A run of ASCII digits in which single underscores may separate two digits, the
      shape `int()` accepts after the sign. */
  predicate WellFormedDigits(d: string) {
    && d != [] && IsDigit(d[0])
    && (|d| == 1 || if d[1] == '_' then WellFormedDigits(d[2..]) else WellFormedDigits(d[1..]))
  }

  /** A non-empty run of plain digits is well formed. */
  lemma {:induction false} AllDigitsWellFormed(d: string)
    requires d != [] && forall i :: 0 <= i < |d| ==> IsDigit(d[i])
    ensures WellFormedDigits(d)
  {
    if |d| > 1 {
      AllDigitsWellFormed(d[1..]);
    }
  }

  /** The decimal value of a digit run, underscores ignored. */
  function DigitsValue(d: string): nat {
    if d == [] then 0
    else if IsDigit(d[|d| - 1]) then DigitsValue(d[..|d| - 1]) * 10 + (d[|d| - 1] as int - '0' as int)
    else DigitsValue(d[..|d| - 1])
  }

  /** The numeric part of `int()`: an optional sign followed by a well-formed digit run. */
  function ParseSigned(t: string): (r: Option<int>)
    ensures r.Some? ==> t != [] && !IsSpace(t[0])
  {
    if t != [] && (t[0] == '-' || t[0] == '+') then
      if WellFormedDigits(t[1..]) then
        Some(if t[0] == '-' then 0 - DigitsValue(t[1..]) as int else DigitsValue(t[1..]))
      else None
    else if WellFormedDigits(t) then Some(DigitsValue(t))
    else None
  }

  /** `int(s)`: surrounding whitespace is ignored; `None` stands for the `ValueError` raised on
      anything else than an optionally signed decimal numeral. */
  function ParseInt(s: string): (r: Option<int>)
  {
    ParseSigned(Trim(s))
  }

  /** The stripped numeric cells of a record: `int(t) if t else 0`, so a blank cell reads as 0. */
  function IntOrZero(t: string): (r: Option<int>)
    ensures t == "" ==> r == Some(0)
    ensures t != "" ==> r == ParseInt(t)
  {
    if t == "" then Some(0) else ParseInt(t)
  }

  /** Surrounding whitespace never changes what `int()` reads. */
  lemma ParseIgnoresSpace(s: string)
    ensures ParseInt(s) == ParseInt(Trim(s))
  {
    TrimIdempotent(s);
  }

  function DigitChar(n: nat): (c: char)
    requires n < 10
    ensures IsDigit(c) && c as int - '0' as int == n
  {
    ('0' as int + n) as char
  }

  /** `str(n)` for `n >= 0`: decimal digits, no leading zeros. */
  function FormatNat(n: nat): (r: string)
    ensures r != [] && IsDigit(r[0]) && IsDigit(r[|r| - 1])
    ensures forall i :: 0 <= i < |r| ==> IsDigit(r[i])
  {
    if n < 10 then [DigitChar(n)] else FormatNat(n / 10) + [DigitChar(n % 10)]
  }

  /** `str(n)`. */
  function FormatInt(n: int): (r: string)
    ensures r != [] && !IsSpace(r[0]) && !IsSpace(r[|r| - 1])
  {
    if n < 0 then "-" + FormatNat(-n) else FormatNat(n)
  }

  lemma {:induction false} DigitsOfFormat(n: nat)
    ensures WellFormedDigits(FormatNat(n)) && DigitsValue(FormatNat(n)) == n
  {
    var r := FormatNat(n);
    AllDigitsWellFormed(r);
    if n >= 10 {
      DigitsOfFormat(n / 10);
      assert r[..|r| - 1] == FormatNat(n / 10);
    }
  }

  /** An unsigned well-formed digit run reads as its value. */
  lemma ParseDigits(d: string)
    requires WellFormedDigits(d)
    ensures ParseSigned(d) == Some(DigitsValue(d) as int)
  {
  }

  /** A minus sign before a well-formed digit run negates its value. */
  lemma ParseNegated(d: string)
    requires WellFormedDigits(d)
    ensures ParseSigned("-" + d) == Some(0 - DigitsValue(d) as int)
  {
    assert ("-" + d)[1..] == d;
  }

  /** Reading back a printed integer gives the integer: `int(str(n)) == n`. */
  lemma ParseFormat(n: int)
    ensures ParseInt(FormatInt(n)) == Some(n)
  {
    var r := FormatInt(n);
    TrimOfTrimmed(r);
    if n < 0 {
      DigitsOfFormat(-n);
      ParseNegated(FormatNat(-n));
    } else {
      DigitsOfFormat(n);
      ParseDigits(FormatNat(n));
    }
  }
}
