/**
  `strconv.ParseInt(s, 10, 64)`, which DeleteMetadata uses to read its node id,
  and its partner: the decimal rendering of a non-negative integer.
 */
module GoStrconv {
  import opened Outcomes

  const MaxInt64: int := 0x7FFF_FFFF_FFFF_FFFF
  const MinInt64: int := -0x8000_0000_0000_0000

  predicate IsDigit(c: char) {
    '0' <= c <= '9'
  }

  predicate AllDigits(ds: string) {
    forall i :: 0 <= i < |ds| ==> IsDigit(ds[i])
  }

  /** The number a string of decimal digits denotes (leading zeros allowed). */
  function DigitsValue(ds: string): nat
    requires AllDigits(ds)
  {
    if ds == [] then 0
    else DigitsValue(ds[..|ds| - 1]) * 10 + (ds[|ds| - 1] as int - '0' as int)
  }

  /** Base 10 and 64 bits: an optional `+` or `-`, then at least one digit,
      and a value inside the int64 range; anything else is an error. */
  function ParseInt64(s: string): (r: Option<int>)
    ensures r.Some? ==> MinInt64 <= r.value <= MaxInt64
    ensures r.Some? ==> |s| > 0
  {
    if s == [] then None
    else
      var neg := s[0] == '-';
      var digits := if s[0] == '+' || s[0] == '-' then s[1..] else s;
      if digits == [] || !AllDigits(digits) then None
      else
        var v: int := if neg then -(DigitsValue(digits) as int) else DigitsValue(digits);
        if MinInt64 <= v <= MaxInt64 then Some(v) else None
  }

  function DigitChar(d: nat): char
    requires d < 10
  {
    ('0' as int + d) as char
  }

  /** The shortest decimal rendering of `n` (what `strconv.Itoa` gives). */
  function Decimal(n: nat): (ds: string)
    ensures |ds| >= 1 && AllDigits(ds)
  {
    if n < 10 then [DigitChar(n)] else Decimal(n / 10) + [DigitChar(n % 10)]
  }

  lemma {:induction false} DecimalValue(n: nat)
    ensures DigitsValue(Decimal(n)) == n
  {
    if n >= 10 {
      DecimalValue(n / 10);
      var ds := Decimal(n);
      assert ds[..|ds| - 1] == Decimal(n / 10);
    }
  }

  /** Every id the store can hand out reads back as itself. */
  lemma ParseDecimal(n: nat)
    requires n <= MaxInt64
    ensures ParseInt64(Decimal(n)) == Some(n)
  {
    DecimalValue(n);
    assert Decimal(n)[0] != '-' && Decimal(n)[0] != '+';
  }

  /** A minus sign in front negates the value, down to the int64 minimum. */
  lemma ParseNegativeDecimal(n: nat)
    requires n <= -MinInt64
    ensures ParseInt64(['-'] + Decimal(n)) == Some(-(n as int))
  {
    DecimalValue(n);
    assert (['-'] + Decimal(n))[1..] == Decimal(n);
  }

  /** The cases DeleteMetadata rejects as "invalid node id": no digits, a
      stray character, surrounding space, and one past the int64 maximum. */
  lemma ParseRejects()
    ensures ParseInt64("") == None
    ensures ParseInt64("-") == None
    ensures ParseInt64("12a") == None
    ensures ParseInt64(" 1") == None
    ensures ParseInt64(Decimal(MaxInt64 + 1)) == None
  {
    assert "12a"[2] == 'a' && !IsDigit('a');
    DecimalValue(MaxInt64 + 1);
    assert Decimal(MaxInt64 + 1)[0] != '-' && Decimal(MaxInt64 + 1)[0] != '+';
  }
}
