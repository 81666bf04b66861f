// Decimal integers as Go writes and reads them: fmt's "%d" for an int64
// (what Sign puts under "ts") and strconv.ParseInt(s, 10, 64) (what the
// freshness check applies to the "ts" value it receives).

module Strconv {
  import opened Wrappers
  import opened ByteStrings

  const MinInt64: int := -0x8000_0000_0000_0000
  const MaxInt64: int := 0x7FFF_FFFF_FFFF_FFFF

  predicate IsInt64(n: int)
  {
    MinInt64 <= n <= MaxInt64
  }

  predicate IsDigit(c: Byte)
  {
    '0' <= c <= '9'
  }

  predicate AllDigits(s: Bytes)
  {
    forall i :: 0 <= i < |s| ==> IsDigit(s[i])
  }

  function DigitChar(d: nat): (c: Byte)
    requires d < 10
    ensures IsDigit(c) && c as int - '0' as int == d
  {
    ('0' as int + d) as char
  }

  /** The value of a run of decimal digits, most significant first. */
  function DigitsValue(s: Bytes): nat
    requires AllDigits(s)
  {
    if s == [] then 0
    else DigitsValue(s[..|s| - 1]) * 10 + (s[|s| - 1] as int - '0' as int)
  }

  /** The shortest decimal spelling of a natural number. */
  function FormatNat(n: nat): (s: Bytes)
    ensures s != [] && AllDigits(s)
    ensures n == 0 ==> s == "0"
    ensures n > 0 ==> s[0] != '0'
  {
    if n < 10 then [DigitChar(n)]
    else FormatNat(n / 10) + [DigitChar(n % 10)]
  }

  /** fmt.Sprintf("%d", n): a minus sign for negative numbers, then the digits. */
  function FormatInt(n: int): (s: Bytes)
    ensures s != []
    ensures n < 0 <==> s[0] == '-'
    ensures n >= 0 ==> IsDigit(s[0])
    ensures n == 0 ==> s == "0"
    ensures n > 0 ==> s[0] != '0'
    ensures n < 0 ==> |s| > 1 && s[1] != '0'
    ensures forall i :: 0 < i < |s| ==> IsDigit(s[i])
  {
    if n < 0 then "-" + FormatNat(-n) else FormatNat(n)
  }

  /**
   * strconv.ParseInt(s, 10, 64): an optional '+' or '-', then one or more
   * decimal digits, whose value must fit in 64 signed bits; anything else
   * (the empty string included) is an error, modelled as None.
   */
  function ParseInt(s: Bytes): (r: Option<int>)
    ensures s == [] ==> r.None?
    ensures r.Some? ==> IsInt64(r.value)
    ensures r.Some? ==> (IsDigit(s[0]) || s[0] == '+' || s[0] == '-')
                        && forall i :: 0 < i < |s| ==> IsDigit(s[i])
  {
    if s == [] then None
    else
      var negative := s[0] == '-';
      var body := if s[0] == '+' || s[0] == '-' then s[1..] else s;
      if body == [] || !AllDigits(body) then None
      else
        var u: int := DigitsValue(body);
        if !negative && u > MaxInt64 then None
        else if negative && u > -MinInt64 then None
        else Some(if negative then -u else u)
  }

  lemma {:induction false} DigitsOfFormatNat(n: nat)
    ensures DigitsValue(FormatNat(n)) == n
  {
    var s := FormatNat(n);
    if n >= 10 {
      DigitsOfFormatNat(n / 10);
      assert s[..|s| - 1] == FormatNat(n / 10);
    }
  }

  /** ParseInt reads back every int64 that FormatInt writes. */
  lemma {:induction false} ParseFormatInt(n: int)
    requires IsInt64(n)
    ensures ParseInt(FormatInt(n)) == Some(n)
  {
    var s := FormatInt(n);
    if n < 0 {
      DigitsOfFormatNat(-n);
      assert s[1..] == FormatNat(-n);
    } else {
      DigitsOfFormatNat(n);
    }
  }

  // ---------------------------------------------------------------------
  // Which spellings ParseInt accepts
  // ---------------------------------------------------------------------

  /** A run of z zero digits. */
  function Zeros(z: nat): (s: Bytes)
    ensures |s| == z && AllDigits(s)
    ensures forall i :: 0 <= i < z ==> s[i] == '0'
  {
    seq(z, _ => '0')
  }

  lemma {:induction false} ZerosValue(z: nat)
    ensures DigitsValue(Zeros(z)) == 0
  {
    if z > 0 {
      ZerosValue(z - 1);
      assert Zeros(z)[..z - 1] == Zeros(z - 1);
    }
  }

  /** Leading zeros do not change the value of a run of digits. */
  lemma {:induction false} LeadingZeros(z: nat, t: Bytes)
    requires AllDigits(t)
    ensures AllDigits(Zeros(z) + t) && DigitsValue(Zeros(z) + t) == DigitsValue(t)
    decreases |t|
  {
    var s := Zeros(z) + t;
    if t == [] {
      assert s == Zeros(z);
      ZerosValue(z);
    } else {
      LeadingZeros(z, t[..|t| - 1]);
      assert s[..|s| - 1] == Zeros(z) + t[..|t| - 1];
    }
  }

  /** A run of digits worth nothing is all zeros. */
  lemma {:induction false} ZeroDigits(t: Bytes)
    requires AllDigits(t) && DigitsValue(t) == 0
    ensures t == Zeros(|t|)
    decreases |t|
  {
    if t != [] {
      ZeroDigits(t[..|t| - 1]);
      assert t == t[..|t| - 1] + [t[|t| - 1]];
    }
  }

  /** Every non-empty run of digits is the shortest spelling of its value behind some zeros. */
  lemma {:induction false} DigitsSpelling(t: Bytes) returns (z: nat)
    requires t != [] && AllDigits(t)
    ensures t == Zeros(z) + FormatNat(DigitsValue(t))
    decreases |t|
  {
    var init, last := t[..|t| - 1], t[|t| - 1];
    var d := last as int - '0' as int;
    assert t == init + [last];
    if DigitsValue(init) == 0 {
      ZeroDigits(init);
      z := |init|;
      assert FormatNat(DigitsValue(t)) == [last];
    } else {
      z := DigitsSpelling(init);
      var n := DigitsValue(t);
      assert n / 10 == DigitsValue(init) && n % 10 == d;
      assert FormatNat(n) == FormatNat(DigitsValue(init)) + [last];
    }
  }

  /** ParseInt on a sign and a non-empty run of digits: their signed value, if it fits. */
  lemma ParseSignedDigits(s: Bytes, sign: Bytes, body: Bytes)
    requires sign == [] || sign == "+" || sign == "-"
    requires s == sign + body && body != [] && AllDigits(body)
    ensures var v := if sign == "-" then -(DigitsValue(body) as int) else DigitsValue(body) as int;
            ParseInt(s) == if IsInt64(v) then Some(v) else None
  {
    if sign == [] {
      assert s == body && IsDigit(s[0]);
    } else {
      assert s[0] == sign[0] && s[1..] == body;
    }
  }

  /**
   * ParseInt on an optional sign, zeros and a decimal number: the signed
   * value when it fits in 64 bits, and an error when it does not.
   */
  lemma ParseSpelling(sign: Bytes, z: nat, u: nat)
    requires sign == [] || sign == "+" || sign == "-"
    ensures var v := if sign == "-" then -(u as int) else u as int;
            ParseInt(sign + Zeros(z) + FormatNat(u)) == if IsInt64(v) then Some(v) else None
  {
    var body := Zeros(z) + FormatNat(u);
    SpellingDigits(z, u);
    ConcatAssoc(sign, Zeros(z), FormatNat(u));
    ParseSignedDigits(sign + body, sign, body);
  }

  /** Zeros and a decimal number make a run of digits worth that number. */
  lemma SpellingDigits(z: nat, u: nat)
    ensures var body := Zeros(z) + FormatNat(u);
            body != [] && AllDigits(body) && DigitsValue(body) == u
  {
    LeadingZeros(z, FormatNat(u));
    DigitsOfFormatNat(u);
  }

  /** What ParseInt reads: an optional sign, then a non-empty run of digits. */
  lemma ParsedShape(s: Bytes) returns (sign: Bytes, body: Bytes)
    requires ParseInt(s).Some?
    ensures sign == [] || sign == "+" || sign == "-"
    ensures s == sign + body && body != [] && AllDigits(body)
  {
    if s[0] == '+' || s[0] == '-' {
      sign, body := [s[0]], s[1..];
      assert s == sign + body;
    } else {
      sign, body := [], s;
    }
  }

  /** Conversely, every string ParseInt accepts is such a spelling of its value. */
  lemma ParsedSpelling(s: Bytes) returns (sign: Bytes, z: nat, u: nat)
    requires ParseInt(s).Some?
    ensures sign == [] || sign == "+" || sign == "-"
    ensures s == sign + Zeros(z) + FormatNat(u)
    ensures ParseInt(s).value == if sign == "-" then -(u as int) else u as int
  {
    var body;
    sign, body := ParsedShape(s);
    ParseSignedDigits(s, sign, body);
    z := DigitsSpelling(body);
    u := DigitsValue(body);
    ConcatAssoc(sign, Zeros(z), FormatNat(u));
  }

  lemma ConcatAssoc(a: Bytes, b: Bytes, c: Bytes)
    ensures a + (b + c) == a + b + c
  {
  }
}
