/**
  Go's strconv.Atoi on a 64-bit platform, over the bytes of its argument:
  an optional '+' or '-', then one or more decimal digits, and the value
  must fit in int64. Itoa is its inverse on int64 values.
 */
module Strconv {
  import opened Bytes

  const MinInt: int := -0x8000_0000_0000_0000
  const MaxInt: int := 0x7FFF_FFFF_FFFF_FFFF

  const Zero: byte := 48
  const Plus: byte := 43
  const Minus: byte := 45

  predicate IsDigit(b: byte) {
    Zero <= b <= Zero + 9
  }

  predicate AllDigits(ds: seq<byte>) {
    forall i | 0 <= i < |ds| :: IsDigit(ds[i])
  }

  /** The value of a run of decimal digits, most significant first. */
  function DigitsValue(ds: seq<byte>): nat
    requires AllDigits(ds)
  {
    if |ds| == 0 then 0
    else 10 * DigitsValue(ds[..|ds| - 1]) + (ds[|ds| - 1] - Zero) as int
  }

  /** The digits of s once an optional leading sign is stripped. */
  function Unsigned(s: seq<byte>): seq<byte> {
    if |s| > 0 && (s[0] == Plus || s[0] == Minus) then s[1..] else s
  }

  /** strconv.Atoi: None stands for a non-nil error (syntax or range). */
  function Atoi(s: seq<byte>): (r: Option<int>)
    ensures r.Some? ==> MinInt <= r.value <= MaxInt
    ensures r.Some? ==> |Unsigned(s)| > 0 && AllDigits(Unsigned(s))
    ensures r.Some? && r.value < 0 ==> s[0] == Minus
  {
    var ds := Unsigned(s);
    if |ds| == 0 || !AllDigits(ds) then None
    else
      var v := if s[0] == Minus then 0 - DigitsValue(ds) as int else DigitsValue(ds) as int;
      if MinInt <= v <= MaxInt then Some(v) else None
  }

  /** The shortest decimal digits of n. */
  function Decimal(n: nat): (ds: seq<byte>)
    ensures |ds| > 0 && AllDigits(ds)
  {
    if n < 10 then [Zero + n as byte]
    else Decimal(n / 10) + [Zero + (n % 10) as byte]
  }

  /** strconv.Itoa */
  function Itoa(n: int): seq<byte> {
    if n < 0 then [Minus] + Decimal(-n) else Decimal(n)
  }

  lemma {:induction false} DecimalValue(n: nat)
    ensures DigitsValue(Decimal(n)) == n
  {
    if n >= 10 {
      var ds := Decimal(n);
      assert ds[..|ds| - 1] == Decimal(n / 10);
      DecimalValue(n / 10);
    }
  }

  /** Atoi accepts what Itoa writes for every int64 and reads back its value. */
  lemma AtoiItoa(n: int)
    requires MinInt <= n <= MaxInt
    ensures Atoi(Itoa(n)) == Some(n)
  {
    var m := if n < 0 then -n else n;
    DecimalValue(m);
    assert Unsigned(Itoa(n)) == Decimal(m);
  }

  /** Atoi rejects, with Go's range error, the decimal form of every value outside int64. */
  lemma AtoiOutOfRange(n: int)
    requires n < MinInt || n > MaxInt
    ensures Atoi(Itoa(n)) == None
  {
    var m := if n < 0 then -n else n;
    DecimalValue(m);
    assert Unsigned(Itoa(n)) == Decimal(m);
  }

  /** A leading '0' does not change the value of a run of digits. */
  lemma {:induction false} DigitsValueLeadingZero(ds: seq<byte>)
    requires AllDigits(ds)
    ensures AllDigits([Zero] + ds) && DigitsValue([Zero] + ds) == DigitsValue(ds)
  {
    if |ds| > 0 {
      assert ([Zero] + ds)[..|ds|] == [Zero] + ds[..|ds| - 1];
      DigitsValueLeadingZero(ds[..|ds| - 1]);
    }
  }

  /** A leading '0' or '+' before the digits leaves Atoi's result unchanged. */
  lemma AtoiLeadingZero(ds: seq<byte>)
    requires |ds| > 0 && AllDigits(ds)
    ensures Atoi([Zero] + ds) == Atoi(ds) && Atoi([Plus] + ds) == Atoi(ds)
  {
    DigitsValueLeadingZero(ds);
    assert Unsigned([Zero] + ds) == [Zero] + ds;
    assert Unsigned([Plus] + ds) == ds;
    assert IsDigit(ds[0]);
    assert Unsigned(ds) == ds;
  }

  /** Atoi rejects an argument with any byte, after the sign, that is not a digit. */
  lemma AtoiRejectsNonDigit(s: seq<byte>, i: nat)
    requires i < |s| && !IsDigit(s[i])
    requires i > 0 || (s[0] != Plus && s[0] != Minus)
    ensures Atoi(s) == None
  {
    var ds := Unsigned(s);
    if |s| > 0 && (s[0] == Plus || s[0] == Minus) {
      assert ds[i - 1] == s[i];
    } else {
      assert ds[i] == s[i];
    }
  }
}
