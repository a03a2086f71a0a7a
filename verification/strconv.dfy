/**
 * Go's strconv.ParseInt(s, 10, 64) with its error discarded, as
 * ExtractGID uses it: a syntax error yields 0, an out-of-range value yields
 * the int64 of largest magnitude with the value's sign.
 */
module Strconv {

  const MaxInt64: int := 0x7fff_ffff_ffff_ffff
  const MinInt64: int := -0x8000_0000_0000_0000
  const MaxUint64: int := 0xffff_ffff_ffff_ffff

  predicate IsDigit(c: char) {
    '0' <= c <= '9'
  }

  predicate AllDigits(t: string) {
    forall i :: 0 <= i < |t| ==> IsDigit(t[i])
  }

  function DigitValue(c: char): (d: nat)
    requires IsDigit(c)
    ensures d < 10
  {
    (c as int) - ('0' as int)
  }

  /** The value of the decimal digits `t` read after the value `n`. */
  function Accumulate(n: nat, t: string): nat
    requires AllDigits(t)
    decreases |t|
  {
    if t == [] then n else Accumulate(n * 10 + DigitValue(t[0]), t[1..])
  }

  /** The value of a string of decimal digits. */
  function DecimalValue(t: string): nat
    requires AllDigits(t)
  {
    Accumulate(0, t)
  }

  /** Outcome of the unsigned digit loop. */
  datatype UintResult = Parsed(n: nat) | SyntaxError | RangeError

  /**
   * The digit loop of strconv.ParseUint for base 10 and 64 bits, run from
   * the accumulated value `n`: a character that is not a decimal digit is
   * a syntax error, and a digit that takes the value past 2^64-1 is a range
   * error, whichever comes first. (Go detects the overflow with a cutoff
   * test and a wrap-around test; together they fire exactly when
   * n * 10 + d exceeds 2^64-1.)
   */
  function Scan(u: string, n: nat): (r: UintResult)
    requires n <= MaxUint64
    ensures r.Parsed? ==> r.n <= MaxUint64
    decreases |u|
  {
    if u == [] then Parsed(n)
    else if !IsDigit(u[0]) then SyntaxError
    else if n * 10 + DigitValue(u[0]) > MaxUint64 then RangeError
    else Scan(u[1..], n * 10 + DigitValue(u[0]))
  }

  /** strconv.ParseUint(u, 10, 64): the empty string is a syntax error. */
  function ParseUint(u: string): UintResult {
    if u == [] then SyntaxError else Scan(u, 0)
  }

  /** strconv.ParseInt(s, 10, 64) with the error dropped. */
  function ParseInt(s: string): (r: int)
    ensures MinInt64 <= r <= MaxInt64
  {
    if s == [] then 0
    else
      var neg := s[0] == '-';
      var u := if s[0] == '+' || s[0] == '-' then s[1..] else s;
      match ParseUint(u)
      case SyntaxError => 0
      case RangeError => if neg then MinInt64 else MaxInt64
      case Parsed(n) =>
        if !neg && n > MaxInt64 then MaxInt64
        else if neg && n > -MinInt64 then MinInt64
        else if neg then -(n as int)
        else n
  }

  lemma {:induction false} AccumulateAtLeast(n: nat, t: string)
    requires AllDigits(t)
    ensures Accumulate(n, t) >= n
    decreases |t|
  {
    if t != [] {
      AccumulateAtLeast(n * 10 + DigitValue(t[0]), t[1..]);
    }
  }

  /** Digits whose value fits in 64 bits scan to that value. */
  lemma {:induction false} ScanDigits(t: string, n: nat)
    requires AllDigits(t) && Accumulate(n, t) <= MaxUint64
    ensures n <= MaxUint64 && Scan(t, n) == Parsed(Accumulate(n, t))
    decreases |t|
  {
    AccumulateAtLeast(n, t);
    if t != [] {
      var n' := n * 10 + DigitValue(t[0]);
      AccumulateAtLeast(n', t[1..]);
      ScanDigits(t[1..], n');
    }
  }

  /** Digits scan either to their value or to a range error, never to a syntax error. */
  lemma {:induction false} ScanDigitsOrRange(t: string, n: nat)
    requires AllDigits(t) && n <= MaxUint64
    ensures Scan(t, n) == Parsed(Accumulate(n, t)) || Scan(t, n) == RangeError
    decreases |t|
  {
    if t != [] && n * 10 + DigitValue(t[0]) <= MaxUint64 {
      ScanDigitsOrRange(t[1..], n * 10 + DigitValue(t[0]));
    }
  }

  /** Digits followed by a non-digit are a syntax error unless the digits already overflowed. */
  lemma {:induction false} ScanStopsAtNonDigit(t: string, rest: string, n: nat)
    requires AllDigits(t) && Accumulate(n, t) <= MaxUint64
    requires rest != [] && !IsDigit(rest[0])
    ensures n <= MaxUint64 && Scan(t + rest, n) == SyntaxError
    decreases |t|
  {
    AccumulateAtLeast(n, t);
    if t != [] {
      var n' := n * 10 + DigitValue(t[0]);
      AccumulateAtLeast(n', t[1..]);
      assert (t + rest)[1..] == t[1..] + rest;
      ScanStopsAtNonDigit(t[1..], rest, n');
    } else {
      assert t + rest == rest;
    }
  }

  /** A plain decimal token in int64 range parses to its value. */
  lemma ParseIntOfDigits(t: string)
    requires t != [] && AllDigits(t) && DecimalValue(t) <= MaxInt64
    ensures ParseInt(t) == DecimalValue(t)
  {
    ScanDigits(t, 0);
  }

  /** A minus sign before a decimal token in int64 range negates its value. */
  lemma ParseIntOfNegatedDigits(t: string)
    requires t != [] && AllDigits(t) && DecimalValue(t) <= -MinInt64
    ensures ParseInt(['-'] + t) == -(DecimalValue(t) as int)
  {
    assert (['-'] + t)[1..] == t;
    ScanDigits(t, 0);
  }

  /** A decimal token beyond int64 range saturates at MaxInt64. */
  lemma ParseIntSaturates(t: string)
    requires t != [] && AllDigits(t) && DecimalValue(t) > MaxInt64
    ensures ParseInt(t) == MaxInt64
  {
    ScanDigitsOrRange(t, 0);
  }

  /**
   * A token that is not a number parses to 0: some decimal digits (perhaps
   * none, after an optional sign), still within 64 bits, followed by a
   * character that is not a digit; or nothing but a sign; or nothing.
   */
  lemma ParseIntSyntaxErrorIsZero(sign: string, t: string, rest: string)
    requires sign == [] || sign == ['+'] || sign == ['-']
    requires AllDigits(t) && DecimalValue(t) <= MaxUint64
    requires (rest != [] && !IsDigit(rest[0])) || (t == [] && rest == [])
    requires sign == [] && t == [] && rest != [] ==> rest[0] != '+' && rest[0] != '-'
    ensures ParseInt(sign + t + rest) == 0
  {
    var s := sign + t + rest;
    if rest != [] {
      ScanStopsAtNonDigit(t, rest, 0);
      if sign != [] {
        assert s[1..] == t + rest;
      } else {
        assert s == t + rest;
        assert s[0] == if t == [] then rest[0] else t[0];
      }
    } else if sign != [] {
      assert s[1..] == [];
    }
  }
}
