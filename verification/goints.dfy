/**
 * Go's 64-bit integers and the decimal conversions of `strconv` that the
 * core uses (FormatInt and ParseInt, both in base 10).
 */
module GoInts {
  import opened Wrappers

  const TwoTo63: int := 0x8000_0000_0000_0000
  const TwoTo64: int := 0x1_0000_0000_0000_0000

  /** Go's int64 (and `int`, which is 64 bits wide on the platforms the tool targets). */
  type int64 = x: int | -TwoTo63 <= x < TwoTo63

  /**
   * Two's-complement wrap-around of an int64 addition: the value is moved
   * by multiples of 2^64 into the int64 range.
   */
  function Wrap64(x: int): (r: int64)
    ensures -TwoTo63 <= x < TwoTo63 ==> r == x
    decreases if x < 0 then -2 * x else 2 * x + 1
  {
    if x >= TwoTo63 then Wrap64(x - TwoTo64)
    else if x < -TwoTo63 then Wrap64(x + TwoTo64)
    else x
  }

  /** The wrapped value in closed form: the residue of `x` modulo 2^64, centred on zero. */
  lemma {:induction false} WrapIsMod(x: int)
    ensures Wrap64(x) == (x + TwoTo63) % TwoTo64 - TwoTo63
    decreases if x < 0 then -2 * x else 2 * x + 1
  {
    if x >= TwoTo63 {
      WrapIsMod(x - TwoTo64);
      ShiftMod(x - TwoTo64 + TwoTo63, 1);
    } else if x < -TwoTo63 {
      WrapIsMod(x + TwoTo64);
      ShiftMod(x + TwoTo63, 1);
    }
  }

  /** The wrapped value differs from the exact one by a multiple of 2^64. */
  lemma WrapCongruent(x: int)
    ensures (Wrap64(x) - x) % TwoTo64 == 0
  {
    WrapIsMod(x);
  }

  /** Wrapping after every addition is the same as wrapping once at the end. */
  lemma WrapAddAssociates(a: int, b: int)
    ensures Wrap64(Wrap64(a) + b) == Wrap64(a + b)
  {
    var w := Wrap64(a);
    WrapCongruent(a);
    WrapIsMod(w + b);
    WrapIsMod(a + b);
    assert (w + b + TwoTo63) % TwoTo64 == (a + b + TwoTo63) % TwoTo64 by {
      var k := (w - a) / TwoTo64;
      assert w - a == k * TwoTo64;
      ShiftMod(a + b + TwoTo63, k);
    }
  }

  /** WrapAddAssociates with the first addition split in two. */
  lemma WrapAddRegroups(v: int, a: int, b: int)
    ensures Wrap64(Wrap64(v + a) + b) == Wrap64(v + (a + b))
  {
    WrapAddAssociates(v + a, b);
    assert v + a + b == v + (a + b);
  }

  lemma ShiftMod(x: int, k: int)
    ensures (x + k * TwoTo64) % TwoTo64 == x % TwoTo64
  {
  }

  predicate IsDigit(c: char) { '0' <= c <= '9' }

  function DigitChar(d: nat): (c: char)
    requires d < 10
    ensures IsDigit(c) && DigitOf(c) == d
  {
    ('0' as int + d) as char
  }

  function DigitOf(c: char): nat
    requires IsDigit(c)
  {
    c as int - '0' as int
  }

  /** Every character is a decimal digit (checked from the last one back). */
  predicate AllDigits(s: string)
    decreases |s|
  {
    s == [] || (IsDigit(s[|s| - 1]) && AllDigits(s[..|s| - 1]))
  }

  /** A digit string starts with a digit, so it carries no sign. */
  lemma {:induction false} AllDigitsFirst(s: string)
    requires s != [] && AllDigits(s)
    ensures IsDigit(s[0])
    decreases |s|
  {
    if |s| > 1 {
      AllDigitsFirst(s[..|s| - 1]);
    }
  }

  /** The decimal digits of `n`, without leading zeros. */
  function Digits(n: nat): (s: string)
    ensures s != []
    decreases n
  {
    if n < 10 then [DigitChar(n)] else Digits(n / 10) + [DigitChar(n % 10)]
  }

  lemma {:induction false} DigitsAreDigits(n: nat)
    ensures AllDigits(Digits(n))
    decreases n
  {
    if n >= 10 {
      var s := Digits(n);
      assert s[..|s| - 1] == Digits(n / 10);
      DigitsAreDigits(n / 10);
    }
  }

  /** The value of a string of decimal digits. */
  function DigitsValue(s: string): nat
    requires AllDigits(s)
  {
    if s == [] then 0
    else
      DigitsValue(s[..|s| - 1]) * 10 + DigitOf(s[|s| - 1])
  }

  lemma {:induction false} DigitsRoundTrip(n: nat)
    ensures AllDigits(Digits(n)) && DigitsValue(Digits(n)) == n
    decreases n
  {
    DigitsAreDigits(n);
    if n >= 10 {
      var s := Digits(n);
      assert s[..|s| - 1] == Digits(n / 10);
      DigitsRoundTrip(n / 10);
    }
  }

  /** strconv.FormatInt(n, 10) */
  function FormatInt(n: int): (s: string)
  {
    if n < 0 then "-" + Digits(-n) else Digits(n)
  }

  /**
   * strconv.ParseInt(s, 10, 64): an optional sign, then one or more decimal
   * digits, and the value must fit in an int64. Every failure (syntax or
   * range) is None.
   */
  function ParseInt(s: string): (r: Option<int64>)
    ensures r.Some? ==> s != []
  {
    if s == [] then None
    else
      var neg := s[0] == '-';
      var body := if s[0] == '-' || s[0] == '+' then s[1..] else s;
      if body == [] || !AllDigits(body) then None
      else
        var v: int := DigitsValue(body);
        if neg && v <= TwoTo63 then Some(-v as int64)
        else if !neg && v < TwoTo63 then Some(v as int64)
        else None
  }

  lemma ParseUnsigned(d: string)
    requires d != [] && AllDigits(d) && DigitsValue(d) < TwoTo63
    ensures ParseInt(d) == Some(DigitsValue(d) as int64)
  {
    AllDigitsFirst(d);
  }

  lemma ParseNegative(d: string)
    requires d != [] && AllDigits(d) && DigitsValue(d) <= TwoTo63
    ensures ParseInt("-" + d) == Some((-(DigitsValue(d) as int)) as int64)
  {
    var s := "-" + d;
    assert s[0] == '-' && s[1..] == d;
  }

  /** What FormatInt prints, ParseInt reads back. */
  lemma ParseFormatRoundTrip(n: int64)
    ensures ParseInt(FormatInt(n)) == Some(n)
  {
    if n < 0 {
      var d := Digits(-(n as int));
      DigitsRoundTrip(-(n as int));
      ParseNegative(d);
      assert FormatInt(n) == "-" + d;
    } else {
      var d := Digits(n);
      DigitsRoundTrip(n);
      ParseUnsigned(d);
      assert FormatInt(n) == d;
    }
  }
}
