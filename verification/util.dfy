/**
 * logic/aggregate/util.go: the duplicate filter and the size formatter.
 */
module Util {
  import opened GoInts
  import opened StatsTypes

  /** GetOnlyDuplicates: exactly the entries seen at least twice, each with its own Info. */
  function GetOnlyDuplicates(entries: map<string, Info>): (d: map<string, Info>)
    ensures forall k :: k in d <==> k in entries && entries[k].count >= 2
    ensures forall k :: k in d ==> d[k] == entries[k]
  {
    map k | k in entries && entries[k].count >= 2 :: entries[k]
  }

  /** Filtering a second time changes nothing. */
  lemma GetOnlyDuplicatesIdempotent(entries: map<string, Info>)
    ensures GetOnlyDuplicates(GetOnlyDuplicates(entries)) == GetOnlyDuplicates(entries)
  {
  }

  /**
   * An identity first seen in one archive and seen again in a second one is
   * a duplicate, counted twice, with the first archive's sizes.
   */
  lemma SeenTwiceIsDuplicate(m: map<string, Info>, key: string, first: Info, second: Info)
    requires key !in m && first.count == 1
    ensures var d := GetOnlyDuplicates(Observe(Observe(m, key, first), key, second));
      key in d && d[key] == first.(count := 2)
  {
  }

  /** The units, smallest first. */
  const Units: seq<string> := ["B", "KB", "MB", "GB", "TB", "PB"]

  /** Scales[k] is 1024 to the power k. */
  const Scales: seq<int> := [1, 0x400, 0x10_0000, 0x4000_0000, 0x100_0000_0000, 0x4_0000_0000_0000]

  function UnitIndexFrom(n: int, k: nat): (r: nat)
    requires k < |Units|
    ensures k <= r < |Units|
    ensures r > k ==> Scales[r] <= n
    ensures r < |Units| - 1 ==> n < Scales[r + 1]
    decreases |Units| - k
  {
    if k < |Units| - 1 && n >= Scales[k + 1] then UnitIndexFrom(n, k + 1) else k
  }

  /**
   * The unit a byte count is shown in: the k with 1024^k <= n < 1024^(k+1),
   * PB for anything from 1024^5 on, and B for everything below 1024
   * (negative counts included).
   */
  function UnitIndex(n: int): (k: nat)
    ensures k < |Units|
    ensures k > 0 ==> Scales[k] <= n
    ensures k < |Units| - 1 ==> n < Scales[k + 1]
  {
    UnitIndexFrom(n, 0)
  }

  const TwoTo52: int := 0x10_0000_0000_0000
  const TwoTo53: int := 0x20_0000_0000_0000

  /**
   * The spacing of float64 values around `a`: the smallest power of two
   * `g`, from `u` on, with a < 2^53 * g.
   */
  function Spacing(a: nat, u: nat): (g: nat)
    requires u >= 1
    ensures g >= u && a < TwoTo53 * g
    ensures g == u || a >= TwoTo52 * g
    decreases a - TwoTo53 * u + TwoTo53
  {
    if a < TwoTo53 * u then u else Spacing(a, 2 * u)
  }

  /** float64(a) for a >= 0: rounded to 53 significant bits, ties to even. */
  function RoundToFloat64(a: nat): (f: nat)
    ensures a < TwoTo53 ==> f == a
    ensures a >= TwoTo53 ==> f >= TwoTo52
  {
    if a < TwoTo53 then a
    else
      var g := Spacing(a, 1);
      var q := a / g;
      var rem := a % g;
      assert q >= TwoTo52 && q * g >= TwoTo52 by {
        LowerQuotient(a, g, TwoTo52);
      }
      if 2 * rem > g || (2 * rem == g && q % 2 == 1) then (q + 1) * g else q * g
  }

  lemma LowerQuotient(a: nat, g: nat, k: nat)
    requires g >= 1 && a >= k * g
    ensures a / g >= k && (a / g) * g >= k
  {
    var q := a / g;
    assert a == q * g + a % g && a % g < g;
    if q < k {
      MulMonotone(q + 1, k, g);
    }
    MulMonotone(1, g, q);
  }

  lemma MulMonotone(x: int, y: int, g: nat)
    requires x <= y
    ensures x * g <= y * g
  {
    assert y * g - x * g == (y - x) * g;
  }

  /** float64(n): the value the source's `size` starts from. */
  function Float64Of(n: int): (f: int)
    ensures -TwoTo53 < n < TwoTo53 ==> f == n
  {
    if n < 0 then -(RoundToFloat64(-n) as int) else RoundToFloat64(n)
  }

  /** float64 rounding never moves a count across a unit threshold. */
  lemma Float64Threshold(n: int, t: int)
    requires 1 <= t <= Scales[|Units| - 1]
    ensures Float64Of(n) >= t <==> n >= t
  {
  }

  /**
   * fmt.Sprintf("%.2f", v / scale) for an exact value v / scale: two
   * decimals, rounded to nearest, ties to even.
   */
  function FixedTwo(v: int, scale: int): string
    requires scale >= 1
  {
    var a := if v < 0 then -v else v;
    var q := a * 100 / scale;
    var rem := a * 100 % scale;
    var c := if 2 * rem > scale || (2 * rem == scale && q % 2 == 1) then q + 1 else q;
    (if v < 0 then "-" else "") + Digits(c / 100) + "." + [DigitChar(c / 10 % 10), DigitChar(c % 10)]
  }

  /** What ConvertSizeBytesToHumanReadableString returns for `n`. */
  function HumanReadable(n: int64): (s: string)
    ensures n == 0 ==> s == "0B"
  {
    if n == 0 then "0B"
    else
      var k := UnitIndex(n);
      FixedTwo(Float64Of(n), Scales[k]) + Units[k]
  }

  /** The text ends in the unit of the largest scale the magnitude reaches, after at least one character. */
  lemma HumanReadableUnit(n: int64)
    ensures var u := Units[if n == 0 then 0 else UnitIndex(n)];
      |HumanReadable(n)| > |u| && HumanReadable(n)[|HumanReadable(n)| - |u|..] == u
  {
  }

  /** ConvertSizeBytesToHumanReadableString */
  method ConvertSizeBytesToHumanReadableString(sizeBytes: int64) returns (s: string)
    ensures s == HumanReadable(sizeBytes)
  {
    if sizeBytes == 0 {
      return "0B";
    }
    // float64(sizeBytes), held exactly; the source's `size` is always size / scale,
    // and dividing by 1024 is exact in floating point.
    var size := Float64Of(sizeBytes);
    var scale := 1;
    var i := 0;
    while size >= 1024 * scale && i < |Units| - 1
      invariant 0 <= i <= UnitIndex(sizeBytes)
      invariant scale == Scales[i]
    {
      Float64Threshold(sizeBytes, Scales[i + 1]);
      scale := scale * 1024;
      i := i + 1;
    }
    if i < |Units| - 1 {
      Float64Threshold(sizeBytes, Scales[i + 1]);
    }
    assert i == UnitIndex(sizeBytes);
    s := FixedTwo(size, scale) + Units[i];
  }

  /** The worked examples of the formatter. */
  lemma HumanReadableBytes()
    ensures HumanReadable(1023) == "1023.00B"
  {
    assert UnitIndex(1023) == 0;
    assert Digits(1023) == "1023" by {
      assert Digits(102) == "102" by { assert Digits(10) == "10"; }
    }
  }

  lemma HumanReadableOneKilobyte()
    ensures HumanReadable(1024) == "1.00KB"
  {
    assert UnitIndex(1024) == 1;
    assert FixedTwo(1024, 1024) == "1.00";
  }

  lemma HumanReadableKilobytes()
    ensures HumanReadable(1536) == "1.50KB"
  {
    assert UnitIndex(1536) == 1;
    assert FixedTwo(1536, 1024) == "1.50";
  }

  lemma HumanReadableMegabytes()
    ensures HumanReadable(0x10_0000) == "1.00MB"
  {
    assert UnitIndex(0x10_0000) == 2;
    assert FixedTwo(0x10_0000, 0x10_0000) == "1.00";
  }

  /**
   * The unit is chosen on the exact value, before rounding to two decimals:
   * one byte short of 1 MB is shown as 1024.00 KB.
   */
  lemma HumanReadableRoundsUpWithinUnit()
    ensures HumanReadable(0xF_FFFF) == "1024.00KB"
  {
    assert UnitIndex(0xF_FFFF) == 1;
    assert Float64Of(0xF_FFFF) == 0xF_FFFF;
    assert 0xF_FFFF * 100 / 1024 == 102399 && 0xF_FFFF * 100 % 1024 == 924;
    assert Digits(1024) == "1024" by {
      assert Digits(102) == "102" by { assert Digits(10) == "10"; }
    }
    assert FixedTwo(0xF_FFFF, 1024) == Digits(1024) + "." + [DigitChar(0), DigitChar(0)];
  }

  /** A negative count never leaves unit B: the loop guard fails at once. */
  lemma NegativeStaysInBytes(n: int64)
    requires n < 0
    ensures HumanReadable(n)[|HumanReadable(n)| - 1..] == "B"
    ensures HumanReadable(n)[0] == '-'
  {
  }

  /** Counts of 1024^5 bytes and more are all shown in PB. */
  lemma LargeCountsInPetabytes(n: int64)
    requires n >= Scales[|Units| - 1]
    ensures HumanReadable(n)[|HumanReadable(n)| - 2..] == "PB"
  {
  }
}
