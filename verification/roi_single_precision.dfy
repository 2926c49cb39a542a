/**
 * The ROI rectangle as the tool computes it: in IEEE-754 single precision,
 * `int(w * (0.5f - 0.5f * p))` and `int(w * (0.5f + 0.5f * p))` for the ROI
 * fraction `p` held as a float. Every operation rounds its exact result to
 * 24 significant bits, to nearest with ties to even; the conversion to int
 * truncates. Only non-negative values occur, and none is subnormal or
 * overflows for widths and heights below 2^24.
 */
module RoiSinglePrecision {
  import opened Session

  /** The non-negative value num / 2^exp. */
  datatype Single = Single(num: nat, exp: nat)

  function Pow2(k: nat): (r: nat)
    ensures r >= 1
  {
    if k == 0 then 1 else 2 * Pow2(k - 1)
  }

  /** The number of binary digits of n. */
  function BitLength(n: nat): nat {
    if n == 0 then 0 else 1 + BitLength(n / 2)
  }

  /** n rounded to 24 significant bits, to nearest, ties to even. */
  function RoundSignificand(n: nat): nat {
    var shift := if BitLength(n) > 24 then BitLength(n) - 24 else 0;
    RoundToMultiple(n, Pow2(shift))
  }

  /** n rounded to a multiple of unit, to nearest, ties to the even multiple. */
  function RoundToMultiple(n: nat, unit: nat): nat
    requires unit > 0
  {
    var q, rem := n / unit, n % unit;
    (if 2 * rem > unit || (2 * rem == unit && q % 2 == 1) then q + 1 else q) * unit
  }

  function Round(x: Single): Single {
    Single(RoundSignificand(x.num), x.exp)
  }

  /** x's numerator over 2^e. */
  function Scaled(x: Single, e: nat): nat
    requires x.exp <= e
  {
    x.num * Pow2(e - x.exp)
  }

  function Max(a: nat, b: nat): nat { if a < b then b else a }

  function Mul(a: Single, b: Single): Single {
    Round(Single(a.num * b.num, a.exp + b.exp))
  }

  function Add(a: Single, b: Single): Single {
    var e := Max(a.exp, b.exp);
    Round(Single(Scaled(a, e) + Scaled(b, e), e))
  }

  function Sub(a: Single, b: Single): Single
    requires Scaled(b, Max(a.exp, b.exp)) <= Scaled(a, Max(a.exp, b.exp))
  {
    var e := Max(a.exp, b.exp);
    Round(Single(Scaled(a, e) - Scaled(b, e), e))
  }

  /** An int converted to float. */
  function FromInt(n: nat): Single {
    Round(Single(n, 0))
  }

  /** A float converted to int (truncation toward zero), one halving per binary place. */
  function Truncate(x: Single): nat
    decreases x.exp
  {
    if x.exp == 0 then x.num else Truncate(Single(x.num / 2, x.exp - 1))
  }

  /** Truncation gives q when q <= x < q + 1. */
  lemma {:induction false} TruncateIs(x: Single, q: nat)
    requires q * Pow2(x.exp) <= x.num < (q + 1) * Pow2(x.exp)
    ensures Truncate(x) == q
    decreases x.exp
  {
    if x.exp > 0 {
      var p := Pow2(x.exp - 1);
      assert Pow2(x.exp) == 2 * p;
      HalveBounds(x.num, q, p);
      TruncateIs(Single(x.num / 2, x.exp - 1), q);
    }
  }

  /** q <= num / 2p < q + 1 gives q <= (num / 2) / p < q + 1. */
  lemma HalveBounds(num: nat, q: nat, p: nat)
    requires q * (2 * p) <= num < (q + 1) * (2 * p)
    ensures q * p <= num / 2 < (q + 1) * p
  {
    var qp := q * p;
    assert q * (2 * p) == 2 * qp;
    assert (q + 1) * (2 * p) == 2 * qp + 2 * p;
    assert (q + 1) * p == qp + p;
    assert num == 2 * (num / 2) + num % 2;
  }

  /** The float literal 0.5f. */
  const Half: Single := Single(1, 1)

  /**
   * The float literals 0.8f, 0.4f and 0.2f the ROI selector stores, for
   * percents 80, 40 and 20: each is the single-precision value nearest to
   * p / 100.
   */
  function PercentLiteral(p: int): Single
    requires p == 20 || p == 40 || p == 80
  {
    if p == 80 then Single(13421773, 24)
    else if p == 40 then Single(13421773, 25)
    else Single(13421773, 26)
  }

  /**
   * Each literal has a full 24-bit significand and lies within half a unit
   * in the last place of p / 100, so it is the float nearest to it.
   */
  lemma PercentLiteralNearest(p: int)
    requires p == 20 || p == 40 || p == 80
    ensures var f := PercentLiteral(p);
      && Pow2(23) <= f.num < Pow2(24)
      && -50 <= f.num * 100 - p * Pow2(f.exp) <= 50
  {
    Pow2Table();
  }

  /**
   * Powers of two up to 2^35, one doubling at a time. The loop keeps the
   * solver from unfolding Pow2 35 levels deep at every use.
   */
  lemma {:induction false} Pow2Table()
    ensures Pow2(7) == 128 && Pow2(10) == 1024 && Pow2(11) == 2048
    ensures Pow2(23) == 8388608 && Pow2(24) == 16777216 && Pow2(25) == 33554432 && Pow2(26) == 67108864
    ensures Pow2(30) == 1073741824 && Pow2(31) == 2147483648
    ensures Pow2(33) == 8589934592 && Pow2(34) == 17179869184 && Pow2(35) == 34359738368
  {
    var k, v := 0, 1;
    while k < 35
      invariant 0 <= k <= 35 && Pow2(k) == v
      invariant k >= 7 ==> Pow2(7) == 128
      invariant k >= 10 ==> Pow2(10) == 1024
      invariant k >= 11 ==> Pow2(11) == 2048
      invariant k >= 23 ==> Pow2(23) == 8388608
      invariant k >= 24 ==> Pow2(24) == 16777216
      invariant k >= 25 ==> Pow2(25) == 33554432
      invariant k >= 26 ==> Pow2(26) == 67108864
      invariant k >= 30 ==> Pow2(30) == 1073741824
      invariant k >= 31 ==> Pow2(31) == 2147483648
      invariant k >= 33 ==> Pow2(33) == 8589934592
      invariant k >= 34 ==> Pow2(34) == 17179869184
    {
      k, v := k + 1, 2 * v;
    }
  }

  /** n has exactly k binary digits when 2^(k-1) <= n < 2^k. */
  lemma {:induction false} BitLengthIs(n: nat, k: nat)
    requires 1 <= k && Pow2(k - 1) <= n < Pow2(k)
    ensures BitLength(n) == k
  {
    if k > 1 {
      BitLengthIs(n / 2, k - 1);
    }
  }

  /** n has at most k binary digits when n < 2^k. */
  lemma {:induction false} BitLengthAtMost(n: nat, k: nat)
    requires n < Pow2(k)
    ensures BitLength(n) <= k
  {
    if n > 0 {
      assert k > 0;
      BitLengthAtMost(n / 2, k - 1);
    }
  }

  /** Values of at most 24 significant bits are not changed by rounding. */
  lemma RoundExact(n: nat)
    requires n < Pow2(24)
    ensures RoundSignificand(n) == n
  {
    BitLengthAtMost(n, 24);
    assert Pow2(0) == 1;
    RoundToMultipleNear(n, 1);
  }

  /** The scaled ROI fraction 0.5f * p is exact and at most 0.5f. */
  lemma HalfPercent(p: int)
    requires p == 20 || p == 40 || p == 80
    ensures var f := PercentLiteral(p);
      && Mul(Half, f) == Single(f.num, f.exp + 1)
      && Scaled(Mul(Half, f), Max(Half.exp, Mul(Half, f).exp))
         <= Scaled(Half, Max(Half.exp, Mul(Half, f).exp))
  {
    var f := PercentLiteral(p);
    Pow2Table();
    RoundExact(f.num);
    assert Pow2(f.exp + 1 - 1) == Pow2(f.exp);
    PowMonotone(24, f.exp);
  }

  lemma {:induction false} PowMonotone(a: nat, b: nat)
    requires a <= b
    ensures Pow2(a) <= Pow2(b)
  {
    if a < b {
      PowMonotone(a, b - 1);
    }
  }

  /** The powers of two the 40% and 20% factors need beyond the table. */
  lemma Pow2Few()
    ensures Pow2(1) == 2 && Pow2(2) == 4 && Pow2(3) == 8
    ensures Pow2(25) == 33554432 && Pow2(26) == 67108864 && Pow2(27) == 134217728
  {
    Pow2Table();
    assert Pow2(27) == 2 * Pow2(26);
  }

  /** The lower corner's factor `0.5f - 0.5f * _roi_percent`. */
  function LoFactor(p: int): Single
    requires p == 20 || p == 40 || p == 80
  {
    HalfPercent(p);
    Sub(Half, Mul(Half, PercentLiteral(p)))
  }

  /** The upper corner's factor `0.5f + 0.5f * _roi_percent`. */
  function HiFactor(p: int): Single
    requires p == 20 || p == 40 || p == 80
  {
    Add(Half, Mul(Half, PercentLiteral(p)))
  }

  /** `int(n * f)`: the int n converted to float, multiplied by f and truncated. */
  function Corner(n: nat, f: Single): nat {
    Truncate(Mul(FromInt(n), f))
  }

  /**
   * The ROI the source computes for a w-by-h depth stream and ROI percent p.
   * For every stream size a float holds exactly, it lies inside the frame.
   */
  function RoiRectAsWritten(w: nat, h: nat, p: int): (r: Roi)
    requires p == 20 || p == 40 || p == 80
    ensures w < 0x100_0000 && h < 0x100_0000 ==>
              0 <= r.minX <= r.maxX <= w && 0 <= r.minY <= r.maxY <= h
  {
    CornersInFrame(w, p);
    CornersInFrame(h, p);
    Roi(Corner(w, LoFactor(p)), Corner(h, LoFactor(p)), Corner(w, HiFactor(p)), Corner(h, HiFactor(p)))
  }

  /** The two factors at 80%: 0.5f - 0.5f * 0.8f and 0.5f + 0.5f * 0.8f. */
  lemma FactorsAt80()
    ensures LoFactor(80) == Single(3355443, 25) && HiFactor(80) == Single(30198988, 25)
  {
    Pow2Table();
    HalfPercent(80);
    var half := Mul(Half, PercentLiteral(80));
    assert half == Single(13421773, 25);
    assert Scaled(Half, 25) == 16777216 && Scaled(half, 25) == 13421773;
    RoundExact(3355443);
    assert Sub(Half, half) == Round(Single(3355443, 25));
    RoundLong(30198989, 25, 2);
    assert Add(Half, half) == Round(Single(30198989, 25));
  }

  /** The two factors at 40%: 0.5f - 0.5f * 0.4f and 0.5f + 0.5f * 0.4f. */
  lemma FactorsAt40()
    ensures LoFactor(40) == Single(20132660, 26) && HiFactor(40) == Single(46976204, 26)
  {
    Pow2Few();
    HalfPercent(40);
    var half := Mul(Half, PercentLiteral(40));
    assert half == Single(13421773, 26);
    assert Scaled(Half, 26) == 33554432 && Scaled(half, 26) == 13421773;
    RoundLong(20132659, 25, 2);
    assert Sub(Half, half) == Round(Single(20132659, 26));
    RoundLong(46976205, 26, 4);
    assert Add(Half, half) == Round(Single(46976205, 26));
  }

  /** The two factors at 20%: 0.5f - 0.5f * 0.2f and 0.5f + 0.5f * 0.2f. */
  lemma FactorsAt20()
    ensures LoFactor(20) == Single(53687092, 27) && HiFactor(20) == Single(80530640, 27)
  {
    Pow2Few();
    HalfPercent(20);
    var half := Mul(Half, PercentLiteral(20));
    assert half == Single(13421773, 27);
    assert Scaled(Half, 27) == 67108864 && Scaled(half, 27) == 13421773;
    RoundLong(53687091, 26, 4);
    assert Sub(Half, half) == Round(Single(53687091, 27));
    RoundLong(80530637, 27, 8);
    assert Add(Half, half) == Round(Single(80530637, 27));
  }

  /** A value of k >= 1 binary digits lies in [2^(k-1), 2^k). */
  lemma {:induction false} BitLengthBounds(n: nat)
    requires n > 0
    ensures BitLength(n) >= 1 && Pow2(BitLength(n) - 1) <= n < Pow2(BitLength(n))
  {
    if n > 1 {
      BitLengthBounds(n / 2);
    }
  }

  lemma {:induction false} Pow2Add(a: nat, b: nat)
    ensures Pow2(a + b) == Pow2(a) * Pow2(b)
  {
    if b > 0 {
      Pow2Add(a, b - 1);
      assert Pow2(a + b) == 2 * Pow2(a + b - 1);
    }
  }

  /**
   * Rounding to 24 significant bits changes a value by less than one part in
   * 2^23, in either direction.
   */
  lemma RoundBounds(n: nat)
    ensures 8388608 * RoundSignificand(n) <= 8388609 * n
    ensures 8388607 * n <= 8388608 * RoundSignificand(n)
  {
    var k := BitLength(n);
    if k > 24 {
      BitLengthBounds(n);
      var u := Pow2(k - 24);
      Pow2Add(23, k - 24);
      Pow2Table();
      assert 8388608 * u <= n;
      RoundToMultipleNear(n, u);
    } else {
      assert Pow2(0) == 1;
      RoundToMultipleNear(n, 1);
    }
  }

  /** Rounding to a multiple of unit moves a value by less than unit down and at most unit up; a unit of 1 keeps it. */
  lemma RoundToMultipleNear(n: nat, unit: nat)
    requires unit > 0
    ensures n < RoundToMultiple(n, unit) + unit && RoundToMultiple(n, unit) <= n + unit
    ensures unit == 1 ==> RoundToMultiple(n, unit) == n
  {
    var q, rem := n / unit, n % unit;
    assert n == q * unit + rem && 0 <= rem < unit;
    assert (q + 1) * unit == q * unit + unit;
  }

  /** Converting a float to int divides by its scale, rounding down. */
  lemma TruncateDivides(x: Single)
    ensures Truncate(x) == x.num / Pow2(x.exp)
  {
    var d := Pow2(x.exp);
    DivBounds(x.num, d);
    TruncateIs(x, x.num / d);
  }

  lemma DivBounds(a: nat, d: nat)
    requires d > 0
    ensures 0 <= a / d && (a / d) * d <= a < (a / d + 1) * d
  {
    var q := a / d;
    assert a == q * d + a % d && 0 <= a % d < d;
    assert (q + 1) * d == q * d + d;
  }

  lemma MulMonotone(x: int, y: int, d: nat)
    requires x <= y
    ensures x * d <= y * d
  {
    assert y * d - x * d == (y - x) * d;
  }

  /** c * x <= k * y implies c * (n * x) <= k * (n * y). */
  lemma ScaledProducts(n: nat, x: nat, y: nat, c: nat, k: nat)
    requires c * x <= k * y
    ensures c * (n * x) <= k * (n * y)
  {
    assert c * (n * x) == (c * x) * n;
    assert k * (n * y) == (k * y) * n;
    MulMonotone(c * x, k * y, n);
  }

  /** a <= b implies a / d <= b / d. */
  lemma DivMonotone(a: nat, b: nat, d: nat)
    requires 0 < d && a <= b
    ensures a / d <= b / d
  {
    var qa, qb := a / d, b / d;
    assert a == qa * d + a % d && 0 <= a % d < d;
    assert b == qb * d + b % d && 0 <= b % d < d;
    assert (qb + 1) * d == qb * d + d;
    if qa > qb {
      MulMonotone(qb + 1, qa, d);
    }
  }

  /** b <= n * d implies b / d <= n. */
  lemma DivAtMost(b: nat, n: nat, d: nat)
    requires 0 < d && b <= n * d
    ensures b / d <= n
  {
    var q := b / d;
    assert b == q * d + b % d && 0 <= b % d;
    assert (n + 1) * d == n * d + d;
    if q > n {
      MulMonotone(n + 1, q, d);
    }
  }

  /**
   * For an int n a float holds exactly and factors l / 2^e <= h / 2^e that
   * are apart and below 1 by more than the rounding error, the truncated
   * products are ordered and at most n.
   */
  lemma CornerOrder(n: nat, l: nat, h: nat, e: nat)
    requires n < 0x100_0000
    requires 8388609 * l <= 8388607 * h && 8388609 * h <= 8388608 * Pow2(e)
    ensures Corner(n, Single(l, e)) <= Corner(n, Single(h, e)) <= n
  {
    var x, y := Mul(FromInt(n), Single(l, e)), Mul(FromInt(n), Single(h, e));
    ProductNear(n, l, e);
    ProductNear(n, h, e);
    ScaledProducts(n, l, h, 8388609, 8388607);
    ScaledProducts(n, h, Pow2(e), 8388609, 8388608);
    TruncateOrder(x, y, n);
  }

  /** The float product of an int n below 2^24 and f / 2^e is within one part in 2^23 of n * f / 2^e. */
  lemma ProductNear(n: nat, f: nat, e: nat)
    requires n < 0x100_0000
    ensures Mul(FromInt(n), Single(f, e)).exp == e
    ensures 8388608 * Mul(FromInt(n), Single(f, e)).num <= 8388609 * (n * f)
    ensures 8388607 * (n * f) <= 8388608 * Mul(FromInt(n), Single(f, e)).num
  {
    Pow2Table();
    RoundExact(n);
    assert FromInt(n) == Single(n, 0);
    RoundNear(Single(n * f, e));
  }

  /** Rounding a float changes its value by less than one part in 2^23. */
  lemma RoundNear(x: Single)
    ensures Round(x).exp == x.exp
    ensures 8388608 * Round(x).num <= 8388609 * x.num
    ensures 8388607 * x.num <= 8388608 * Round(x).num
  {
    RoundBounds(x.num);
  }

  /** Truncation is monotone, and a value of at most n truncates to at most n. */
  lemma TruncateOrder(x: Single, y: Single, n: nat)
    requires x.exp == y.exp && x.num <= y.num <= n * Pow2(y.exp)
    ensures Truncate(x) <= Truncate(y) <= n
  {
    TruncateDivides(x);
    TruncateDivides(y);
    DivMonotone(x.num, y.num, Pow2(x.exp));
    DivAtMost(y.num, n, Pow2(y.exp));
  }

  /** For every stream size a float holds exactly, the source's corners are ordered and inside [0, n]. */
  lemma CornersInFrame(n: nat, p: int)
    requires p == 20 || p == 40 || p == 80
    ensures n < 0x100_0000 ==> Corner(n, LoFactor(p)) <= Corner(n, HiFactor(p)) <= n
  {
    if n < 0x100_0000 {
      Pow2Few();
      if p == 80 {
        FactorsAt80();
        CornerOrder(n, 3355443, 30198988, 25);
      } else if p == 40 {
        FactorsAt40();
        CornerOrder(n, 20132660, 46976204, 26);
      } else {
        FactorsAt20();
        CornerOrder(n, 53687092, 80530640, 27);
      }
    }
  }

  /** Rounding a value of k > 24 binary digits keeps its top 24 bits, rounded to nearest even. */
  lemma RoundLong(x: nat, k: nat, unit: nat)
    requires 25 <= k && Pow2(k - 1) <= x < Pow2(k) && unit == Pow2(k - 24)
    ensures RoundSignificand(x) == RoundToMultiple(x, unit)
  {
    BitLengthIs(x, k);
  }

  /** The float product of an int n below 2^24 and a factor f / 2^e. */
  lemma ProductAt(n: nat, f: nat, e: nat)
    requires n < Pow2(24)
    ensures Mul(FromInt(n), Single(f, e)) == Single(RoundSignificand(n * f), e)
  {
    RoundExact(n);
  }

  // The 640x480 lemmas below take the sizes as parameters fixed by their
  // `requires` rather than as literals: with literal arguments the solver
  // evaluates the float chain eagerly, which costs far more.

  /**
   * At 80% the single-precision factor 0.5f - 0.5f * 0.8f is slightly below
   * 0.1, so on a 640x480 stream the ROI starts at (63, 47) rather than at
   * (64, 48) = (w / 10, h / 10), where the exact rectangle starts.
   */
  lemma AsWrittenRoiAt640x480(w: nat, h: nat)
    requires w == 640 && h == 480
    ensures RoiRectAsWritten(w, h, 80) == Roi(63, 47, 576, 432)
    ensures RoiRect(w, h, 80) == Roi(64, 48, 576, 432)
  {
    RoiAsWrittenAt640x480(w, h);
    ExactRoiAt640x480(w, h);
  }

  /** The exact ROI at 80% on a 640x480 stream. */
  lemma ExactRoiAt640x480(w: nat, h: nat)
    requires w == 640 && h == 480
    ensures RoiRect(w, h, 80) == Roi(64, 48, 576, 432)
  {
    RoiAtEightyPercent(w, h);
    assert w / 10 == 64 && h / 10 == 48 && 9 * w / 10 == 576 && 9 * h / 10 == 432;
  }

  /** The source's ROI at 80% on a 640x480 stream. */
  lemma RoiAsWrittenAt640x480(w: nat, h: nat)
    requires w == 640 && h == 480
    ensures RoiRectAsWritten(w, h, 80) == Roi(63, 47, 576, 432)
  {
    FactorsAt80();
    CornersAt80(w, h);
  }

  /**
   * int(n * f / 2^e) == c, for an int n a float holds exactly whose product
   * n * f has k > 24 binary digits and rounds to a value in [c * 2^e, (c + 1) * 2^e).
   */
  lemma CornerValue(n: nat, f: nat, e: nat, k: nat, unit: nat, c: nat)
    requires n < 0x100_0000
    requires 25 <= k && Pow2(k - 1) <= n * f < Pow2(k) && unit == Pow2(k - 24)
    requires c * Pow2(e) <= RoundToMultiple(n * f, unit) < (c + 1) * Pow2(e)
    ensures Corner(n, Single(f, e)) == c
  {
    Pow2Table();
    ProductAt(n, f, e);
    RoundLong(n * f, k, unit);
    TruncateIs(Single(RoundSignificand(n * f), e), c);
  }

  /** The four truncated float products at 80% on a 640x480 stream. */
  lemma CornersAt80(w: nat, h: nat)
    requires w == 640 && h == 480
    ensures Corner(w, Single(3355443, 25)) == 63 && Corner(h, Single(3355443, 25)) == 47
    ensures Corner(w, Single(30198988, 25)) == 576 && Corner(h, Single(30198988, 25)) == 432
  {
    Pow2Table();
    CornerValue(w, 3355443, 25, 31, 128, 63);
    CornerValue(h, 3355443, 25, 31, 128, 47);
    CornerValue(w, 30198988, 25, 35, 2048, 576);
    CornerValue(h, 30198988, 25, 34, 1024, 432);
  }
}
