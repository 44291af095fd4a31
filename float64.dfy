/** The few IEEE-754 binary64 facts the feature connector relies on,
    computed on the bit pattern with exact integer arithmetic: the sign
    test `v < 0`, the double that holds a whole number, and the C++
    conversion of a double to quint32. */
module Float64 {
  import opened Bytes

  function Pow2(n: nat): (r: nat)
    ensures r >= 1
  {
    if n == 0 then 1 else 2 * Pow2(n - 1)
  }

  lemma {:induction false} Pow2Add(a: nat, b: nat)
    ensures Pow2(a + b) == Pow2(a) * Pow2(b)
  {
    if a > 0 {
      Pow2Add(a - 1, b);
    }
  }

  lemma {:induction false} Pow2Monotonic(a: nat, b: nat)
    requires a <= b
    ensures Pow2(a) <= Pow2(b)
  {
    if a < b {
      Pow2Monotonic(a, b - 1);
    }
  }

  const TwoTo52: nat := 0x10_0000_0000_0000
  const TwoTo53: nat := 0x20_0000_0000_0000
  const TwoTo63: nat := 0x8000_0000_0000_0000

  lemma Pow2Of32()
    ensures Pow2(32) == U32Limit
  {
    assert Pow2(8) == 256;
    Pow2Add(8, 8);
    Pow2Add(16, 16);
  }

  lemma Pow2Of52()
    ensures Pow2(52) == TwoTo52 && Pow2(53) == TwoTo53
  {
    Pow2Of32();
    Pow2Add(8, 8);
    Pow2Add(32, 16);
    Pow2Add(48, 4);
    Pow2Add(52, 1);
  }

  lemma Pow2Of64()
    ensures Pow2(64) == Pow256(8)
  {
    Pow2Of32();
    Pow2Add(32, 32);
    assert Pow256(8) == 0x1_0000_0000_0000_0000;
  }

  /** The 64-bit pattern of a double. */
  function Bits(d: Double): (b: nat)
    ensures b < Pow2(64)
  {
    Pow2Of64();
    FromLittleEndian(d)
  }

  function SignBit(d: Double): bool {
    Bits(d) >= TwoTo63
  }

  function BiasedExponent(d: Double): (e: nat)
    ensures e < 2048
  {
    (Bits(d) / 0x10_0000_0000_0000) % 2048
  }

  function Fraction(d: Double): (f: nat)
    ensures f < TwoTo52
  {
    Bits(d) % 0x10_0000_0000_0000
  }

  predicate IsNaN(d: Double) {
    BiasedExponent(d) == 2047 && Fraction(d) != 0
  }

  predicate IsZero(d: Double) {
    BiasedExponent(d) == 0 && Fraction(d) == 0
  }

  /** The C++ comparison `v < 0`: false for NaN and for both zeros. */
  predicate IsNegative(d: Double) {
    SignBit(d) && !IsNaN(d) && !IsZero(d)
  }

  /** A 64-bit pattern splits into its exponent-and-sign part and its
      52-bit fraction. */
  lemma SplitFields(q: nat, r: nat)
    requires q < 2048 && r < 0x10_0000_0000_0000
    ensures ((q * 0x10_0000_0000_0000 + r) / 0x10_0000_0000_0000) % 2048 == q
    ensures (q * 0x10_0000_0000_0000 + r) % 0x10_0000_0000_0000 == r
  {
    assert (q * 0x10_0000_0000_0000 + r) / 0x10_0000_0000_0000 == q;
  }

  // ---- shifts: multiplying and dividing by powers of two ----

  /** x * 2^n, by doubling n times. */
  function ShiftLeft(x: nat, n: nat): nat {
    if n == 0 then x else 2 * ShiftLeft(x, n - 1)
  }

  /** x / 2^n rounded down, by halving n times. */
  function ShiftRight(x: nat, n: nat): nat {
    if n == 0 then x else ShiftRight(x / 2, n - 1)
  }

  lemma {:induction false} ShiftLeftAdd(x: nat, y: nat, n: nat)
    ensures ShiftLeft(x + y, n) == ShiftLeft(x, n) + ShiftLeft(y, n)
  {
    if n > 0 {
      ShiftLeftAdd(x, y, n - 1);
    }
  }

  lemma {:induction false} ShiftLeftPow2(e: nat, n: nat)
    ensures ShiftLeft(Pow2(e), n) == Pow2(e + n)
  {
    if n > 0 {
      ShiftLeftPow2(e, n - 1);
    }
  }

  lemma {:induction false} ShiftLeftStrict(a: nat, b: nat, n: nat)
    requires a < b
    ensures ShiftLeft(a, n) < ShiftLeft(b, n)
  {
    if n > 0 {
      ShiftLeftStrict(a, b, n - 1);
    }
  }

  /** Shifting right undoes shifting left. */
  lemma {:induction false} ShiftRightOfShiftLeft(x: nat, n: nat)
    ensures ShiftRight(ShiftLeft(x, n), n) == x
  {
    if n > 0 {
      assert ShiftLeft(x, n) / 2 == ShiftLeft(x, n - 1);
      ShiftRightOfShiftLeft(x, n - 1);
    }
  }

  lemma {:induction false} ShiftRightBound(x: nat, m: nat, n: nat)
    requires x < Pow2(m + n)
    ensures ShiftRight(x, n) < Pow2(m)
  {
    if n > 0 {
      assert Pow2(m + n) == 2 * Pow2(m + (n - 1));
      ShiftRightBound(x / 2, m, n - 1);
    }
  }

  // ---- whole numbers as doubles ----

  /** Normalisation of the significand of a whole number: m is doubled
      and the exponent e lowered until the leading one of m reaches bit
      52. Started from (k, 52) with k >= 1 the leading one arrives before
      e reaches 0; e == 0 only bounds the recursion. */
  function Normalize(m: nat, e: nat): (r: (nat, nat))
    requires 1 <= m < TwoTo53
    ensures 1 <= r.0 < TwoTo53 && r.1 <= e
    decreases e
  {
    if m >= TwoTo52 || e == 0 then (m, e) else Normalize(2 * m, e - 1)
  }

  /** The bit pattern of the double equal to the whole number k: biased
      exponent 1023 + e and the 52 bits of the significand below its
      leading one. */
  function WholeBits(k: nat): (b: nat)
    requires k < TwoTo53
    ensures b < TwoTo63
  {
    if k == 0 then 0
    else (1023 + Normalize(k, 52).1) * TwoTo52 + Normalize(k, 52).0 % TwoTo52
  }

  /** The bit pattern of 2^53: exponent 53, fraction zero. */
  const TwoTo53Bits: nat := (1023 + 53) * 0x10_0000_0000_0000

  /** The C++ counter `double raw` after starting at 1 and being
      incremented k - 1 times: the double equal to k while k is below
      2^53, and 2^53 from then on, since 2^53 + 1 rounds back to 2^53
      (round half to even). */
  function FromNat(k: nat): Double {
    if k < TwoTo53 then LittleEndian(WholeBits(k), 8) else LittleEndian(TwoTo53Bits, 8)
  }

  /** FromNat(k) holds the bit pattern of k. */
  lemma BitsOfFromNat(k: nat)
    requires k < TwoTo53
    ensures Bits(FromNat(k)) == WholeBits(k)
  {
    Pow2Of64();
    FromLittleEndianOfLittleEndian(WholeBits(k), 8);
  }

  /** Normalising k shifted left by 52 - e gives k shifted left until its
      leading one sits at bit 52. */
  lemma {:induction false} NormalizeShifts(k: nat, m: nat, e: nat)
    requires 1 <= k && e <= 52 && m == ShiftLeft(k, 52 - e) && 1 <= m < TwoTo53
    ensures Normalize(m, e).0 == ShiftLeft(k, 52 - Normalize(m, e).1)
    ensures Normalize(m, e).0 >= TwoTo52
    decreases e
  {
    if m < TwoTo52 {
      if e == 0 {
        ShiftLeftAdd(1, k - 1, 52);
        ShiftLeftPow2(0, 52);
        Pow2Of52();
      } else {
        NormalizeShifts(k, 2 * m, e - 1);
      }
    }
  }

  // ---- the conversion to quint32 ----

  /** The C++ conversion `quint32 id = v`: truncation toward zero.
      Where C++ leaves the conversion undefined (NaN, infinities, values
      at or below -1 or at or above 2^32) the model yields 0. */
  function TruncToUInt32(d: Double): (r: nat)
    ensures r < U32Limit
  {
    var e := BiasedExponent(d);
    if e == 2047 || e < 1023 || SignBit(d) || e > 1023 + 31 then 0
    else TruncNormal(e - 1023, Fraction(d))
  }

  /** The whole part of the normal double 1.f * 2^s, for s <= 31. */
  function TruncNormal(s: nat, f: nat): (r: nat)
    requires s <= 31 && f < TwoTo52
    ensures r < U32Limit
  {
    Pow2Of52();
    ShiftRightBound(TwoTo52 + f, s + 1, 52 - s);
    Pow2Monotonic(s + 1, 32);
    Pow2Of32();
    ShiftRight(TwoTo52 + f, 52 - s)
  }

  /** The fields of the double holding a whole number k >= 1. */
  lemma FieldsOfWhole(k: nat)
    requires 1 <= k < TwoTo53
    ensures !SignBit(FromNat(k))
    ensures BiasedExponent(FromNat(k)) == 1023 + Normalize(k, 52).1
    ensures Fraction(FromNat(k)) == Normalize(k, 52).0 % TwoTo52
  {
    BitsOfFromNat(k);
    SplitFields(1023 + Normalize(k, 52).1, Normalize(k, 52).0 % TwoTo52);
  }

  /** Below 2^32 the exponent of k is at most 31, and truncating the
      normal double built for k gives k back. */
  lemma TruncNormalOfWhole(k: nat)
    requires 1 <= k < U32Limit
    ensures Normalize(k, 52).1 <= 31
    ensures TruncNormal(Normalize(k, 52).1, Normalize(k, 52).0 % TwoTo52) == k
  {
    var (m, e) := Normalize(k, 52);
    NormalizeShifts(k, k, 52);
    Pow2Of32();
    Pow2Of52();
    if e >= 32 {
      ShiftLeftStrict(k, Pow2(32), 52 - e);
      ShiftLeftPow2(32, 52 - e);
      Pow2Monotonic(32 + (52 - e), 52);
    }
    assert TwoTo52 + m % TwoTo52 == m;
    ShiftRightOfShiftLeft(k, 52 - e);
  }

  /** A whole number below 2^32 stored as a double converts back to
      itself: the raw identifiers the polygon writer stores come back as
      the same item identifiers. */
  lemma TruncOfFromNat(k: nat)
    requires k < U32Limit
    ensures TruncToUInt32(FromNat(k)) == k
  {
    if k == 0 {
      TruncOfZero();
    } else {
      FieldsOfWhole(k);
      TruncNormalOfWhole(k);
      TruncOfNormal(FromNat(k), Normalize(k, 52).1);
    }
  }

  lemma TruncOfZero()
    ensures TruncToUInt32(FromNat(0)) == 0
  {
    BitsOfFromNat(0);
  }

  /** A positive double with unbiased exponent s <= 31 truncates to the
      whole part of 1.f * 2^s. */
  lemma TruncOfNormal(d: Double, s: nat)
    requires !SignBit(d) && BiasedExponent(d) == 1023 + s && s <= 31
    ensures TruncToUInt32(d) == TruncNormal(s, Fraction(d))
  {
  }
}
