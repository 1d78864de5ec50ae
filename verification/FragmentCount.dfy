/**
 How many fragments a length needs. The code divides in single precision: both operands are converted, the
 quotient is rounded to 24 significant bits, ties to even (section 4.3.1 of IEEE 754-2019), and then rounded up.
 */
module FragmentCount {
  import opened MessageHeader

  const SIGNIFICAND := 0x100_0000  // 2^24: every smaller integer has an exact single-precision value
  const HALF := 0x80_0000          // 2^23: a normalized significand is at least this

  function RoundTiesToEven(num: nat, den: nat): nat
    requires den > 0
  {
    var q, twice := num / den, 2 * (num % den);
    if twice < den || (twice == den && q % 2 == 0) then q else q + 1
  }

  lemma RoundsToNearest(num: nat, den: nat)
    requires den > 0
    ensures var error := num - RoundTiesToEven(num, den) * den;
            && 2 * error <= den
            && 0 <= 2 * error + den
            && (2 * error == den || 2 * error + den == 0 ==> RoundTiesToEven(num, den) % 2 == 0)
  {
    var q := num / den;
    DivisionAlgorithm(num, den);
    assert (q + 1) * den == q * den + den;
  }

  /** An integer converted to single precision, as a multiple of `unit`. */
  function IntToFloat(v: nat, unit: nat): nat
    requires unit > 0
    decreases v - SIGNIFICAND * unit
  {
    if v < SIGNIFICAND * unit then RoundTiesToEven(v, unit) * unit else IntToFloat(v, 2 * unit)
  }

  /** A single-precision value, as a fraction. */
  datatype Float = Float(num: nat, den: nat)

  /** num/den in single precision: scaled until the significand has 24 bits, rounded, scaled back. */
  function Quotient(num: nat, den: nat): (f: Float)
    requires den > 0
    ensures f.den > 0
    decreases if num < HALF * den then HALF * den - num
              else if num >= SIGNIFICAND * den then num - SIGNIFICAND * den + 1 else 0
  {
    if num == 0 then
      Float(0, 1)
    else if num < HALF * den then
      var f := Quotient(2 * num, den);
      Float(f.num, 2 * f.den)
    else if num >= SIGNIFICAND * den then
      var f := Quotient(num, 2 * den);
      Float(2 * f.num, f.den)
    else
      Float(RoundTiesToEven(num, den), 1)
  }

  ghost predicate IsPowerOfTwo(p: nat)
    decreases p
  {
    p == 1 || (p > 1 && p % 2 == 0 && IsPowerOfTwo(p / 2))
  }

  lemma DoublePower(p: nat)
    requires IsPowerOfTwo(p)
    ensures IsPowerOfTwo(2 * p)
  {
    assert 2 * p / 2 == p;
  }

  /** `n` in units of up/down is num/den to 24 bits: normalized, at most half a unit off, and even on a tie. */
  ghost predicate IsNearest(num: nat, den: nat, n: nat, up: nat, down: nat) {
    var error := num * down - n * up * den;
    && HALF <= n <= SIGNIFICAND
    && 2 * error <= up * den && 0 <= 2 * error + up * den
    && (2 * error == up * den || 2 * error + up * den == 0 ==> n % 2 == 0)
  }

  /** The quotient is the nearest single-precision value, ties to even (section 4.3.1 of IEEE 754-2019). */
  lemma {:induction false} QuotientIsNearest(num: nat, den: nat) returns (n: nat, up: nat, down: nat)
    requires 0 < num && 0 < den
    ensures IsPowerOfTwo(up) && IsPowerOfTwo(down)
    ensures Quotient(num, den) == Float(n * up, down) && IsNearest(num, den, n, up, down)
    decreases if num < HALF * den then HALF * den - num
              else if num >= SIGNIFICAND * den then num - SIGNIFICAND * den + 1 else 0
  {
    if num < HALF * den {
      var half: nat;
      n, up, half := QuotientIsNearest(2 * num, den);
      down := 2 * half;
      DoublePower(half);
      Reassociate(num, half);
    } else if num >= SIGNIFICAND * den {
      var half: nat;
      n, half, down := QuotientIsNearest(num, 2 * den);
      up := 2 * half;
      DoublePower(half);
      Reassociate(half, den);
      Reassociate(n * half, den);
      Reassociate(n, half);
      assert n * up * den == n * half * (2 * den);
    } else {
      n, up, down := RoundTiesToEven(num, den), 1, 1;
      RoundsToNearest(num, den);
      NormalizedRounding(num, den);
    }
  }

  lemma NormalizedRounding(num: nat, den: nat)
    requires den > 0 && HALF * den <= num < SIGNIFICAND * den
    ensures HALF <= RoundTiesToEven(num, den) <= SIGNIFICAND
  {
    RoundsToAtMost(num, den, SIGNIFICAND);
    DivisionAlgorithm(num, den);
    var q := num / den;
    if q < HALF {
      MultipleBelow(q, HALF, den);
    }
  }

  /** A length is converted to the nearest single-precision value in the same sense. */
  lemma {:induction false} ConversionIsNearest(v: nat, unit: nat) returns (n: nat, u: nat)
    requires IsPowerOfTwo(unit) && (unit == 1 || HALF * unit <= v)
    ensures IsPowerOfTwo(u) && IntToFloat(v, unit) == n * u && n <= SIGNIFICAND
    ensures u == 1 || HALF <= n
    ensures var error := v - n * u;
            2 * error <= u && 0 <= 2 * error + u && (2 * error == u || 2 * error + u == 0 ==> n % 2 == 0)
    decreases v - SIGNIFICAND * unit
  {
    if v < SIGNIFICAND * unit {
      n, u := RoundTiesToEven(v, unit), unit;
      RoundsToNearest(v, unit);
      RoundsToAtMost(v, unit, SIGNIFICAND);
      if unit > 1 {
        NormalizedRounding(v, unit);
      }
    } else {
      DoublePower(unit);
      n, u := ConversionIsNearest(v, 2 * unit);
    }
  }

  function Ceiling(num: nat, den: nat): (c: nat)
    requires den > 0
  {
    (num + den - 1) / den
  }

  lemma CeilingIs(num: nat, den: nat, c: nat)
    requires den > 0 && c > 0
    requires (c - 1) * den < num <= c * den
    ensures Ceiling(num, den) == c
  {
    var k := num + den - 1 - c * den;
    assert 0 <= k < den;
    assert num + den - 1 == c * den + k;
    DivisionIs(num + den - 1, den, c, k);
  }

  lemma DivisionIs(v: nat, d: nat, q: nat, r: nat)
    requires v == q * d + r && r < d
    ensures v / d == q
  {
    var q' := v / d;
    DivisionAlgorithm(v, d);
    if q' < q {
      MultipleBelow(q', q, d);
    } else if q < q' {
      MultipleBelow(q, q', d);
    }
  }

  lemma DivisionAlgorithm(v: nat, d: nat)
    requires d > 0
    ensures v == v / d * d + v % d
  {
  }

  lemma {:induction false} MultipleBelow(a: nat, b: nat, d: nat)
    requires a < b
    ensures a * d + d <= b * d
    decreases b
  {
    assert b * d == (b - 1) * d + d;
    if a < b - 1 {
      MultipleBelow(a, b - 1, d);
    }
  }

  /** FragmentsForLength of the transmitter. */
  function FragmentsForLength(length: nat, suggestedSize: nat): (n: nat)
    ensures suggestedSize <= HEADER_SIZE ==> n == 1
  {
    if suggestedSize >= HEADER_SIZE + 1 then
      var divisor := IntToFloat(suggestedSize - HEADER_SIZE, 1);
      assert divisor > 0 by { PositiveStaysPositive(suggestedSize - HEADER_SIZE, 1); }
      var f := Quotient(IntToFloat(length, 1), divisor);
      Ceiling(f.num, f.den)
    else
      1
  }

  lemma {:induction false} PositiveStaysPositive(v: nat, unit: nat)
    requires v >= unit > 0
    ensures IntToFloat(v, unit) > 0
    decreases v - SIGNIFICAND * unit
  {
    if v < SIGNIFICAND * unit {
      var r := RoundTiesToEven(v, unit);
      assert v / unit >= 1;
      assert r >= 1;
      assert r * unit > 0;
    } else {
      PositiveStaysPositive(v, 2 * unit);
    }
  }

  /** Conversion keeps the order of two lengths. */
  lemma {:induction false} IntToFloatIsMonotone(v: nat, w: nat, unit: nat)
    requires 0 < unit && v <= w
    ensures IntToFloat(v, unit) <= IntToFloat(w, unit)
    decreases w - SIGNIFICAND * unit
  {
    if w < SIGNIFICAND * unit {
      RoundingIsMonotone(v, w, unit);
    } else if v < SIGNIFICAND * unit {
      RoundsToAtMost(v, unit, SIGNIFICAND);
      MultipleAtMost(RoundTiesToEven(v, unit), SIGNIFICAND, unit);
      ConvertsToAtLeast(w, unit);
    } else {
      IntToFloatIsMonotone(v, w, 2 * unit);
    }
  }

  lemma MultipleAtMost(a: nat, b: nat, d: nat)
    requires a <= b
    ensures a * d <= b * d
  {
    if a < b {
      MultipleBelow(a, b, d);
    }
  }

  lemma RoundingIsMonotone(v: nat, w: nat, unit: nat)
    requires 0 < unit && v <= w
    ensures RoundTiesToEven(v, unit) * unit <= RoundTiesToEven(w, unit) * unit
  {
    var a, b := RoundTiesToEven(v, unit), RoundTiesToEven(w, unit);
    if b < a {
      // neighbouring results in the wrong order would make both ties, hence v == w
      RoundsToNearest(v, unit);
      RoundsToNearest(w, unit);
      MultipleBelow(b, a, unit);
    } else {
      MultipleAtMost(a, b, unit);
    }
  }

  lemma {:induction false} ConvertsToAtLeast(w: nat, unit: nat)
    requires 0 < unit && SIGNIFICAND * unit <= w
    ensures SIGNIFICAND * unit <= IntToFloat(w, unit)
    decreases w - SIGNIFICAND * unit
  {
    if w < SIGNIFICAND * (2 * unit) {
      var r := RoundTiesToEven(w, 2 * unit);
      RoundsToNearest(w, 2 * unit);
      DivisionAlgorithm(w, 2 * unit);
      if r < HALF {
        MultipleBelow(r, HALF, 2 * unit);
      }
      MultipleAtMost(HALF, r, 2 * unit);
      assert HALF * (2 * unit) == SIGNIFICAND * unit;
    } else {
      ConvertsToAtLeast(w, 2 * unit);
    }
  }

  /** A message that fits is one fragment, however long it is. */
  lemma FittingMessageIsOneFragment(length: nat, suggestedSize: nat)
    requires HEADER_SIZE < suggestedSize
    requires 0 < length <= suggestedSize - HEADER_SIZE
    ensures FragmentsForLength(length, suggestedSize) == 1
  {
    var d := suggestedSize - HEADER_SIZE;
    IntToFloatIsMonotone(length, d, 1);
    PositiveStaysPositive(length, 1);
    PositiveStaysPositive(d, 1);
    var a, b := IntToFloat(length, 1), IntToFloat(d, 1);
    var f := Quotient(a, b);
    QuotientAtMost(a, b, 1);
    QuotientIsPositive(a, b);
    CeilingIs(f.num, f.den, 1);
  }

  lemma {:induction false} QuotientIsPositive(num: nat, den: nat)
    requires 0 < num && 0 < den
    ensures Quotient(num, den).num > 0
    decreases if num < HALF * den then HALF * den - num
              else if num >= SIGNIFICAND * den then num - SIGNIFICAND * den + 1 else 0
  {
    if num < HALF * den {
      QuotientIsPositive(2 * num, den);
    } else if num >= SIGNIFICAND * den {
      QuotientIsPositive(num, 2 * den);
    } else {
      DivisionAlgorithm(num, den);
      RoundsToNearest(num, den);
    }
  }

  /** The count is the least integer that is not below the quotient of the converted length and divisor. */
  lemma CountIsLeast(length: nat, suggestedSize: nat)
    requires 0 < length && HEADER_SIZE < suggestedSize
    ensures IntToFloat(suggestedSize - HEADER_SIZE, 1) > 0
    ensures var f := Quotient(IntToFloat(length, 1), IntToFloat(suggestedSize - HEADER_SIZE, 1));
            var n := FragmentsForLength(length, suggestedSize);
            (n - 1) * f.den < f.num <= n * f.den
  {
    hide IntToFloat, Quotient;
    PositiveStaysPositive(length, 1);
    PositiveStaysPositive(suggestedSize - HEADER_SIZE, 1);
    var v, d := IntToFloat(length, 1), IntToFloat(suggestedSize - HEADER_SIZE, 1);
    QuotientIsPositive(v, d);
    var f := Quotient(v, d);
    var n := EnclosingMultiple(f.num, f.den);
    CeilingIs(f.num, f.den, n + 1);
  }

  /** No message that has bytes is counted as none. */
  lemma CountIsPositive(length: nat, suggestedSize: nat)
    requires length > 0
    ensures FragmentsForLength(length, suggestedSize) > 0
  {
    if suggestedSize > HEADER_SIZE {
      var d := suggestedSize - HEADER_SIZE;
      PositiveStaysPositive(length, 1);
      PositiveStaysPositive(d, 1);
      QuotientIsPositive(IntToFloat(length, 1), IntToFloat(d, 1));
      var f := Quotient(IntToFloat(length, 1), IntToFloat(d, 1));
      var n := EnclosingMultiple(f.num, f.den);
      CeilingIs(f.num, f.den, n + 1);
    }
  }

  lemma SmallIntegersAreExact(v: nat)
    requires v <= SIGNIFICAND
    ensures IntToFloat(v, 1) == v
  {
    if v == SIGNIFICAND {
      assert IntToFloat(v, 2) == RoundTiesToEven(v, 2) * 2 == v;
    }
  }

  lemma Reassociate(a: nat, b: nat)
    ensures (2 * a) * b == 2 * (a * b) == a * (2 * b)
  {
  }

  /** Rounding never passes an integer bound from below. */
  lemma {:induction false} QuotientAtMost(num: nat, den: nat, m: nat)
    requires den > 0 && num < SIGNIFICAND * den && num <= m * den
    ensures var f := Quotient(num, den); f.num <= m * f.den
    decreases HALF * den - num
  {
    if 0 < num < HALF * den {
      QuotientAtMost(2 * num, den, 2 * m);
      Reassociate(m, Quotient(2 * num, den).den);
    } else if num > 0 {
      RoundsToAtMost(num, den, m);
    }
  }

  lemma RoundsToAtMost(num: nat, den: nat, m: nat)
    requires den > 0 && num <= m * den
    ensures RoundTiesToEven(num, den) <= m
  {
    var q := num / den;
    DivisionAlgorithm(num, den);
    if q > m {
      MultipleBelow(m, q, den);
    } else if q == m {
      assert num % den == 0;
    }
  }

  /**
   Rounding does not fall back to an integer below: `gap` is the scale reached so far, and the quotient lies
   above n by at least gap/den while it stays under 24 bits of scaled integers.
   */
  lemma {:induction false} QuotientAbove(num: nat, den: nat, n: nat, gap: nat)
    requires den > 0 && num < SIGNIFICAND * den
    requires 0 < gap && num <= gap * SIGNIFICAND && n * den + gap <= num
    ensures var f := Quotient(num, den); n * f.den < f.num
    decreases HALF * den - num
  {
    hide RoundTiesToEven;
    if num < HALF * den {
      Reassociate(n, den);
      QuotientAbove(2 * num, den, 2 * n, 2 * gap);
      Reassociate(n, Quotient(2 * num, den).den);
    } else {
      assert HALF * den <= gap * SIGNIFICAND;
      assert den <= 2 * gap;
      RoundsAbove(num, den, n, gap);
    }
  }

  lemma RoundsAbove(num: nat, den: nat, n: nat, gap: nat)
    requires 0 < den <= 2 * gap && n * den + gap <= num
    requires HALF * den <= num <= gap * SIGNIFICAND
    ensures n < RoundTiesToEven(num, den)
  {
    var q, r := num / den, num % den;
    DivisionAlgorithm(num, den);
    if q < n {
      MultipleBelow(q, n, den);
    } else if q == n {
      assert r >= gap;
      if 2 * r == den {
        // a tie: then num is exactly 2^23 times den and there is no remainder
        assert den == 2 * gap;
        assert num == HALF * den;
        DivisionIs(num, den, HALF, 0);
      }
    }
  }

  /** A quotient strictly between two neighbouring integers, or at the upper one, rounds up to that one. */
  lemma QuotientRoundsUpTo(length: nat, d: nat, n: nat)
    requires length <= SIGNIFICAND && length < SIGNIFICAND * d
    requires n * d < length <= (n + 1) * d
    ensures Ceiling(Quotient(length, d).num, Quotient(length, d).den) == n + 1
  {
    hide Quotient;
    hide Ceiling;
    var f := Quotient(length, d);
    QuotientAbove(length, d, n, 1);
    QuotientAtMost(length, d, n + 1);
    CeilingIs(f.num, f.den, n + 1);
  }

  /** Within 24 bits the count is the exact ceiling. */
  lemma CountIsCeiling(length: nat, suggestedSize: nat)
    requires length <= SIGNIFICAND
    requires HEADER_SIZE < suggestedSize <= SIGNIFICAND + HEADER_SIZE
    ensures FragmentsForLength(length, suggestedSize) == Ceiling(length, suggestedSize - HEADER_SIZE)
  {
    var d := suggestedSize - HEADER_SIZE;
    SmallIntegersAreExact(length);
    SmallIntegersAreExact(d);
    if length == SIGNIFICAND && d == 1 {
      assert Quotient(length, 2) == Float(HALF, 1);
    } else if length > 0 {
      CountIsCeilingBelow(length, suggestedSize);
    }
  }

  lemma CountIsCeilingBelow(length: nat, suggestedSize: nat)
    requires HEADER_SIZE < suggestedSize <= SIGNIFICAND + HEADER_SIZE
    requires 0 < length <= SIGNIFICAND && length < SIGNIFICAND * (suggestedSize - HEADER_SIZE)
    ensures FragmentsForLength(length, suggestedSize) == Ceiling(length, suggestedSize - HEADER_SIZE)
  {
    hide IntToFloat, Quotient, Ceiling;
    var d := suggestedSize - HEADER_SIZE;
    SmallIntegersAreExact(length);
    SmallIntegersAreExact(d);
    var n := EnclosingMultiple(length, d);
    QuotientRoundsUpTo(length, d, n);
    CeilingIs(length, d, n + 1);
  }

  lemma EnclosingMultiple(v: nat, d: nat) returns (n: nat)
    requires 0 < v && 0 < d
    ensures n * d < v <= (n + 1) * d
  {
    n := (v - 1) / d;
    DivisionAlgorithm(v - 1, d);
    assert (n + 1) * d == n * d + d;
  }

  /** Every length up to `bound` is counted exactly, whatever the fragment size (up to 24 bits). */
  ghost predicate ExactUpTo(bound: nat) {
    forall length, suggestedSize |
      0 <= length <= bound && HEADER_SIZE < suggestedSize <= SIGNIFICAND + HEADER_SIZE ::
      FragmentsForLength(length, suggestedSize) == Ceiling(length, suggestedSize - HEADER_SIZE)
  }

  /** 2^24 is where exactness ends. */
  lemma ExactnessEndsAt(bound: nat)
    ensures ExactUpTo(bound) <==> bound <= SIGNIFICAND
  {
    if bound <= SIGNIFICAND {
      forall length, suggestedSize |
        0 <= length <= bound && HEADER_SIZE < suggestedSize <= SIGNIFICAND + HEADER_SIZE
        ensures FragmentsForLength(length, suggestedSize) == Ceiling(length, suggestedSize - HEADER_SIZE)
      {
        CountIsCeiling(length, suggestedSize);
      }
    } else {
      var length := SIGNIFICAND + 1;
      assert IntToFloat(length, 2) == RoundTiesToEven(length, 2) * 2 == SIGNIFICAND;
      assert IntToFloat(1, 1) == 1;
      assert Quotient(SIGNIFICAND, 2) == Float(HALF, 1);
      assert FragmentsForLength(length, HEADER_SIZE + 1) == SIGNIFICAND;
      assert Ceiling(length, 1) == length;
    }
  }

  // ---- the default fragment size ----

  const DEFAULT_SIZE := 64 * 1024
  const DEFAULT_PAYLOAD := 65504

  /** Below 2^29 a converted length is a multiple of a spacing that divides 32, and at most 2^24 times it. */
  lemma {:induction false} Spacing(v: nat, unit: nat) returns (u: nat, a: nat)
    requires unit in {1, 2, 4, 8, 16, 32} && v < SIGNIFICAND * 32
    ensures u in {1, 2, 4, 8, 16, 32} && IntToFloat(v, unit) == a * u <= SIGNIFICAND * u
    decreases v - SIGNIFICAND * unit
  {
    if v < SIGNIFICAND * unit {
      u, a := unit, RoundTiesToEven(v, unit);
      RoundsToAtMost(v, unit, SIGNIFICAND);
      MultipleAtMost(a, SIGNIFICAND, unit);
    } else {
      u, a := Spacing(v, 2 * unit);
    }
  }

  lemma PayloadInSpacings(u: nat) returns (k: nat)
    requires u in {1, 2, 4, 8, 16, 32}
    ensures k * u == DEFAULT_PAYLOAD
    ensures k == if u == 1 then 65504 else if u == 2 then 32752 else if u == 4 then 16376
                 else if u == 8 then 8188 else if u == 16 then 4094 else 2047
  {
    k := if u == 1 then 65504 else if u == 2 then 32752 else if u == 4 then 16376
         else if u == 8 then 8188 else if u == 16 then 4094 else 2047;
  }

  lemma ProductAssociates(n: nat, k: nat, u: nat)
    ensures n * (k * u) == (n * k) * u
  {
  }

  /** The default payload is a multiple of 32, so a converted length lies at least its spacing above a multiple. */
  lemma SpacingAbove(u: nat, a: nat, n: nat)
    requires u in {1, 2, 4, 8, 16, 32} && n * DEFAULT_PAYLOAD < a * u
    ensures n * DEFAULT_PAYLOAD + u <= a * u
  {
    var k := PayloadInSpacings(u);
    ProductAssociates(n, k, u);
    if n * k < a {
      MultipleBelow(n * k, a, u);
    } else {
      MultipleAtMost(a, n * k, u);
    }
  }

  /** Below 2^29 the default count is the ceiling of the converted length: the division itself does no harm. */
  lemma DefaultCountIsOfConverted(length: nat)
    requires 0 < length < SIGNIFICAND * 32
    ensures FragmentsForLength(length, DEFAULT_SIZE) == Ceiling(IntToFloat(length, 1), DEFAULT_PAYLOAD)
  {
    hide Quotient, IntToFloat, Ceiling;
    var v := IntToFloat(length, 1);
    PositiveStaysPositive(length, 1);
    SmallIntegersAreExact(DEFAULT_PAYLOAD);
    var u, a := Spacing(length, 1);
    var n := EnclosingMultiple(v, DEFAULT_PAYLOAD);
    SpacingAbove(u, a, n);
    QuotientAbove(v, DEFAULT_PAYLOAD, n, u);
    QuotientAtMost(v, DEFAULT_PAYLOAD, n + 1);
    var f := Quotient(v, DEFAULT_PAYLOAD);
    CeilingIs(f.num, f.den, n + 1);
    CeilingIs(v, DEFAULT_PAYLOAD, n + 1);
  }

  /** The distance of neighbouring single-precision values around a length below 2^29. */
  function SpacingOf(length: nat): nat {
    if length < SIGNIFICAND then 1
    else if length < SIGNIFICAND * 2 then 2
    else if length < SIGNIFICAND * 4 then 4
    else if length < SIGNIFICAND * 8 then 8
    else if length < SIGNIFICAND * 16 then 16
    else 32
  }

  lemma ConvertedIsRounded(length: nat)
    requires length < SIGNIFICAND * 32
    ensures SpacingOf(length) in {1, 2, 4, 8, 16, 32}
    ensures IntToFloat(length, 1) == RoundTiesToEven(length, SpacingOf(length)) * SpacingOf(length)
  {
    hide RoundTiesToEven;
    if length >= SIGNIFICAND {
      assert IntToFloat(length, 1) == IntToFloat(length, 2);
      if length >= SIGNIFICAND * 2 {
        assert IntToFloat(length, 2) == IntToFloat(length, 4);
        if length >= SIGNIFICAND * 4 {
          assert IntToFloat(length, 4) == IntToFloat(length, 8);
          if length >= SIGNIFICAND * 8 {
            assert IntToFloat(length, 8) == IntToFloat(length, 16);
            if length >= SIGNIFICAND * 16 {
              assert IntToFloat(length, 16) == IntToFloat(length, 32);
            }
          }
        }
      }
    }
  }

  /**
   The length lies so little above a multiple of the payload that it is rounded down to it; a length exactly halfway
   goes to the even side, which is the multiple unless the spacing is 32 and the multiple an odd one.
   */
  predicate RoundsDownToMultiple(length: nat) {
    var u, q, r := SpacingOf(length), length / DEFAULT_PAYLOAD, length % DEFAULT_PAYLOAD;
    0 < r && (2 * r < u || (2 * r == u && (u < 32 || q % 2 == 0)))
  }

  lemma EvenTimes(q: nat, h: nat)
    ensures (q * (2 * h)) % 2 == 0
  {
    Reassociate(q, h);
  }

  lemma OddTimes(q: nat)
    ensures (q * 2047) % 2 == q % 2
  {
  }

  lemma ParityInSpacings(q: nat, k: nat, u: nat)
    requires (u == 2 && k == 32752) || (u == 4 && k == 16376) || (u == 8 && k == 8188) || (u == 16 && k == 4094)
             || (u == 32 && k == 2047)
    ensures (q * k) % 2 == 0 <==> u < 32 || q % 2 == 0
  {
    if u == 32 {
      OddTimes(q);
    } else {
      EvenTimes(q, k / 2);
    }
  }

  /** Less than one spacing above a multiple. */
  lemma ConvertedNearMultiple(length: nat, q: nat, r: nat)
    requires length == q * DEFAULT_PAYLOAD + r < SIGNIFICAND * 32 && r < SpacingOf(length)
    ensures IntToFloat(length, 1) == q * DEFAULT_PAYLOAD +
              if 2 * r < SpacingOf(length) || (2 * r == SpacingOf(length) && (SpacingOf(length) < 32 || q % 2 == 0))
              then 0 else SpacingOf(length)
  {
    hide IntToFloat, SpacingOf;
    var u := SpacingOf(length);
    ConvertedIsRounded(length);
    var k := PayloadInSpacings(u);
    ProductAssociates(q, k, u);
    RemainderIs(length, u, q * k, r);
    if 2 * r == u {
      ParityInSpacings(q, k, u);
    }
    assert (q * k + 1) * u == (q * k) * u + u;
  }

  lemma RemainderIs(v: nat, d: nat, q: nat, r: nat)
    requires v == q * d + r && r < d
    ensures v / d == q && v % d == r
  {
    DivisionIs(v, d, q, r);
    DivisionAlgorithm(v, d);
  }

  /** A spacing or more above a multiple, the converted length does not reach it, nor pass the next. */
  lemma ConvertedFarFromMultiple(length: nat, q: nat, r: nat)
    requires length == q * DEFAULT_PAYLOAD + r < SIGNIFICAND * 32 && SpacingOf(length) <= r < DEFAULT_PAYLOAD
    ensures q * DEFAULT_PAYLOAD < IntToFloat(length, 1) <= (q + 1) * DEFAULT_PAYLOAD
  {
    hide IntToFloat, SpacingOf, RoundTiesToEven;
    var u := SpacingOf(length);
    ConvertedIsRounded(length);
    var a := RoundTiesToEven(length, u);
    RoundsToNearest(length, u);
    assert (q + 1) * DEFAULT_PAYLOAD == q * DEFAULT_PAYLOAD + DEFAULT_PAYLOAD;
    if (q + 1) * DEFAULT_PAYLOAD < a * u {
      SpacingAbove(u, a, q + 1);
      assert false;
    }
  }

  /** The default count is wrong exactly for lengths that are rounded down to a multiple of the payload. */
  lemma DefaultCountErrsIff(length: nat)
    requires 0 < length < SIGNIFICAND * 32
    ensures FragmentsForLength(length, DEFAULT_SIZE) == Ceiling(length, DEFAULT_PAYLOAD)
            <==> !RoundsDownToMultiple(length)
  {
    hide FragmentsForLength, IntToFloat, Ceiling;
    DefaultCountIsOfConverted(length);
    var q, r, v := length / DEFAULT_PAYLOAD, length % DEFAULT_PAYLOAD, IntToFloat(length, 1);
    if r < SpacingOf(length) {
      ConvertedNearMultiple(length, q, r);
    } else {
      ConvertedFarFromMultiple(length, q, r);
    }
    if r == 0 {
    } else if v == q * DEFAULT_PAYLOAD {
      CeilingIs(v, DEFAULT_PAYLOAD, q);
      CeilingIs(length, DEFAULT_PAYLOAD, q + 1);
    } else {
      CeilingIs(v, DEFAULT_PAYLOAD, q + 1);
      CeilingIs(length, DEFAULT_PAYLOAD, q + 1);
    }
  }

  /** Up to 257 full fragments no length is miscounted. */
  lemma DefaultSizeIsExactUpTo(length: nat)
    requires length <= DEFAULT_PAYLOAD * 257
    ensures FragmentsForLength(length, DEFAULT_SIZE) == Ceiling(length, DEFAULT_PAYLOAD)
  {
    if length <= SIGNIFICAND {
      CountIsCeiling(length, DEFAULT_SIZE);
    } else {
      var most := DEFAULT_PAYLOAD * 257;
      assert IntToFloat(most, 2) == RoundTiesToEven(most, 2) * 2 == most == IntToFloat(most, 1);
      SmallIntegersAreExact(SIGNIFICAND);
      IntToFloatIsMonotone(length, most, 1);
      IntToFloatIsMonotone(SIGNIFICAND, length, 1);
      DefaultCountIsOfConverted(length);
      CeilingIs(IntToFloat(length, 1), DEFAULT_PAYLOAD, 257);
      CeilingIs(length, DEFAULT_PAYLOAD, 257);
    }
  }

  /** With the default fragment size the count is one too small at 65504 * 257 + 1. */
  lemma DefaultSizeMiscounts()
    ensures FragmentsForLength(65504 * 257 + 1, 64 * 1024) == 257
    ensures Ceiling(65504 * 257 + 1, 65504) == 258
  {
    var length := 65504 * 257 + 1;
    assert IntToFloat(length, 2) == RoundTiesToEven(length, 2) * 2 == length - 1;
    SmallIntegersAreExact(65504);
    QuotientAbove(length - 1, 65504, 256, 2);
    QuotientAtMost(length - 1, 65504, 257);
    var f := Quotient(length - 1, 65504);
    CeilingIs(f.num, f.den, 257);
  }
}
