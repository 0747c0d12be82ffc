// The small floating-point numbers of src/modules/dpi/report/session_report_l4s.c: what the decoder computes, and
// how exact it is.

module L4sFloat {
  import opened Common

  function Pow2(k: nat): (p: nat)
    ensures p > 0
  {
    if k == 0 then 1 else 2 * Pow2(k - 1)
  }

  function ShiftLeft(x: nat, k: nat): (y: u32) {
    x * Pow2(k) % TWO_32
  }

  // The widths for which no shift of the decoder leaves 32 bits.
  predicate Fits(m: nat, e: nat) {
    m <= 30 && m + Pow2(e) <= 33
  }

  // fl2int: a conjunction with 2^k - 1 is a remainder, and a right shift a division.
  function Fl2Int(fl: u32, m: nat, e: nat): (v: u32)
    requires Fits(m, e)
  {
    var mMax := ShiftLeft(1, m);
    LimitFits(m, e);
    var f := fl % ShiftLeft(mMax, e);
    if f < ShiftLeft(mMax, 1) then f
    else
      UpperHalf(f, m);
      ShiftLeft(f % mMax + mMax, f / mMax - 1)
  }

  lemma {:induction false} Pow2Sum(a: nat, b: nat)
    ensures Pow2(a) * Pow2(b) == Pow2(a + b)
  {
    hide Pow2;
    PowOne();
    if a > 0 {
      Pow2Sum(a - 1, b);
      DoublePow(a);
      DoublePow(a + b);
      DoubleProduct(Pow2(a - 1), Pow2(b));
    }
  }

  lemma DoubleProduct(x: nat, y: nat)
    ensures 2 * x * y == 2 * (x * y)
  {
  }

  lemma {:induction false} Pow2Grows(a: nat, b: nat)
    requires a < b
    ensures 2 * Pow2(a) <= Pow2(b)
  {
    if a < b - 1 {
      Pow2Grows(a, b - 1);
    }
  }

  lemma {:induction false} AboveExponent(e: nat)
    ensures e < Pow2(e)
  {
    if e > 0 {
      AboveExponent(e - 1);
    }
  }

  lemma ShiftExact(x: nat, k: nat)
    requires x * Pow2(k) < TWO_32
    ensures ShiftLeft(x, k) == x * Pow2(k)
  {
  }

  // All codes are below 2^(m+e), and the shifts that say so are exact.
  lemma LimitFits(m: nat, e: nat)
    requires Fits(m, e)
    ensures ShiftLeft(1, m) == Pow2(m) && ShiftLeft(Pow2(m), 1) == 2 * Pow2(m)
    ensures ShiftLeft(Pow2(m), e) == Pow2(m) * Pow2(e) == Pow2(m + e) < TWO_32
  {
    hide ShiftLeft;
    hide Pow2;
    Pow2Is32();
    Pow2Grows(m, 31);
    LargestWidths(m, e);
    Pow2Grows(m + e, 32);
    Pow2Sum(m, e);
    Pow2Sum(1, m);
    PowOne();
    ShiftExact(1, m);
    ShiftExact(Pow2(m), 1);
    ShiftExact(Pow2(m), e);
  }

  lemma PowOne()
    ensures Pow2(1) == 2 && Pow2(0) == 1
  {
  }

  lemma LargestWidths(m: nat, e: nat)
    requires Fits(m, e)
    ensures m + e < 32
  {
    if e >= 2 {
      Pow2Grows(e - 1, e);
      AboveExponent(e - 1);
    }
  }

  lemma Pow2Is32()
    ensures Pow2(32) == TWO_32 && Pow2(31) == 0x8000_0000
  {
    hide Pow2;
    SmallPowers();
    Pow2Sum(8, 8);
    Pow2Sum(16, 8);
    Pow2Sum(24, 7);
    Pow2Sum(24, 8);
  }

  lemma SmallPowers()
    ensures Pow2(7) == 128 && Pow2(8) == 256
  {
  }

  lemma Multiply(a: nat, b: nat, p: nat)
    requires a <= b
    ensures a * p <= b * p
  {
  }

  lemma DivideExact(f: nat, p: nat)
    requires p > 0
    ensures f == f / p * p + f % p
  {
  }

  lemma UpperHalf(f: nat, m: nat)
    requires f >= 2 * Pow2(m)
    ensures f / Pow2(m) >= 2
  {
    hide Pow2;
    DivideExact(f, Pow2(m));
    if f / Pow2(m) <= 1 {
      Multiply(f / Pow2(m), 1, Pow2(m));
    }
  }

  // ----- what the code stands for -----

  // The mantissa with its leading one, times a power of two; or the code itself.
  function Value(f: nat, m: nat): (v: nat) {
    if f < 2 * Pow2(m) then f
    else
      UpperHalf(f, m);
      (f % Pow2(m) + Pow2(m)) * Pow2(f / Pow2(m) - 1)
  }

  // How far the next code is.
  function Gap(f: nat, m: nat): (g: nat) {
    if f < Pow2(m) then 1 else Pow2(f / Pow2(m) - 1)
  }

  lemma QuotientOne(f: nat, p: nat)
    requires p <= f < 2 * p
    ensures f / p == 1 && f % p == f - p
  {
    DivideExact(f, p);
    if f / p >= 2 {
      Multiply(2, f / p, p);
    } else if f / p == 0 {
    }
  }

  // From one code to the next, across all exponents.
  lemma NextValue(f: nat, m: nat)
    ensures Value(f + 1, m) == Value(f, m) + Gap(f, m)
  {
    hide Pow2;
    var p := Pow2(m);
    PowOne();
    if f + 1 < 2 * p {
      if f >= p {
        QuotientOne(f, p);
      }
    } else {
      NextUpper(f, m);
    }
  }

  lemma NextQuotient(f: nat, p: nat)
    requires p > 0
    ensures if f % p + 1 < p then (f + 1) / p == f / p && (f + 1) % p == f % p + 1
            else (f + 1) / p == f / p + 1 && (f + 1) % p == 0
  {
    DivideExact(f, p);
    NextOf(f, p, f / p, f % p);
  }

  lemma NextOf(f: nat, p: nat, q: nat, r: nat)
    requires r < p && f == q * p + r
    ensures if r + 1 < p then (f + 1) / p == q && (f + 1) % p == r + 1 else (f + 1) / p == q + 1 && (f + 1) % p == 0
  {
    if r + 1 < p {
      QuotientIs(f + 1, p, q, r + 1);
    } else {
      Distribute(q, 1, p);
      QuotientIs(f + 1, p, q + 1, 0);
    }
  }

  lemma MultiplyNext(a: nat, b: nat, p: nat)
    requires a < b
    ensures a * p + p <= b * p
  {
    Multiply(a + 1, b, p);
    Distribute(a, 1, p);
  }

  lemma QuotientIs(f: nat, p: nat, q: nat, r: nat)
    requires r < p && f == q * p + r
    ensures f / p == q && f % p == r
  {
    DivideExact(f, p);
    if f / p < q {
      MultiplyNext(f / p, q, p);
    } else if f / p > q {
      MultiplyNext(q, f / p, p);
    }
  }

  lemma UpperValue(f: nat, m: nat)
    requires f >= 2 * Pow2(m)
    ensures f / Pow2(m) >= 2
    ensures Value(f, m) == (f % Pow2(m) + Pow2(m)) * Pow2(f / Pow2(m) - 1) && Gap(f, m) == Pow2(f / Pow2(m) - 1)
  {
    hide Pow2;
    UpperHalf(f, m);
  }

  lemma NextUpper(f: nat, m: nat)
    requires f + 1 >= 2 * Pow2(m)
    ensures Value(f + 1, m) == Value(f, m) + Gap(f, m)
  {
    hide Pow2;
    hide Value;
    hide Gap;
    var p := Pow2(m);
    NextQuotient(f, p);
    UpperValue(f + 1, m);
    if f + 1 == 2 * p {
      FirstUpper(f, m);
    } else {
      UpperValue(f, m);
      var q := f / p;
      if f % p + 1 < p {
        Distribute(f % p + p, 1, Pow2(q - 1));
      } else {
        DoublePow(q);
        DoubleMantissa(p, Pow2(q - 1));
      }
    }
  }

  lemma FirstUpper(f: nat, m: nat)
    requires f + 1 == 2 * Pow2(m)
    ensures Value(f + 1, m) == Value(f, m) + Gap(f, m)
  {
    hide Pow2;
    hide Value;
    hide Gap;
    var p := Pow2(m);
    PowOne();
    QuotientOne(f, p);
    QuotientIs(f + 1, p, 2, 0);
    UpperValue(f + 1, m);
    LowerValue(f, m);
    Twice(p, Pow2(1));
  }

  lemma LowerValue(f: nat, m: nat)
    requires f < 2 * Pow2(m)
    ensures Value(f, m) == f && Gap(f, m) == if f < Pow2(m) then 1 else Pow2(f / Pow2(m) - 1)
  {
    hide Pow2;
  }

  lemma Twice(p: nat, k: nat)
    requires k == 2
    ensures (0 + p) * k == 2 * p
  {
  }

  lemma Distribute(a: nat, b: nat, p: nat)
    ensures (a + b) * p == a * p + b * p
  {
  }

  lemma DoublePow(q: nat)
    requires q > 0
    ensures Pow2(q) == 2 * Pow2(q - 1)
  {
  }

  lemma DoubleMantissa(p: nat, k: nat)
    requires p > 0
    ensures p * (2 * k) == (p - 1 + p) * k + k
  {
    Distribute(p, p, k);
    Distribute(p - 1 + p, 1, k);
  }

  // ----- main results -----

  lemma {:induction false} StrictlyIncreasing(a: nat, b: nat, m: nat)
    requires a < b
    ensures Value(a, m) < Value(b, m)
  {
    hide Value;
    hide Gap;
    NextValue(b - 1, m);
    GapPositive(b - 1, m);
    if a < b - 1 {
      StrictlyIncreasing(a, b - 1, m);
    }
  }

  lemma GapPositive(f: nat, m: nat)
    ensures Gap(f, m) > 0
  {
  }

  // From 2^m on, the next value is at most a 2^m-th part away.
  lemma RelativePrecision(f: nat, m: nat)
    requires f >= Pow2(m)
    ensures Gap(f, m) * Pow2(m) <= Value(f, m)
  {
    hide Pow2;
    hide Value;
    hide Gap;
    var p := Pow2(m);
    PowOne();
    if f < 2 * p {
      QuotientOne(f, p);
      LowerValue(f, m);
    } else {
      UpperValue(f, m);
      Multiply(p, f % p + p, Pow2(f / p - 1));
    }
  }

  // Every number up to the last value lies between a code and the next.
  lemma {:induction false} Bracketed(v: nat, last: nat, m: nat) returns (f: nat)
    requires v < Value(last, m)
    ensures f < last && Value(f, m) <= v < Value(f + 1, m)
  {
    hide Value;
    hide Gap;
    ValueOfZero(m);
    if Value(last - 1, m) <= v {
      f := last - 1;
    } else {
      f := Bracketed(v, last - 1, m);
    }
  }

  lemma ValueOfZero(m: nat)
    ensures Value(0, m) == 0
  {
  }

  // In 32 bits the decoder computes these values: its shifts lose nothing.
  lemma DecoderExactly(fl: u32, m: nat, e: nat)
    requires Fits(m, e)
    ensures Fl2Int(fl, m, e) == Value(fl % Pow2(m + e), m)
  {
    hide Pow2;
    hide ShiftLeft;
    LimitFits(m, e);
    var p, f := Pow2(m), fl % Pow2(m + e);
    if f >= 2 * p {
      UpperHalf(f, m);
      ValueFits(f, m, e);
      ShiftExact(f % p + p, f / p - 1);
    }
  }

  lemma QuotientBelow(f: nat, m: nat, e: nat)
    requires f < Pow2(m + e)
    ensures f / Pow2(m) < Pow2(e)
  {
    hide Pow2;
    Pow2Sum(m, e);
    DivideExact(f, Pow2(m));
    if f / Pow2(m) >= Pow2(e) {
      Multiply(Pow2(e), f / Pow2(m), Pow2(m));
    }
  }

  lemma ShiftedFits(r: nat, m: nat, q: nat)
    requires r < Pow2(m) && q >= 1 && m + q <= 32
    ensures (r + Pow2(m)) * Pow2(q - 1) < TWO_32
  {
    hide Pow2;
    PowOne();
    Pow2Sum(1, m);
    Pow2Sum(m + 1, q - 1);
    MultiplyLess(r + Pow2(m), 2 * Pow2(m), Pow2(q - 1));
    Pow2Is32();
    if m + q < 32 {
      Pow2Grows(m + q, 32);
    }
  }

  lemma ValueFits(f: nat, m: nat, e: nat)
    requires Fits(m, e) && 2 * Pow2(m) <= f < Pow2(m + e)
    ensures f / Pow2(m) >= 2 && (f % Pow2(m) + Pow2(m)) * Pow2(f / Pow2(m) - 1) < TWO_32
  {
    hide Pow2;
    UpperHalf(f, m);
    QuotientBelow(f, m, e);
    ShiftedFits(f % Pow2(m), m, f / Pow2(m));
  }

  lemma MultiplyLess(a: nat, b: nat, p: nat)
    requires a < b && p > 0
    ensures a * p < b * p
  {
    MultiplyNext(a, b, p);
  }

  // fl2int on all codes of given widths: the identity below 2^(m+1), strictly increasing and continuous.
  lemma Fl2IntOrder(a: u32, b: u32, m: nat, e: nat)
    requires Fits(m, e) && a < b < Pow2(m + e)
    ensures Fl2Int(a, m, e) < Fl2Int(b, m, e)
    ensures a < 2 * Pow2(m) ==> Fl2Int(a, m, e) == a
    ensures b == a + 1 ==> Fl2Int(b, m, e) - Fl2Int(a, m, e) == Gap(a, m)
    ensures b == a + 1 && a >= Pow2(m) ==> (Fl2Int(b, m, e) - Fl2Int(a, m, e)) * Pow2(m) <= Fl2Int(a, m, e)
  {
    hide Pow2;
    hide Fl2Int;
    hide Gap;
    DecoderExactly(a, m, e);
    DecoderExactly(b, m, e);
    Small(a, Pow2(m + e));
    Small(b, Pow2(m + e));
    StrictlyIncreasing(a, b, m);
    NextValue(a, m);
    if a >= Pow2(m) {
      RelativePrecision(a, m);
    }
  }

  lemma Small(a: nat, p: nat)
    requires a < p
    ensures a % p == a
  {
  }

  // ----- _decode_l4s_in_ip_identification -----

  const DROPS_M := 2
  const DROPS_E := 3

  // The queueing delay, still encoded, and the number of drops.
  function DecodeId(id: u16): (r: (u32, u32)) {
    DropWidths();
    (id % 2048, Fl2Int(id / 2048, DROPS_M, DROPS_E))
  }

  lemma DropWidths()
    ensures Fits(DROPS_M, DROPS_E) && Pow2(DROPS_M + DROPS_E) == 32 && Pow2(DROPS_M) == 4
  {
  }

  // Nothing of the 16 bits is lost, and more in the upper five bits always means more drops.
  lemma IdIsDetermined(a: u16, b: u16)
    ensures DecodeId(a) == DecodeId(b) ==> a == b
    ensures a / 2048 < b / 2048 <==> DecodeId(a).1 < DecodeId(b).1
  {
    hide Pow2;
    hide Fl2Int;
    DropWidths();
    var x, y := a / 2048, b / 2048;
    if x < y {
      Fl2IntOrder(x, y, DROPS_M, DROPS_E);
    } else if y < x {
      Fl2IntOrder(y, x, DROPS_M, DROPS_E);
    }
  }

  // The two parts of an identification: the lower eleven bits as they are, and what the upper five stand for.
  lemma IdExactly(id: u16)
    ensures id / 2048 < 32 && id == 2048 * (id / 2048) + DecodeId(id).0 && DecodeId(id).1 == Value(id / 2048, 2)
  {
    hide Pow2;
    hide Fl2Int;
    hide Value;
    DropWidths();
    DecoderExactly(id / 2048, DROPS_M, DROPS_E);
    Small(id / 2048, Pow2(DROPS_M + DROPS_E));
  }
}
