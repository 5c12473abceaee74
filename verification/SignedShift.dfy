/** RIGHT_SHIFT of jpegint.h in both its variants, and the rounding DESCALE of jdct.h,
    on signed words of any width. An INT32 is a long, so it may have more than 32 bits. */
module SignedShift {
  import opened IntegerFacts

  function Pow2(n: nat): (r: int)
    ensures r > 0
  {
    if n == 0 then 1 else 2 * Pow2(n - 1)
  }

  predicate IsSigned(x: int, width: nat)
    requires width > 0
  {
    -Pow2(width - 1) <= x < Pow2(width - 1)
  }

  /** Two's complement, in both directions. */
  function ToWord(x: int, width: nat): nat { x % Pow2(width) }

  function FromWord(u: nat, width: nat): int
    requires width > 0
  {
    if u < Pow2(width - 1) then u else u - Pow2(width)
  }

  /** Bitwise or, digit by digit. */
  function BitOr(a: nat, b: nat): nat
    decreases a + b
  {
    if a == 0 && b == 0 then 0
    else (if a % 2 == 1 || b % 2 == 1 then 1 else 0) + 2 * BitOr(a / 2, b / 2)
  }

  // ----- the macros

  /** A shift instruction that copies the sign bit, one position at a time. */
  function ArithmeticShift(u: nat, n: nat, width: nat): nat
    requires width > 0
  {
    if n == 0 then u
    else
      var v := ArithmeticShift(u, n - 1, width);
      v / 2 + (if v >= Pow2(width - 1) then Pow2(width - 1) else 0)
  }

  /** The shift counts for which a variant is defined: C shifts by less than the width,
      and the macro's mask is shifted by 32 - n. */
  predicate CanShift(unsignedShift: bool, n: nat, width: nat) {
    0 < n < width && (unsignedShift ==> n <= 32 <= width)
  }

  /** The mask `(~((INT32) 0)) << (32-(shft))`, a word of ones shifted left. The
      macro's 32 does not depend on the width of an INT32. */
  function SignMask(n: nat, width: nat): nat
    requires n <= 32
  {
    ((Pow2(width) - 1) * Pow2(32 - n)) % Pow2(width)
  }

  /** RIGHT_SHIFT; `unsignedShift` is RIGHT_SHIFT_IS_UNSIGNED, on a compiler whose >>
      fills with zeros. */
  function RightShift(unsignedShift: bool, x: int, n: nat, width: nat): int
    requires CanShift(unsignedShift, n, width) && IsSigned(x, width)
  {
    var u := ToWord(x, width);
    if unsignedShift then
      (if x < 0 then FromWord(BitOr(u / Pow2(n), SignMask(n, width)), width) else FromWord(u / Pow2(n), width))
    else FromWord(ArithmeticShift(u, n, width), width)
  }

  // ----- powers of two

  lemma {:induction false} TwiceProduct(a: int, b: int)
    ensures 2 * (a * b) == (2 * a) * b
  {
  }

  lemma {:induction false} PowSplit(m: nat, n: nat)
    ensures Pow2(m + n) == Pow2(m) * Pow2(n)
  {
    if m > 0 {
      PowSplit(m - 1, n);
      TwiceProduct(Pow2(m - 1), Pow2(n));
    }
  }

  lemma {:induction false} PowGrows(m: nat, n: nat)
    requires m <= n
    ensures Pow2(m) <= Pow2(n)
  {
    if m < n { PowGrows(m, n - 1); }
  }

  /** Floor division composes. */
  lemma {:induction false} DivDiv(x: int, a: int, b: int)
    requires a > 0 && b > 0 && a * b > 0
    ensures (x / a) / b == x / (a * b)
    ensures x % (a * b) == ((x / a) % b) * a + x % a
  {
    var y := x / a;
    var z, s := y / b, y % b;
    DivDef(x, a);
    DivDef(y, b);
    assert y * a == (z * b) * a + s * a;
    assert (z * b) * a == z * (a * b);
    MulLe(s + 1, b, a);
    assert (s + 1) * a == s * a + a;
    MulLe(0, s, a);
    DivModIs(x, a * b, z, s * a + x % a);
  }

  // ----- or-ing in the sign

  lemma {:induction false} OrWithOnes(u: nat, width: nat)
    requires u < Pow2(width)
    ensures BitOr(u, Pow2(width) - 1) == Pow2(width) - 1
  {
    if width > 0 {
      OrWithOnes(u / 2, width - 1);
      assert (Pow2(width) - 1) / 2 == Pow2(width - 1) - 1;
    }
  }

  lemma {:induction false} ModDouble(u: nat, p: nat)
    requires p > 0
    ensures u % (2 * p) == u % 2 + 2 * ((u / 2) % p)
  {
    DivDiv(u, 2, p);
  }

  /** Or-ing a block of high ones keeps the low k bits and sets all others. */
  lemma {:induction false} OrWithHighOnes(u: nat, k: nat, width: nat, p: int, m: int)
    requires p == Pow2(k) && m == Pow2(width) && u < m && k <= width
    ensures 0 < p <= m && BitOr(u, m - p) == u % p + m - p
  {
    PowGrows(k, width);
    if k == 0 {
      OrWithOnes(u, width);
    } else {
      var p1, m1 := Pow2(k - 1), Pow2(width - 1);
      OrWithHighOnes(u / 2, k - 1, width - 1, p1, m1);
      OrWithEven(u, m1 - p1);
      ModDouble(u, p1);
    }
  }

  lemma {:induction false} OrWithEven(u: nat, half: nat)
    ensures BitOr(u, 2 * half) == u % 2 + 2 * BitOr(u / 2, half)
  {
  }

  lemma {:induction false} OnesShifted(m: int, p: int)
    requires 0 < p <= m
    ensures ((m - 1) * p) % m == m - p
  {
    assert (m - 1) * p == (p - 1) * m + (m - p);
    DivModIs((m - 1) * p, m, p - 1, m - p);
  }

  lemma {:induction false} SignMaskIs(n: nat, width: nat)
    requires CanShift(true, n, width)
    ensures Pow2(32 - n) <= Pow2(width) && SignMask(n, width) == Pow2(width) - Pow2(32 - n)
  {
    var p, m := Pow2(32 - n), Pow2(width);
    PowGrows(32 - n, width);
    OnesShifted(m, p);
  }

  /** The word of a negative number. */
  lemma {:induction false} WordIs(x: int, width: nat)
    requires width > 0 && IsSigned(x, width)
    ensures ToWord(x, width) == if x < 0 then x + Pow2(width) else x
    ensures FromWord(ToWord(x, width), width) == x
  {
    if x < 0 { DivModIs(x, Pow2(width), -1, x + Pow2(width)); } else { DivModIs(x, Pow2(width), 0, x); }
  }

  /** What the zero-filling shift and the mask make of a negative number: the true
      quotient, reduced to the 32 - n bits the mask leaves free. */
  lemma {:induction false} MaskedShiftIs(x: int, n: nat, width: nat)
    requires CanShift(true, n, width) && IsSigned(x, width) && x < 0
    ensures RightShift(true, x, n, width) == (x / Pow2(n)) % Pow2(32 - n) - Pow2(32 - n)
  {
    var p, k, high := Pow2(n), 32 - n, Pow2(width - n);
    var v := ToWord(x, width) / p;
    WordIs(x, width);
    PowSplit(width - n, n);
    DivShift(x, p, high);
    assert v == x / p + high;
    QuotientFits(ToWord(x, width), p, Pow2(width));
    SignMaskIs(n, width);
    OrWithHighOnes(v, k, width, Pow2(k), Pow2(width));
    PowSplit(width - 32, k);
    ModShift(x / p, Pow2(width - 32), Pow2(k));
    PowGrows(k, width - 1);
    DivDef(v, Pow2(k));
    assert FromWord(v % Pow2(k) + Pow2(width) - Pow2(k), width) == v % Pow2(k) - Pow2(k);
  }

  lemma {:induction false} DivShift(x: int, p: int, c: int)
    requires p > 0
    ensures (x + c * p) / p == x / p + c
  {
    DivDef(x, p);
    assert (x / p + c) * p == (x / p) * p + c * p;
    DivModIs(x + c * p, p, x / p + c, x % p);
  }

  lemma {:induction false} QuotientFits(u: int, p: int, m: int)
    requires p > 0 && 0 <= u < m
    ensures 0 <= u / p < m
  {
    DivDef(u, p);
    var q := u / p;
    if q < 0 { MulLe(q + 1, 0, p); } else { MulLe(1, p, q); }
  }

  lemma {:induction false} ModShift(q: int, c: int, p: int)
    requires p > 0
    ensures (q + c * p) % p == q % p
  {
    DivDef(q, p);
    assert (q / p + c) * p == (q / p) * p + c * p;
    DivModIs(q + c * p, p, q / p + c, q % p);
  }

  /** MAIN RESULT. The zero-filling variant with its mask is the floor of x / 2^n
      exactly for x of at least -2^32: for every x when an INT32 has 32 bits, and not
      for lower ones when it has more. */
  lemma {:induction false} MaskedShiftIsFloor(x: int, n: nat, width: nat)
    requires CanShift(true, n, width) && IsSigned(x, width)
    ensures RightShift(true, x, n, width) == x / Pow2(n) <==> -Pow2(32) <= x
  {
    WordIs(x, width);
    if x >= 0 {
      QuotientFits(x, Pow2(n), Pow2(width - 1));
    } else {
      MaskedShiftIs(x, n, width);
      PowSplit(32 - n, n);
      NegativeFits(x, Pow2(n), Pow2(32 - n));
    }
  }

  lemma {:induction false} NegativeFits(x: int, p: int, c: int)
    requires p > 0 && c > 0 && x < 0
    ensures (x / p) % c - c == x / p <==> -(c * p) <= x
  {
    var q := x / p;
    DivDef(x, p);
    DivDef(q, c);
    if q >= 0 { MulLe(0, q, p); }
    if q >= -c {
      MulLe(-c, q, p);
      DivModIs(q, c, -1, q + c);
    } else {
      MulLe(q + 1, -c, p);
    }
  }

  lemma {:induction false} MaskedShiftOf32Bits(x: int, n: nat)
    requires 0 < n < 32 && IsSigned(x, 32)
    ensures RightShift(true, x, n, 32) == x / Pow2(n) == RightShift(false, x, n, 32)
  {
    MaskedShiftIsFloor(x, n, 32);
    ArithmeticShiftIsFloor(x, n, 32);
  }

  /** The sign-copying variant is the floor of x / 2^n for every x. */
  lemma {:induction false} ArithmeticShiftIsFloor(x: int, n: nat, width: nat)
    requires 0 < n < width && IsSigned(x, width)
    ensures RightShift(false, x, n, width) == x / Pow2(n)
  {
    ArithmeticShiftSteps(x, n, width);
    WordIs(x / Pow2(n), width);
  }

  lemma {:induction false} ArithmeticShiftSteps(x: int, n: nat, width: nat)
    requires width > 0 && IsSigned(x, width)
    ensures IsSigned(x / Pow2(n), width)
    ensures ArithmeticShift(ToWord(x, width), n, width) == ToWord(x / Pow2(n), width)
  {
    if n > 0 {
      ArithmeticShiftSteps(x, n - 1, width);
      var y := x / Pow2(n - 1);
      DivDiv(x, Pow2(n - 1), 2);
      assert Pow2(n - 1) * 2 == Pow2(n) && y / 2 == x / Pow2(n);
      WordIs(y, width);
      WordIs(y / 2, width);
      assert Pow2(width) == 2 * Pow2(width - 1);
    }
  }

  // ----- rounding

  lemma {:induction false} RightShiftFits(unsignedShift: bool, x: int, n: nat, width: nat)
    requires CanShift(unsignedShift, n, width) && IsSigned(x, width)
    ensures IsSigned(RightShift(unsignedShift, x, n, width), width)
  {
    if !unsignedShift {
      ArithmeticShiftIsFloor(x, n, width);
      ArithmeticShiftSteps(x, n, width);
    } else if x < 0 {
      MaskedShiftIs(x, n, width);
      PowGrows(32 - n, width - 1);
      DivDef(x / Pow2(n), Pow2(32 - n));
    } else {
      WordIs(x, width);
      QuotientFits(x, Pow2(n), Pow2(width - 1));
    }
  }

  /** DESCALE(x, n): adds half a unit, in the word, and shifts. */
  function Descale(unsignedShift: bool, x: int, n: nat, width: nat): (r: int)
    requires CanShift(unsignedShift, n, width) && IsSigned(x, width)
    ensures IsSigned(r, width)
  {
    WordRange(x + Pow2(n - 1), width);
    RightShiftFits(unsignedShift, FromWord(ToWord(x + Pow2(n - 1), width), width), n, width);
    RightShift(unsignedShift, FromWord(ToWord(x + Pow2(n - 1), width), width), n, width)
  }

  lemma {:induction false} WordRange(x: int, width: nat)
    requires width > 0
    ensures IsSigned(FromWord(ToWord(x, width), width), width)
  {
    assert Pow2(width) == 2 * Pow2(width - 1);
  }

  /** r is x / 2^n rounded to the nearest integer, ties upward, for either sign. */
  predicate IsRounded(r: int, x: int, n: nat)
    requires n > 0
  {
    -Pow2(n - 1) <= x - r * Pow2(n) < Pow2(n - 1)
  }

  lemma {:induction false} RoundedIs(r: int, x: int, n: nat)
    requires n > 0
    ensures IsRounded(r, x, n) <==> r == (x + Pow2(n - 1)) / Pow2(n)
  {
    var p, h := Pow2(n), Pow2(n - 1);
    DivDef(x + h, p);
    if IsRounded(r, x, n) { DivModIs(x + h, p, r, x + h - r * p); }
  }

  /** DESCALE rounds to the nearest exactly when adding the half does not overflow and,
      for the zero-filling variant, the sum is in the range its RIGHT_SHIFT can do. */
  lemma {:induction false} DescaleRounds(unsignedShift: bool, x: int, n: nat, width: nat)
    requires CanShift(unsignedShift, n, width) && IsSigned(x, width)
    ensures IsRounded(Descale(unsignedShift, x, n, width), x, n) <==>
      (x + Pow2(n - 1) < Pow2(width - 1) && (unsignedShift ==> -Pow2(32) <= x + Pow2(n - 1)))
  {
    var p, h, m := Pow2(n), Pow2(n - 1), Pow2(width);
    var y := FromWord(ToWord(x + h, width), width);
    WordRange(x + h, width);
    PowGrows(n, width - 1);
    var r := Descale(unsignedShift, x, n, width);
    if x + h < Pow2(width - 1) {
      WordIs(x + h, width);
      if unsignedShift { MaskedShiftIsFloor(y, n, width); } else { ArithmeticShiftIsFloor(y, n, width); }
      RoundedIs(r, x, n);
    } else {
      DivModIs(x + h, m, 0, x + h);
      assert y == x + h - m && y < 0;
      NegativeStaysNegative(unsignedShift, y, n, width);
      MulLe(r, -1, p);
    }
  }

  lemma {:induction false} NegativeStaysNegative(unsignedShift: bool, y: int, n: nat, width: nat)
    requires CanShift(unsignedShift, n, width) && IsSigned(y, width) && y < 0
    ensures RightShift(unsignedShift, y, n, width) < 0
  {
    if unsignedShift {
      MaskedShiftIs(y, n, width);
    } else {
      ArithmeticShiftIsFloor(y, n, width);
      DivDef(y, Pow2(n));
      if y / Pow2(n) >= 0 { MulLe(0, y / Pow2(n), Pow2(n)); }
    }
  }

  /** Descaling by a and then by b rounds twice: unless descaling once by a + b would
      overflow, or leave the range of the zero-filling variant, it gives the same, or one
      more exactly when x lies less than half a unit of the first step below a tie of the
      whole. The first step is then exact, and the second cannot overflow. */
  lemma {:induction false} DescalingTwice(unsignedShift: bool, x: int, a: nat, b: nat, width: nat)
    requires a > 0 && b > 0 && CanShift(unsignedShift, a + b, width) && IsSigned(x, width)
    requires x + Pow2(a + b - 1) < Pow2(width - 1)
    requires unsignedShift ==> -Pow2(32) <= x + Pow2(a - 1)
    ensures Descale(unsignedShift, Descale(unsignedShift, x, a, width), b, width) ==
      Descale(unsignedShift, x, a + b, width)
      + (if (x + Pow2(a + b - 1)) % Pow2(a + b) >= Pow2(a + b) - Pow2(a - 1) then 1 else 0)
  {
    var y := Descale(unsignedShift, x, a, width);
    PowGrows(a - 1, a + b - 1);
    DescaleRounds(unsignedShift, x, a, width);
    DescaleRounds(unsignedShift, x, a + b, width);
    RoundedIs(y, x, a);
    PowSplit(b - 1, a);
    PowGrows(a - 1, width - 1);
    StepFits(x + Pow2(a - 1), Pow2(a), Pow2(a - 1), Pow2(b - 1), Pow2(width - 1));
    DescaleRounds(unsignedShift, y, b, width);
    RoundedTwice(x, a, b, y, Descale(unsignedShift, y, b, width), Descale(unsignedShift, x, a + b, width));
  }

  /** The quotient of a step keeps its room above, for the half g that is added next,
      and is not below any negative bound that the dividend kept. */
  lemma {:induction false} StepFits(v: int, d: int, h: int, g: int, limit: int)
    requires d >= 2 && 0 < h <= limit && v - h + g * d < limit
    ensures v / d + g < limit
    ensures v >= -Pow2(32) ==> v / d >= -Pow2(32)
  {
    var y := v / d;
    DivDef(v, d);
    if y + g >= limit {
      MulLe(limit, y + g, d);
      assert (y + g) * d == y * d + g * d;
      MulLe(2, d, limit);
    }
    if y < -Pow2(32) <= v {
      MulLe(y + 1, -Pow2(32), d);
      MulLe(1, d, Pow2(32));
    }
  }

  lemma {:induction false} RoundedTwice(x: int, a: nat, b: nat, y: int, z: int, r: int)
    requires a > 0 && b > 0
    requires IsRounded(y, x, a) && IsRounded(z, y, b) && IsRounded(r, x, a + b)
    ensures z == r + (if (x + Pow2(a + b - 1)) % Pow2(a + b) >= Pow2(a + b) - Pow2(a - 1) then 1 else 0)
  {
    PowSplit(a, b);
    PowSplit(b - 1, a);
    RoundedIs(y, x, a);
    RoundedIs(z, y, b);
    RoundedIs(r, x, a + b);
    var d, e, h, g, m, half := Pow2(a), Pow2(b), Pow2(a - 1), Pow2(b - 1), Pow2(a + b), Pow2(a + b - 1);
    assert m == d * e && half == g * d && 0 < h < d;
    RoundingTwice(x, d, e, h, g, m, x + half);
  }

  /** Dividing by d with h added first, then by e with g added, against dividing once
      by m = d * e with w = x + g * d. */
  lemma {:induction false} RoundingTwice(x: int, d: int, e: int, h: int, g: int, m: int, w: int)
    requires 0 < h < d && e > 0 && m == d * e && w == x + g * d
    ensures m > 0 && ((x + h) / d + g) / e == w / m + (if w % m >= m - h then 1 else 0)
  {
    MulLe(1, e, d);
    DivShift(x + h, d, g);
    assert x + h + g * d == w + h;
    DivDiv(w + h, d, e);
    CarryIn(w, m, h);
  }

  lemma {:induction false} CarryIn(w: int, m: int, h: int)
    requires 0 <= h <= m && m > 0
    ensures (w + h) / m == w / m + (if w % m >= m - h then 1 else 0)
  {
    DivDef(w, m);
    var q, rest := w / m, w % m;
    if rest + h < m {
      DivModIs(w + h, m, q, rest + h);
    } else if rest + h < 2 * m {
      assert (q + 1) * m == q * m + m;
      DivModIs(w + h, m, q + 1, rest + h - m);
    }
  }
}
