/** The arithmetic macros of png.h: alpha compositing with and without a division, and
    the number of bytes in a row of pixels. C's fixed word sizes are written out. */
module Compositing {
  import opened IntegerFacts

  type Byte = x: int | 0 <= x < 0x100
  type Word16 = x: int | 0 <= x < 0x1_0000

  function U8(x: int): Byte { x % 0x100 }
  function U16(x: int): Word16 { x % 0x1_0000 }
  function U32(x: int): nat { x % 0x1_0000_0000 }

  // ----- the macros

  /** The sum both forms start from: fg and bg weighted by alpha out of m. */
  function Blend(m: int, fg: int, alpha: int, bg: int): int {
    fg * alpha + bg * (m - alpha)
  }

  /** png_composite without a division: the products are of promoted ints, `temp` is a
      png_uint_16, and the casts of the arguments widen. */
  function CompositeNoDiv(fg: Byte, alpha: Byte, bg: Byte): Byte {
    var temp := U16(Blend(255, fg, alpha, bg) + 128);
    U8((temp + temp / 0x100) / 0x100)
  }

  function CompositeDiv(fg: Byte, alpha: Byte, bg: Byte): Byte {
    U8((Blend(255, fg, alpha, bg) + 127) / 255)
  }

  /** png_composite_16 without a division; every operation is on png_uint_32, whose
      sums and products wrap alike, so that one reduction of the whole sum is enough. */
  function Composite16NoDiv(fg: Word16, alpha: Word16, bg: Word16): Word16 {
    var temp := U32(Blend(65535, fg, alpha, bg) + 32768);
    U16(U32(temp + temp / 0x1_0000) / 0x1_0000)
  }

  function Composite16Div(fg: Word16, alpha: Word16, bg: Word16): Word16 {
    U16(U32(Blend(65535, fg, alpha, bg) + 32767) / 65535)
  }

  // ----- dividing by B - 1 with shifts by B

  /** What the division-free forms compute, for an arbitrary base. */
  function ShiftAdd(t: nat, base: int): int
    requires base > 0
  {
    (t + t / base) / base
  }

  /** r is a nearest integer to x / d. */
  predicate IsNearest(r: int, x: int, d: int) {
    -d <= 2 * (x - r * d) <= d
  }

  /** The digit argument: t lies in the q-th interval of length base - 1. */
  lemma {:induction false} ShiftAddIs(base: int, t: int, q: int)
    requires base >= 2 && 0 <= q <= base && t >= 0
    requires q * base - q + 1 <= t <= q * base - q + base - 1
    ensures ShiftAdd(t, base) == q
  {
    Succ(q, base);
    if t >= q * base {
      QuotientIs(t, base, q);
      QuotientIs(t + q, base, q);
    } else {
      QuotientIs(t, base, q - 1);
      QuotientIs(t + (q - 1), base, q);
    }
  }

  /** MAIN RESULT. For every even base and every x whose biased value fits in two
      digits of that base, the shifts and additions give x divided by base - 1 with
      the other rounding constant. */
  lemma {:induction false} ShiftAddDivides(base: int, x: int)
    requires base >= 2 && base % 2 == 0 && 0 <= x && x + base / 2 < base * base
    ensures ShiftAdd(x + base / 2, base) == (x + (base - 2) / 2) / (base - 1)
  {
    var d, t := base - 1, x + base / 2;
    var q := (t - 1) / d;
    DivBounds(t - 1, d);
    Succ(q, base);
    if q > base {
      MulLe(base + 1, q, d);
      Succ(base, d);
      Succ(base, base);
      assert false;
    }
    ShiftAddIs(base, t, q);
  }

  /** The rounded quotient is the nearest integer, and the only one: base - 1 is odd,
      so there are no ties. */
  lemma {:induction false} RoundedIsNearest(base: int, x: int, r: int)
    requires base >= 2 && base % 2 == 0
    ensures IsNearest(r, x, base - 1) <==> r == (x + (base - 2) / 2) / (base - 1)
  {
    var d, h := base - 1, (base - 2) / 2;
    DivBounds(x + h, d);
    if IsNearest(r, x, d) { QuotientIs(x + h, d, r); }
  }

  // ----- blending

  predicate Samples(m: int, fg: int, alpha: int, bg: int) {
    0 <= fg <= m && 0 <= alpha <= m && 0 <= bg <= m
  }

  lemma {:induction false} BlendIsBetween(m: int, fg: int, alpha: int, bg: int)
    requires Samples(m, fg, alpha, bg)
    ensures fg <= bg ==> fg * m <= Blend(m, fg, alpha, bg) <= bg * m
    ensures bg <= fg ==> bg * m <= Blend(m, fg, alpha, bg) <= fg * m
    ensures 0 <= Blend(m, fg, alpha, bg) <= m * m
  {
    Distribute(bg, m, alpha);
    Distribute(fg, m, alpha);
    if fg <= bg {
      MulLe(fg, bg, alpha);
      MulLe(fg, bg, m - alpha);
    } else {
      MulLe(bg, fg, alpha);
      MulLe(bg, fg, m - alpha);
    }
    MulLe(0, fg, m);
    MulLe(fg, m, m);
    MulLe(0, bg, m);
    MulLe(bg, m, m);
  }

  /** The 16-bit word holds every intermediate of the 8-bit macros. */
  lemma {:induction false} Fits16(x: int)
    requires 0 <= x <= 255 * 255
    ensures var t := x + 128;
      && t <= 0xFFFF && t + t / 0x100 <= 0xFFFF
      && U8((U16(t) + U16(t) / 0x100) / 0x100) == (x + 127) / 255 == U8((x + 127) / 255)
  {
    ShiftAddDivides(0x100, x);
    assert U16(x + 128) == x + 128;
  }

  /** Both 8-bit macros, for all samples: no intermediate leaves 16 bits, so nothing
      wraps, and both give the one integer nearest to the exact blend. */
  lemma {:induction false} CompositesAgree(fg: Byte, alpha: Byte, bg: Byte)
    ensures var t := Blend(255, fg, alpha, bg) + 128; 0 <= t <= 0xFFFF && t + t / 0x100 <= 0xFFFF
    ensures CompositeNoDiv(fg, alpha, bg) == CompositeDiv(fg, alpha, bg)
    ensures forall r: int :: IsNearest(r, Blend(255, fg, alpha, bg), 255) <==> r == CompositeNoDiv(fg, alpha, bg)
  {
    var x := Blend(255, fg, alpha, bg);
    BlendIsBetween(255, fg, alpha, bg);
    Fits16(x);
    forall r: int ensures IsNearest(r, x, 255) <==> r == (x + 127) / 255 { RoundedIsNearest(0x100, x, r); }
  }

  /** The 32-bit word holds every intermediate of the 16-bit macros. */
  lemma {:induction false} Fits32(x: int)
    requires 0 <= x <= 65535 * 65535
    ensures var t := x + 32768;
      && t <= 0xFFFF_FFFF && t + t / 0x1_0000 <= 0xFFFF_FFFF
      && U16(U32(U32(t) + U32(t) / 0x1_0000) / 0x1_0000) == (x + 32767) / 65535 == U16(U32(x + 32767) / 65535)
  {
    var t := x + 32768;
    ShiftAddDivides(0x1_0000, x);
    assert U32(t) == t && U32(t + t / 0x1_0000) == t + t / 0x1_0000;
    assert U32(x + 32767) == x + 32767;
  }

  lemma {:induction false} Composites16Agree(fg: Word16, alpha: Word16, bg: Word16)
    ensures var t := Blend(65535, fg, alpha, bg) + 32768; 0 <= t <= 0xFFFF_FFFF && t + t / 0x1_0000 <= 0xFFFF_FFFF
    ensures Composite16NoDiv(fg, alpha, bg) == Composite16Div(fg, alpha, bg)
    ensures forall r: int :: IsNearest(r, Blend(65535, fg, alpha, bg), 65535) <==> r == Composite16NoDiv(fg, alpha, bg)
  {
    var x := Blend(65535, fg, alpha, bg);
    BlendIsBetween(65535, fg, alpha, bg);
    Fits32(x);
    forall r: int ensures IsNearest(r, x, 65535) <==> r == (x + 32767) / 65535 { RoundedIsNearest(0x1_0000, x, r); }
  }

  /** What rounding to the nearest keeps of the exact blend, for an odd maximum m:
      it stays between the two samples, is exact at both ends, moves towards fg as
      alpha grows, and treats fg and bg alike. */
  lemma {:induction false} NearestBlendLaws(m: int, fg: int, alpha: int, alpha': int, bg: int, r: int, r': int)
    requires m > 0 && m % 2 == 1 && Samples(m, fg, alpha, bg) && alpha <= alpha' <= m
    requires IsNearest(r, Blend(m, fg, alpha, bg), m) && IsNearest(r', Blend(m, fg, alpha', bg), m)
    ensures if fg <= bg then fg <= r <= bg else bg <= r <= fg
    ensures alpha == 0 ==> r == bg
    ensures alpha == m ==> r == fg
    ensures if fg <= bg then r' <= r else r <= r'
    ensures IsNearest(r, Blend(m, bg, m - alpha, fg), m)
  {
    var x, x' := Blend(m, fg, alpha, bg), Blend(m, fg, alpha', bg);
    BlendIsBetween(m, fg, alpha, bg);
    BlendGrows(m, fg, alpha, alpha', bg);
    NearestIsMonotone(m, fg * m, x, fg, r);
    NearestIsMonotone(m, x, fg * m, r, fg);
    NearestIsMonotone(m, bg * m, x, bg, r);
    NearestIsMonotone(m, x, bg * m, r, bg);
    NearestIsMonotone(m, x, x', r, r');
    NearestIsMonotone(m, x', x, r', r);
  }

  /** One step of alpha moves the exact blend by the difference of the samples. */
  lemma {:induction false} BlendSteps(m: int, fg: int, alpha: int, bg: int)
    ensures Blend(m, fg, alpha + 1, bg) - Blend(m, fg, alpha, bg) == fg - bg
    ensures Blend(m, fg, alpha, bg) == m * bg + alpha * (fg - bg)
  {
    Succ(fg, alpha);
    Succ(bg, m - alpha);
    Distribute(bg, m, alpha);
    Distribute(alpha, fg, bg);
  }

  lemma {:induction false} BlendGrows(m: int, fg: int, alpha: int, alpha': int, bg: int)
    requires alpha <= alpha'
    ensures if fg <= bg then Blend(m, fg, alpha', bg) <= Blend(m, fg, alpha, bg)
            else Blend(m, fg, alpha, bg) <= Blend(m, fg, alpha', bg)
    ensures Blend(m, bg, m - alpha, fg) == Blend(m, fg, alpha, bg)
    ensures Blend(m, fg, 0, bg) == bg * m && Blend(m, fg, m, bg) == fg * m
  {
    var step := alpha' - alpha;
    Distribute(fg, alpha', alpha);
    Distribute(bg, m - alpha, m - alpha');
    if fg <= bg { MulLe(fg, bg, step); } else { MulLe(bg, fg, step); }
  }

  lemma {:induction false} NearestIsMonotone(m: int, x: int, y: int, r: int, s: int)
    requires m > 0 && m % 2 == 1 && IsNearest(r, x, m) && IsNearest(s, y, m)
    ensures x <= y ==> r <= s
  {
    if r > s { MulLe(s + 1, r, m); Succ(s, m); }
  }

  // ----- the compositing laws of section 13.16 of the PNG specification

  /** Compositing rounds (alpha * fg + (255 - alpha) * bg) / 255 to the nearest integer:
      255 times the result is at most half of that away, and no other integer is so near. */
  lemma {:induction false} CompositeIsNearest(fg: Byte, alpha: Byte, bg: Byte, r: int)
    ensures r == CompositeNoDiv(fg, alpha, bg) <==> -255 <= 2 * (alpha * fg + (255 - alpha) * bg - 255 * r) <= 255
  {
    CompositesAgree(fg, alpha, bg);
    assert Blend(255, fg, alpha, bg) == alpha * fg + (255 - alpha) * bg;
    assert IsNearest(r, Blend(255, fg, alpha, bg), 255) <==> r == CompositeNoDiv(fg, alpha, bg);
  }

  lemma {:induction false} Composite16IsNearest(fg: Word16, alpha: Word16, bg: Word16, r: int)
    ensures r == Composite16NoDiv(fg, alpha, bg) <==>
      -65535 <= 2 * (alpha * fg + (65535 - alpha) * bg - 65535 * r) <= 65535
  {
    Composites16Agree(fg, alpha, bg);
    assert Blend(65535, fg, alpha, bg) == alpha * fg + (65535 - alpha) * bg;
    assert IsNearest(r, Blend(65535, fg, alpha, bg), 65535) <==> r == Composite16NoDiv(fg, alpha, bg);
  }

  /** The 8-bit macro stays between its samples and is exact at both ends. */
  lemma {:induction false} CompositeIsBetween(fg: Byte, alpha: Byte, bg: Byte)
    ensures var r := CompositeNoDiv(fg, alpha, bg);
      && (if fg <= bg then fg <= r <= bg else bg <= r <= fg)
      && (alpha == 0 ==> r == bg) && (alpha == 255 ==> r == fg)
  {
    CompositesAgree(fg, alpha, bg);
    var r: int := CompositeNoDiv(fg, alpha, bg);
    NearestBlendLaws(255, fg, alpha, alpha, bg, r, r);
  }

  /** It moves towards fg as alpha grows. */
  lemma {:induction false} CompositeGrows(fg: Byte, alpha: Byte, alpha': Byte, bg: Byte)
    requires alpha <= alpha'
    ensures var r, r' := CompositeNoDiv(fg, alpha, bg), CompositeNoDiv(fg, alpha', bg);
      if fg <= bg then r' <= r else r <= r'
  {
    CompositesAgree(fg, alpha, bg);
    CompositesAgree(fg, alpha', bg);
    var r: int, r': int := CompositeNoDiv(fg, alpha, bg), CompositeNoDiv(fg, alpha', bg);
    NearestBlendLaws(255, fg, alpha, alpha', bg, r, r');
  }

  /** It treats fg and bg alike. */
  lemma {:induction false} CompositeSwaps(fg: Byte, alpha: Byte, bg: Byte)
    ensures CompositeNoDiv(bg, 255 - alpha, fg) == CompositeNoDiv(fg, alpha, bg)
  {
    CompositesAgree(fg, alpha, bg);
    CompositesAgree(bg, 255 - alpha, fg);
    var r: int := CompositeNoDiv(fg, alpha, bg);
    NearestBlendLaws(255, fg, alpha, alpha, bg, r, r);
  }

  /** The 16-bit macro stays between its samples and is exact at both ends. */
  lemma {:induction false} Composite16IsBetween(fg: Word16, alpha: Word16, bg: Word16)
    ensures var r := Composite16NoDiv(fg, alpha, bg);
      && (if fg <= bg then fg <= r <= bg else bg <= r <= fg)
      && (alpha == 0 ==> r == bg) && (alpha == 65535 ==> r == fg)
  {
    Composites16Agree(fg, alpha, bg);
    var r: int := Composite16NoDiv(fg, alpha, bg);
    NearestBlendLaws(65535, fg, alpha, alpha, bg, r, r);
  }

  /** It moves towards fg as alpha grows. */
  lemma {:induction false} Composite16Grows(fg: Word16, alpha: Word16, alpha': Word16, bg: Word16)
    requires alpha <= alpha'
    ensures var r, r' := Composite16NoDiv(fg, alpha, bg), Composite16NoDiv(fg, alpha', bg);
      if fg <= bg then r' <= r else r <= r'
  {
    Composites16Agree(fg, alpha, bg);
    Composites16Agree(fg, alpha', bg);
    var r: int, r': int := Composite16NoDiv(fg, alpha, bg), Composite16NoDiv(fg, alpha', bg);
    NearestBlendLaws(65535, fg, alpha, alpha', bg, r, r');
  }

  /** It treats fg and bg alike. */
  lemma {:induction false} Composite16Swaps(fg: Word16, alpha: Word16, bg: Word16)
    ensures Composite16NoDiv(bg, 65535 - alpha, fg) == Composite16NoDiv(fg, alpha, bg)
  {
    Composites16Agree(fg, alpha, bg);
    Composites16Agree(bg, 65535 - alpha, fg);
    var r: int := Composite16NoDiv(fg, alpha, bg);
    NearestBlendLaws(65535, fg, alpha, alpha, bg, r, r);
  }

  // ----- bytes in a row

  /** PNG_ROWBYTES on png_uint_32. */
  function RowBytes(pixelBits: nat, width: nat): nat {
    if pixelBits >= 8 then U32(width * (U32(pixelBits) / 8))
    else U32(U32(width * U32(pixelBits)) + 7) / 8
  }

  /** The fewest bytes that hold all the bits of a row: section 7.2 of the PNG
      specification packs pixels without gaps and rounds the row up to a byte. */
  predicate HoldsRow(bytes: nat, pixelBits: nat, width: nat) {
    8 * bytes >= width * pixelBits && 8 * (bytes - 1) < width * pixelBits
  }

  /** The bits of a row, split at the whole bytes of each pixel. */
  lemma {:induction false} SplitBits(pixelBits: nat, width: nat)
    ensures width * pixelBits == 8 * (width * (pixelBits / 8)) + width * (pixelBits % 8)
    ensures pixelBits % 8 > 0 ==> width * (pixelBits % 8) >= width
  {
    var b, rest := pixelBits / 8, pixelBits % 8;
    assert pixelBits == 8 * b + rest;
    calc {
      width * pixelBits;
      width * (8 * b + rest);
      width * (8 * b) + width * rest;
      8 * (width * b) + width * rest;
    }
    if rest > 0 { MulLe(1, rest, width); }
  }

  /** RowBytes is right exactly when the depth packs evenly and nothing wraps, for
      every depth and every non-empty row of 32-bit width; an empty row takes no bytes. */
  lemma {:induction false} RowBytesIsExact(pixelBits: nat, width: nat)
    requires 0 < pixelBits < 0x1_0000_0000 && width < 0x1_0000_0000
    ensures HoldsRow(RowBytes(pixelBits, width), pixelBits, width) <==>
      (width == 0 || (if pixelBits < 8 then width * pixelBits + 7 < 0x1_0000_0000
                      else pixelBits % 8 == 0 && width * (pixelBits / 8) < 0x1_0000_0000))
  {
    assert U32(pixelBits) == pixelBits;
    if width == 0 {
      assert RowBytes(pixelBits, width) == 0;
    } else if pixelBits >= 8 {
      SplitBits(pixelBits, width);
      WideRow(width * (pixelBits / 8), width * (pixelBits % 8), width);
    } else {
      MulLe(1, width, pixelBits);
      NarrowRow(width * pixelBits);
    }
  }

  lemma {:induction false} WideRow(whole: nat, rest: nat, width: nat)
    requires rest == 0 || rest >= width > 0
    ensures (8 * U32(whole) >= 8 * whole + rest && 8 * (U32(whole) - 1) < 8 * whole + rest)
       <==> (rest == 0 && whole < 0x1_0000_0000)
  {
  }

  lemma {:induction false} NarrowRow(bits: nat)
    requires bits > 0
    ensures var bytes := U32(U32(bits) + 7) / 8;
      (8 * bytes >= bits && 8 * (bytes - 1) < bits) <==> bits + 7 < 0x1_0000_0000
  {
  }

  const PNG_USER_WIDTH_MAX := 1000000

  /** So it is exact for every PNG the library accepts by default: depths of 1, 2, 4 or
      a multiple of 8 up to 64, and widths up to PNG_USER_WIDTH_MAX. */
  lemma {:induction false} RowBytesOfAcceptedImages(pixelBits: nat, width: nat)
    requires pixelBits == 1 || pixelBits == 2 || pixelBits == 4 || (pixelBits % 8 == 0 && 0 < pixelBits <= 64)
    requires width <= PNG_USER_WIDTH_MAX
    ensures HoldsRow(RowBytes(pixelBits, width), pixelBits, width)
  {
    MulLe(width, PNG_USER_WIDTH_MAX, pixelBits);
    MulLe(width, PNG_USER_WIDTH_MAX, pixelBits / 8);
    RowBytesIsExact(pixelBits, width);
  }
}
