/** Address arithmetic of `tlsf_memalign`: the padded request, and the gap in front of the aligned block. */
module TlsfAlign {
  import opened Bits
  import opened Masks
  import opened TlsfMapping

  /** `size_with_gap`: room for the request, the alignment and one smallest free block. */
  function SizeWithGap(adjust: nat, align: nat): nat
    requires 0 < align < SIZE_T_RANGE
  {
    AdjustRequestSize((adjust + align + HEADER_SIZE) % 0x1_0000_0000_0000_0000, align)
  }

  lemma Pow2Bounds(k: nat)
    requires k < 64
    ensures 1 <= Pow2(k) && 2 * Pow2(k) <= SIZE_T_RANGE
  {
    Pow2Values();
    Pow2Mono(k + 1, 64);
  }

  lemma ModOfMultiple(a: nat, p: nat, q: nat)
    requires p > 0 && q > 0 && a % (p * q) == 0
    ensures a % p == 0
  {
    var d := a / (p * q);
    assert a == (p * q) * d;
    assert (p * q) * d == p * (q * d);
    DivModUnique(a, p, q * d, 0);
  }

  lemma EightDivides(a: nat, k: nat)
    requires k >= 3 && a % Pow2(k) == 0
    ensures a % 8 == 0
  {
    Pow2Sum(3, k - 3);
    assert Pow2(3) == 8;
    ModOfMultiple(a, 8, Pow2(k - 3));
  }

  predicate IsMultiple(m: nat, p: nat)
    requires p > 0
  {
    m % p == 0
  }

  /** Up to an alignment of 2^62 the padded size is the least multiple of the alignment with room for request,
      alignment and one smallest free block; it is zero exactly when that multiple is no size any more. */
  lemma PaddedCovers(adjust: nat, k: nat)
    requires 24 <= adjust < BLOCK_SIZE_MAX && 3 < k <= 62
    ensures 0 < Pow2(k) < SIZE_T_RANGE
    ensures var p, x, g := Pow2(k), adjust + Pow2(k) + 32, SizeWithGap(adjust, Pow2(k));
      && (g != 0 ==> IsMultiple(g, p) && g % 8 == 0 && x <= g < x + p && g < BLOCK_SIZE_MAX)
      && (forall m: nat | x <= m && IsMultiple(m, p) :: if g == 0 then m >= BLOCK_SIZE_MAX else m >= g)
      && (g == 0 ==> x + p > BLOCK_SIZE_MAX)
  {
    Pow2Bounds(k);
    QuarterRange(k);
    var p, x := Pow2(k), adjust + Pow2(k) + 32;
    NoWrap(x);
    AlignUpRounds(x, k);
    var up := AlignUp(x, p);
    EightDivides(up, k);
    forall m: nat | x <= m && IsMultiple(m, p) ensures m >= up {
      if m < up { NextMultiple(m, up, p); }
    }
  }

  lemma NoWrap(x: nat)
    requires x < SIZE_T_RANGE
    ensures x % 0x1_0000_0000_0000_0000 == x
  {}

  lemma QuarterRange(k: nat)
    requires k <= 62
    ensures 4 * Pow2(k) <= SIZE_T_RANGE
  {
    Pow2Values();
    Pow2Mono(k + 2, 64);
    assert Pow2(k + 2) == 2 * Pow2(k + 1) == 4 * Pow2(k);
  }

  /** At 2^63 the sum wraps, the padded size comes out as the 24-byte minimum whatever was asked for. */
  lemma PaddedWraps(adjust: nat)
    requires 24 <= adjust < BLOCK_SIZE_MAX
    ensures Pow2(63) < SIZE_T_RANGE && SizeWithGap(adjust, Pow2(63)) == BLOCK_SIZE_MIN
  {
    Pow2Values();
    assert Pow2(64) == 2 * Pow2(63);
    WrapAt(adjust, 64);
  }

  lemma WrapAt(adjust: nat, n: nat)
    requires n == 64 && 24 <= adjust < BLOCK_SIZE_MAX
    requires Pow2(n) == SIZE_T_RANGE && 2 * Pow2(n - 1) == SIZE_T_RANGE
    ensures SizeWithGap(adjust, Pow2(n - 1)) == BLOCK_SIZE_MIN
  {
    hide Pow2, Fls;
    var p := Pow2(n - 1);
    assert (adjust + p + HEADER_SIZE) % 0x1_0000_0000_0000_0000 == adjust + p + HEADER_SIZE;
    var y := adjust + p + HEADER_SIZE + (p - 1);
    assert y % 0x1_0000_0000_0000_0000 == adjust + 31;
    assert OnesFrom(n, n - 1) == p;
    AndOnesFrom(adjust + 31, n, n - 1);
    DivModUnique(adjust + 31, p, 0, adjust + 31);
  }

  /** The padding guarantee in one line: it holds for every power of two but the last. */
  lemma PaddedCoversExactly(adjust: nat, k: nat)
    requires 24 <= adjust < BLOCK_SIZE_MAX && 3 < k < 64
    ensures 0 < Pow2(k) < SIZE_T_RANGE
    ensures var p, x, g := Pow2(k), adjust + Pow2(k) + 32, SizeWithGap(adjust, Pow2(k));
      (if g == 0 then x + p > BLOCK_SIZE_MAX else IsMultiple(g, p) && x <= g < x + p && g < BLOCK_SIZE_MAX) <==> k <= 62
  {
    Pow2Bounds(k);
    if k <= 62 {
      PaddedCovers(adjust, k);
    } else {
      PaddedWraps(adjust);
      Pow2Values();
      assert Pow2(64) == 2 * Pow2(63);
    }
  }

  /** Bytes skipped at the front of a free block whose payload starts at address `ptr`. */
  function LeadingGap(ptr: nat, align: nat): int
    requires 0 < align < SIZE_T_RANGE
  {
    var aligned := AlignUp(ptr, align);
    var gap := aligned - ptr;
    if 0 < gap < HEADER_SIZE then
      var gapRemain := HEADER_SIZE - gap;
      var offset := if gapRemain > align then gapRemain else align;
      AlignUp(aligned + offset, align) - ptr
    else gap
  }

  lemma AlignedStays(a: nat, k: nat)
    requires k < 62 && a % Pow2(k) == 0 && a + Pow2(k) <= SIZE_T_RANGE
    ensures Pow2(k) < SIZE_T_RANGE && AlignUp(a, Pow2(k)) == a
  {
    AlignUpRounds(a, k);
    var p, b := Pow2(k), AlignUp(a, Pow2(k));
    SameMultiple(a, b, p);
  }

  lemma SameMultiple(a: nat, b: nat, p: nat)
    requires p > 0 && a % p == 0 && b % p == 0 && a <= b < a + p
    ensures a == b
  {
    var d, e := a / p, b / p;
    assert a == p * d && b == p * e;
    if d < e { MulStep(d, e, p); }
    if e < d { MulStep(e, d, p); }
  }

  lemma SumMultiple(a: nat, p: nat)
    requires p > 0 && a % p == 0
    ensures (a + p) % p == 0
  {
    assert a == p * (a / p);
    DivModUnique(a + p, p, a / p + 1, 0);
  }

  /** The gap is zero or large enough for a free block, the address after it is aligned, and the padding
      always leaves room for it. */
  lemma GapIsLegal(ptr: nat, k: nat)
    requires k < 40 && ptr % 8 == 0 && ptr < 0x4000_0000_0000_0000
    ensures 0 < Pow2(k) < SIZE_T_RANGE
    ensures GoodGap(ptr, Pow2(k)) && (k <= 3 ==> LeadingGap(ptr, Pow2(k)) == 0)
  {
    Pow2Bounds(k);
    SmallAlign(k);
    if k <= 3 {
      SmallPowersDivide(ptr, k);
      AlignedStays(ptr, k);
    } else {
      BigAlign(ptr, k);
    }
  }

  /** No smaller gap would do: at any aligned address from ptr on that leaves no gap, or one a block fits in,
      the skip has ended. */
  lemma GapIsLeast(ptr: nat, k: nat, m: nat)
    requires k < 40 && ptr % 8 == 0 && ptr < 0x4000_0000_0000_0000
    ensures 0 < Pow2(k) < SIZE_T_RANGE
    ensures m % Pow2(k) == 0 && (m == ptr || m >= ptr + HEADER_SIZE) ==> ptr + LeadingGap(ptr, Pow2(k)) <= m
  {
    Pow2Bounds(k);
    SmallAlign(k);
    if m % Pow2(k) == 0 && (m == ptr || m >= ptr + HEADER_SIZE) { NoSmallerGap(ptr, k, m); }
  }

  lemma NoSmallerGap(ptr: nat, k: nat, m: nat)
    requires k < 40 && 0 < Pow2(k) <= 0x80_0000_0000 && ptr < 0x4000_0000_0000_0000
    requires m % Pow2(k) == 0 && (m == ptr || m >= ptr + HEADER_SIZE)
    ensures ptr + LeadingGap(ptr, Pow2(k)) <= m
  {
    hide Pow2, AlignUp, Fls;
    var p := Pow2(k);
    AlignUpRounds(ptr, k);
    var a := AlignUp(ptr, p);
    LeastMultiple(ptr, a, m, p);
    if 0 < a - ptr < HEADER_SIZE {
      var offset := if HEADER_SIZE - (a - ptr) > p then HEADER_SIZE - (a - ptr) else p;
      AlignUpRounds(a + offset, k);
      var b := AlignUp(a + offset, p);
      GapDefinition(ptr, p, a, b);
      NextMultiple(a, m, p);
      LeastMultiple(a + offset, b, m, p);
    } else {
      GapDefinition(ptr, p, a, a);
    }
  }

  /** Less than p above x, a multiple of p is the least from x on. */
  lemma LeastMultiple(x: nat, a: nat, m: nat, p: nat)
    requires p > 0 && a % p == 0 && m % p == 0 && x <= a < x + p && x <= m
    ensures a <= m
  {
    if m < a { NextMultiple(m, a, p); }
  }

  lemma SmallPowersDivide(ptr: nat, k: nat)
    requires k <= 3 && ptr % 8 == 0
    ensures ptr % Pow2(k) == 0
  {
    Pow2Sum(k, 3 - k);
    assert Pow2(3) == 8;
    ModOfMultiple(ptr, Pow2(k), Pow2(3 - k));
  }

  lemma BigAlign(ptr: nat, k: nat)
    requires 3 < k < 40 && Pow2(k) <= 0x80_0000_0000 && ptr % 8 == 0 && ptr < 0x4000_0000_0000_0000
    ensures GoodGap(ptr, Pow2(k))
  {
    var p := Pow2(k);
    AlignUpRounds(ptr, k);
    var a := AlignUp(ptr, p);
    EightDivides(a, k);
    if 0 < a - ptr < HEADER_SIZE {
      SecondGap(ptr, k, p, a);
    } else {
      FirstGap(ptr, p, a);
    }
  }

  /** The gap is empty or long enough for a block, and ends at an aligned address. */
  ghost predicate GoodGap(ptr: nat, p: nat)
    requires 0 < p < SIZE_T_RANGE
  {
    var g := LeadingGap(ptr, p);
    g >= 0 && g % 8 == 0 && (g == 0 || HEADER_SIZE <= g <= p + 24) && (ptr + g) % p == 0
  }

  lemma FirstGap(ptr: nat, p: nat, a: nat)
    requires 0 < p < SIZE_T_RANGE && ptr % 8 == 0 && a == AlignUp(ptr, p) && a % p == 0 && a % 8 == 0 && ptr <= a < ptr + p
    requires !(0 < a - ptr < HEADER_SIZE)
    ensures GoodGap(ptr, p)
  {
    GapDefinition(ptr, p, a, a);
    Eights(ptr, a);
    assert ptr + (a - ptr) == a;
  }

  /** A first gap too short for a block is widened to the next aligned address that leaves room for one. */
  lemma SecondGap(ptr: nat, k: nat, p: nat, a: nat)
    requires 3 < k < 40 && p == Pow2(k) <= 0x80_0000_0000 && ptr % 8 == 0 && ptr < 0x4000_0000_0000_0000
    requires a == AlignUp(ptr, p) && a % p == 0 && a % 8 == 0 && 0 < a - ptr < HEADER_SIZE && a - ptr < p
    ensures GoodGap(ptr, p)
  {
    hide Pow2, AlignUp, Fls;
    var remain := HEADER_SIZE - (a - ptr);
    var offset := if remain > p then remain else p;
    AlignUpRounds(a + offset, k);
    var b := AlignUp(a + offset, p);
    EightDivides(b, k);
    SmallGap(ptr, a, b, k);
    GapDefinition(ptr, p, a, b);
  }

  /** `LeadingGap` in terms of the two rounded addresses. */
  lemma GapDefinition(ptr: nat, p: nat, a: nat, b: nat)
    requires 0 < p < SIZE_T_RANGE && a == AlignUp(ptr, p)
    requires 0 < a - ptr < HEADER_SIZE ==>
      b == AlignUp(a + if HEADER_SIZE - (a - ptr) > p then HEADER_SIZE - (a - ptr) else p, p)
    requires !(0 < a - ptr < HEADER_SIZE) ==> b == a
    ensures LeadingGap(ptr, p) == b - ptr
  {}

  lemma SmallAlign(k: nat)
    requires k < 40
    ensures Pow2(k) <= 0x80_0000_0000
  {
    Pow2Mono(k, 39);
    Pow2Sum(32, 7);
    Pow2Values();
    assert Pow2(7) == 128;
  }

  lemma SmallGap(ptr: nat, a: nat, b: nat, k: nat)
    requires 3 < k && ptr % 8 == 0 && a % 8 == 0 && b % 8 == 0
    requires a % Pow2(k) == 0 && b % Pow2(k) == 0 && 0 < a - ptr < HEADER_SIZE && a - ptr < Pow2(k)
    requires var remain := HEADER_SIZE - (a - ptr); var offset := if remain > Pow2(k) then remain else Pow2(k);
      a + offset <= b < a + offset + Pow2(k)
    ensures (b - ptr) % 8 == 0 && HEADER_SIZE <= b - ptr <= Pow2(k) + 24
  {
    var p := Pow2(k);
    var gap := a - ptr;
    MultiplesOfEight(ptr, a, b);
    Pow2Mono(4, k);
    assert Pow2(4) == 16;
    SumMultiple(a, p);
    assert Pow2(5) == 32;
    if HEADER_SIZE - gap > p {
      if k >= 5 { Pow2Mono(5, k); }
      SumMultiple(a + p, p);
      NextMultiple(a + p, b, p);
      SameMultiple(a + p + p, b, p);
    } else {
      SameMultiple(a + p, b, p);
    }
  }

  lemma MultiplesOfEight(ptr: nat, a: nat, b: nat)
    requires ptr % 8 == 0 && a % 8 == 0 && b % 8 == 0
    ensures (a - ptr) % 8 == 0 && (b - ptr) % 8 == 0
    ensures 0 < a - ptr < 32 ==> a - ptr == 8 || a - ptr == 16 || a - ptr == 24
  {
    Eights(ptr, a);
    Eights(ptr, b);
    FewEights(a - ptr);
  }

  lemma Eights(x: int, y: int)
    requires x % 8 == 0 && y % 8 == 0
    ensures (y - x) % 8 == 0
  {
    assert y - x == 8 * (y / 8 - x / 8);
  }

  lemma FewEights(d: int)
    requires d % 8 == 0
    ensures 0 < d < 32 ==> d == 8 || d == 16 || d == 24
  {
    assert d == 8 * (d / 8);
  }
}
