/** Size classes of the TLSF allocator (64-bit build): request rounding, the two-level mapping,
    and the good-fit guarantee the search relies on. */
module TlsfMapping {
  import opened Bits
  import opened Masks

  const ALIGN_SIZE: nat := 8
  const SL_INDEX_COUNT: nat := 32
  const FL_INDEX_COUNT: nat := 25
  const SMALL_BLOCK_SIZE: nat := 256
  const HEADER_OVERHEAD: nat := 8
  const HEADER_SIZE: nat := 32
  const BLOCK_SIZE_MIN: nat := 24
  const BLOCK_SIZE_MAX: nat := 0x1_0000_0000
  const SIZE_T_RANGE: nat := 0x1_0000_0000_0000_0000

  /** `adjust_request_size`: round up, at least the minimum block, zero when out of range. */
  function AdjustRequestSize(size: nat, align: nat): nat
    requires 0 < align < SIZE_T_RANGE
  {
    if size == 0 then 0
    else
      var aligned := AlignUp(size, align);
      if aligned < BLOCK_SIZE_MAX then (if aligned > BLOCK_SIZE_MIN then aligned else BLOCK_SIZE_MIN) else 0
  }

  /** `tlsf_fls_sizet`: the high half decides when it is nonzero. */
  function FlsSizeT(size: nat): int {
    if size / 0x1_0000_0000 != 0 then 32 + Fls(size / 0x1_0000_0000) else Fls(size % 0x1_0000_0000)
  }

  /** Width of the second-level subdivisions around a size: 2^(fls - 5). */
  function Step(size: nat): (p: nat)
    requires size >= SMALL_BLOCK_SIZE
    ensures p >= 1
  {
    FlsSizeTAtLeast8(size);
    Pow2(FlsSizeT(size) - 5)
  }

  /** `size >> k` with p = 2^k. */
  function Quotient(x: nat, p: nat): (q: nat)
    requires p > 0
    ensures p * q <= x < p * q + p
  {
    QuotientBounds(x, p);
    x / p
  }

  lemma QuotientBounds(x: nat, p: nat)
    requires p > 0
    ensures x / p >= 0 && p * (x / p) <= x < p * (x / p) + p
  {
    assert x == p * (x / p) + x % p;
    if x / p < 0 { MulLe(x / p, -1, p); }
  }

  datatype Class = Class(fl: int, sl: nat)

  function MappingInsert(size: nat): Class {
    if size < SMALL_BLOCK_SIZE then Class(0, size / 8)
    else Class(FlsSizeT(size) - 7, Xor(Quotient(size, Step(size)), 32))
  }

  function MappingSearch(size: nat): Class {
    if size >= SMALL_BLOCK_SIZE then MappingInsert(size + (Step(size) - 1)) else MappingInsert(size)
  }

  predicate InRange(c: Class) {
    0 <= c.fl < FL_INDEX_COUNT && c.sl < SL_INDEX_COUNT
  }

  /** Lexicographic order on classes, the order in which the bitmaps are searched. */
  predicate Below(a: Class, b: Class) {
    a.fl < b.fl || (a.fl == b.fl && a.sl < b.sl)
  }

  /** Smallest size of a class, and the first size beyond it. */
  function ClassMin(c: Class): nat
    requires c.fl >= 0
  {
    if c.fl == 0 then 8 * c.sl else (32 + c.sl) * Pow2(c.fl + 2)
  }

  function ClassEnd(c: Class): nat
    requires c.fl >= 0
  {
    if c.fl == 0 then 8 * c.sl + 8 else (33 + c.sl) * Pow2(c.fl + 2)
  }

  // ----- rounding of requests

  /** A request is granted room for at least its size exactly when it is at most 2^64 - 8: the last
      seven sizes wrap to zero in `align_up` and come back as the 24-byte minimum. */
  lemma AdjustCoversRequest(size: nat)
    requires size < SIZE_T_RANGE
    ensures var a := AdjustRequestSize(size, ALIGN_SIZE);
      && (size <= SIZE_T_RANGE - 8 <==> (a == 0 || a >= size))
      && (size <= SIZE_T_RANGE - 8 ==> (a == 0 <==> size == 0 || size > BLOCK_SIZE_MAX - 8))
      && (a != 0 ==> a % 8 == 0 && BLOCK_SIZE_MIN <= a < BLOCK_SIZE_MAX)
      && (size > SIZE_T_RANGE - 8 ==> a == BLOCK_SIZE_MIN)
      && (a != 0 && size <= SIZE_T_RANGE - 8 ==> a == BLOCK_SIZE_MIN || a < size + 8)
  {
    assert Pow2(3) == 8;
    if size <= SIZE_T_RANGE - 8 {
      AlignUpRounds(size, 3);
    } else {
      var y := (size + 7) % SIZE_T_RANGE;
      assert y == size + 7 - SIZE_T_RANGE;
      Pow2Values();
      AndOnesFrom(y, 64, 3);
      assert y < 8;
      assert OnesFrom(64, 3) == SIZE_T_RANGE - 8;
    }
  }

  // ----- the two-level mapping

  lemma {:induction false} FlsBelow(w: nat, n: nat)
    requires w < Pow2(n)
    ensures Fls(w) < n
  {
    if w > 0 { FlsBelow(w / 2, n - 1); }
  }

  lemma {:induction false} FlsAtLeast(w: nat, n: nat)
    requires w >= Pow2(n)
    ensures Fls(w) >= n
  {
    if n > 0 {
      FlsAtLeast(w / 2, n - 1);
    } else {
      FlsHighest(w);
    }
  }

  lemma FlsSizeTAtLeast8(size: nat)
    requires size >= SMALL_BLOCK_SIZE
    ensures FlsSizeT(size) >= 8
  {
    assert Pow2(8) == 256;
    if size / 0x1_0000_0000 == 0 {
      FlsAtLeast(size % 0x1_0000_0000, 8);
    } else {
      FlsHighest(size / 0x1_0000_0000);
    }
  }

  lemma Xor32(v: nat)
    requires 32 <= v < 64
    ensures Xor(v, 32) == v - 32
  {
    assert Pow2(5) == 32;
    XorTop(v, 5);
  }

  lemma {:induction false} XorTop(v: nat, n: nat)
    requires Pow2(n) <= v < 2 * Pow2(n)
    ensures Xor(v, Pow2(n)) == v - Pow2(n)
    decreases n
  {
    if n == 0 {
      assert Xor(1, 1) == 0;
    } else {
      XorDouble(v, Pow2(n - 1));
      XorTop(v / 2, n - 1);
    }
  }

  lemma XorDouble(v: nat, q: nat)
    requires q > 0
    ensures Xor(v, 2 * q) == 2 * Xor(v / 2, q) + v % 2
  {
    assert (2 * q) / 2 == q && (2 * q) % 2 == 0;
  }

  /** The window [32 * p, 64 * p) a size at or above 256 falls into, and its class. */
  lemma Window(size: nat) returns (f: nat, p: nat)
    requires SMALL_BLOCK_SIZE <= size < 2 * BLOCK_SIZE_MAX
    ensures 8 <= f <= 32 && (size < BLOCK_SIZE_MAX ==> f < 32) && f == FlsSizeT(size)
    ensures p == Pow2(f - 5) && 32 * p <= size < 64 * p
    ensures 32 <= Quotient(size, p) < 64
    ensures MappingInsert(size) == Class(f - 7, Quotient(size, p) - 32)
  {
    hide Pow2, FlsSizeT, Rounding;
    f, p := FlsWindow(size);
    DivWindow(size, p, 32, 64);
    Xor32(Quotient(size, p));
  }

  lemma FlsWindow(size: nat) returns (f: nat, p: nat)
    requires SMALL_BLOCK_SIZE <= size < 2 * BLOCK_SIZE_MAX
    ensures 8 <= f <= 32 && (size < BLOCK_SIZE_MAX ==> f < 32) && f == FlsSizeT(size)
    ensures p == Pow2(f - 5) && 32 * p <= size < 64 * p
  {
    FlsSizeTAtLeast8(size);
    FlsSizeTIsFls(size);
    f := FlsSizeT(size);
    p := Pow2(f - 5);
    FlsHighest(size);
    FlsUpper(size);
    Pow2Sum(5, f - 5);
    Pow2Small();
  }

  lemma FlsUpper(size: nat)
    requires size < 2 * BLOCK_SIZE_MAX
    ensures Fls(size) <= 32 && (size < BLOCK_SIZE_MAX ==> Fls(size) < 32)
  {
    Pow2Values();
    assert Pow2(33) == 2 * Pow2(32);
    FlsBelow(size, 33);
    if size < BLOCK_SIZE_MAX { FlsBelow(size, 32); }
  }

  lemma DivWindow(x: nat, p: nat, lo: nat, hi: nat)
    requires p > 0 && p * lo <= x < p * hi
    ensures lo <= Quotient(x, p) < hi
  {
    var v := Quotient(x, p);
    if v < lo { MulStep(v, lo, p); }
    if v >= hi { MulLe(hi, v, p); }
  }

  /** Every size below 2^32 has an in-range class, and lies in that class's interval. */
  lemma InsertClass(size: nat)
    requires size < BLOCK_SIZE_MAX
    ensures var c := MappingInsert(size); InRange(c) && ClassMin(c) <= size < ClassEnd(c)
  {
    if size >= SMALL_BLOCK_SIZE {
      var f, p := Window(size);
      DivWindow(size, p, 32, 64);
      ClassBounds(Class(f - 7, Quotient(size, p) - 32));
    }
  }

  lemma ClassBounds(c: Class)
    requires c.fl >= 1
    ensures ClassMin(c) == Pow2(c.fl + 2) * (32 + c.sl)
    ensures ClassEnd(c) == Pow2(c.fl + 2) * (32 + c.sl) + Pow2(c.fl + 2)
  {}

  /** Of the pool sizes `tlsf_add_pool` accepts, exactly those below 2^32 have a class; 2^32 itself maps one past
      the last. */
  lemma PoolClassInRange(size: nat)
    requires BLOCK_SIZE_MIN <= size <= BLOCK_SIZE_MAX && size % 8 == 0
    ensures InRange(MappingInsert(size)) <==> size < BLOCK_SIZE_MAX
    ensures size == BLOCK_SIZE_MAX ==> MappingInsert(size).fl == FL_INDEX_COUNT
  {
    if size < BLOCK_SIZE_MAX { InsertClass(size); } else { assert FlsSizeT(BLOCK_SIZE_MAX) == 32 + Fls(1); }
  }

  /** Intervals of distinct classes do not overlap and follow the class order. */
  lemma ClassesOrdered(a: Class, b: Class)
    requires a.fl >= 0 && a.sl < SL_INDEX_COUNT && b.sl < SL_INDEX_COUNT && Below(a, b)
    ensures ClassEnd(a) <= ClassMin(b)
  {
    if b.fl > 0 {
      ClassBounds(b);
      MulLe(32, 32 + b.sl, Pow2(b.fl + 2));
      if a.fl == 0 {
        Pow2Mono(3, b.fl + 2);
        assert Pow2(3) == 8;
      } else {
        ClassBounds(a);
        if a.fl == b.fl {
          MulStep(32 + a.sl, 32 + b.sl, Pow2(a.fl + 2));
        } else {
          Pow2Mono(a.fl + 3, b.fl + 2);
          MulLe(32 + a.sl, 63, Pow2(a.fl + 2));
        }
      }
    }
  }

  /** Size added by `mapping_search` before it looks up the class. */
  function Rounding(n: nat): nat {
    if n < SMALL_BLOCK_SIZE then 0 else Step(n) - 1
  }

  lemma RoundingIsSmall(n: nat)
    requires n < BLOCK_SIZE_MAX
    ensures n < SMALL_BLOCK_SIZE ==> Rounding(n) == 0
    ensures n >= SMALL_BLOCK_SIZE ==> 32 * Rounding(n) < n
  {
    if n >= SMALL_BLOCK_SIZE { var f, p := Window(n); }
  }

  /** Rounding a size up by less than one step moves it at most to the start of the next window. */
  lemma RoundedWindow(n: nat) returns (g: nat, q: nat)
    requires SMALL_BLOCK_SIZE <= n < BLOCK_SIZE_MAX
    ensures 8 <= g <= 32 && q == Pow2(g - 5)
    ensures var m := n + Rounding(n);
      && 32 <= Quotient(m, q) < 64
      && MappingSearch(n) == Class(g - 7, Quotient(m, q) - 32)
      && (q == Rounding(n) + 1 || (q > Rounding(n) && n < 32 * q && Quotient(m, q) == 32))
  {
    hide Pow2, MappingInsert, FlsSizeT, Quotient;
    var f, p := Window(n);
    var m := n + Rounding(n);
    g, q := Window(m);
    WindowOrder(f, g, p, q, n, m);
    if g == f + 1 { DivWindow(m, q, 32, 33); }
  }

  lemma WindowOrder(f: nat, g: nat, p: nat, q: nat, n: nat, m: nat)
    requires f >= 8 && g >= 8 && p == Pow2(f - 5) && q == Pow2(g - 5)
    requires 32 * p <= n < 64 * p && 32 * q <= m < 64 * q && n <= m < n + p
    ensures g == f || (g == f + 1 && q == 2 * p)
  {
    assert Pow2(f - 3) == 2 * Pow2(f - 4) == 4 * p;
    if g < f { Pow2Mono(g - 4, f - 5); }
    if g > f + 1 { Pow2Mono(f - 3, g - 5); }
  }

  /** The class found for a rounded-up size starts at or above the unrounded size. */
  lemma SearchClassMin(n: nat)
    requires n < BLOCK_SIZE_MAX && n % 8 == 0
    ensures var d := MappingSearch(n); d.fl >= 0 && d.sl < SL_INDEX_COUNT && n <= ClassMin(d) <= n + Rounding(n)
    ensures MappingSearch(n).fl <= FL_INDEX_COUNT
  {
    hide Pow2, Rounding;
    if n >= SMALL_BLOCK_SIZE {
      var g, q := RoundedWindow(n);
      ClassBounds(MappingSearch(n));
    }
  }

  /** Good fit, upwards: every block whose class is not below the search class is large enough. */
  lemma SearchFits(n: nat, size: nat)
    requires n < BLOCK_SIZE_MAX && n % 8 == 0 && size < BLOCK_SIZE_MAX
    requires !Below(MappingInsert(size), MappingSearch(n))
    ensures size >= n
  {
    InsertClass(size);
    SearchClassMin(n);
    var c, d := MappingInsert(size), MappingSearch(n);
    if Below(d, c) {
      ClassesOrdered(d, c);
      if d.fl > 0 { ClassBounds(d); }
    }
  }

  /** Good fit, downwards: a block whose class is below the search class is smaller than the request
      plus the rounding slack. */
  lemma SearchMissesOnlySmall(n: nat, size: nat)
    requires n < BLOCK_SIZE_MAX && n % 8 == 0 && size < BLOCK_SIZE_MAX
    requires Below(MappingInsert(size), MappingSearch(n))
    ensures size < n + Rounding(n)
  {
    InsertClass(size);
    SearchClassMin(n);
    ClassesOrdered(MappingInsert(size), MappingSearch(n));
  }

  lemma FlsUnique(w: nat, f: nat)
    requires Pow2(f) <= w < 2 * Pow2(f)
    ensures Fls(w) == f
  {
    FlsAtLeast(w, f);
    FlsBelow(w, f + 1);
  }

  lemma HighHalf(w: nat, h: nat, p: nat, q: nat)
    requires h == w / 0x1_0000_0000 && p <= h < 2 * p && q == p * 0x1_0000_0000
    ensures q <= w < 2 * q
  {}

  lemma FlsSizeTIsFls(w: nat)
    requires w < SIZE_T_RANGE
    ensures FlsSizeT(w) == Fls(w)
  {
    var h := w / 0x1_0000_0000;
    if h != 0 { FlsOfHigh(w, h); }
  }

  lemma FlsOfHigh(w: nat, h: nat)
    requires h == w / 0x1_0000_0000 && h > 0
    ensures Fls(w) == 32 + Fls(h)
  {
    FlsHighest(h);
    var f := Fls(h);
    Shift32(f);
    HighHalf(w, h, Pow2(f), Pow2(f + 32));
    FlsUnique(w, f + 32);
  }

  lemma Shift32(f: nat)
    ensures Pow2(f + 32) == Pow2(f) * 0x1_0000_0000
  {
    Pow2Sum(f, 32);
    Pow2Values();
  }
}
