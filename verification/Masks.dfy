/** Rounding with bit masks: what `x & ~(align - 1)` and its variants compute, and the integer facts
    about powers of two, division and multiples behind them. */
module Masks {
  import opened Bits

  /** 2^64, the range of an unsigned machine word. */
  const WORD_RANGE: nat := 0x1_0000_0000_0000_0000

  /** `(x + (align - 1)) & ~(align - 1)` in 64-bit arithmetic. */
  function AlignUp(x: nat, align: nat): nat
    requires 0 < align < WORD_RANGE
  {
    And((x + (align - 1)) % 0x1_0000_0000_0000_0000, WORD_RANGE - align)
  }

  lemma {:induction false} AndOnesFrom(w: nat, n: nat, k: nat)
    requires k <= n && w < Pow2(n)
    ensures And(w, OnesFrom(n, k)) == w - w % Pow2(k)
  {
    if k == 0 {
      AndAllOnes(w, n);
      DivModUnique(w, 1, w, 0);
    } else {
      Pow2Mono(k - 1, n - 1);
      AndOnesFrom(w / 2, n - 1, k - 1);
      AndDoubled(w, OnesFrom(n - 1, k - 1), Pow2(k - 1));
    }
  }

  lemma {:induction false} AndAllOnes(w: nat, n: nat)
    requires w < Pow2(n)
    ensures And(w, Pow2(n) - 1) == w
  {
    if w > 0 {
      AndAllOnes(w / 2, n - 1);
      assert (Pow2(n) - 1) / 2 == Pow2(n - 1) - 1;
    }
  }

  lemma AndDoubled(w: nat, m: nat, p: nat)
    requires p > 0 && And(w / 2, m) == w / 2 - (w / 2) % p
    ensures And(w, 2 * m) == w - w % (2 * p)
  {
    ModDouble(w, p);
    AndEven(w, m);
  }

  lemma AndEven(w: nat, m: nat)
    ensures And(w, 2 * m) == 2 * And(w / 2, m)
  {
    assert (2 * m) / 2 == m && (2 * m) % 2 == 0;
  }

  lemma ModDouble(w: nat, p: nat)
    requires p > 0
    ensures w % (2 * p) == 2 * ((w / 2) % p) + w % 2
  {
    var q, r := (w / 2) / p, (w / 2) % p;
    assert w == 2 * (q * p + r) + w % 2;
    assert w == (2 * p) * q + (2 * r + w % 2);
    assert 0 <= 2 * r + w % 2 < 2 * p;
    DivModUnique(w, 2 * p, q, 2 * r + w % 2);
  }

  lemma DivModUnique(w: int, d: int, q: int, r: int)
    requires d > 0 && w == d * q + r && 0 <= r < d
    ensures w / d == q && w % d == r
  {
    var q' := w / d;
    if q < q' { MulStep(q, q', d); }
    if q' < q { MulStep(q', q, d); }
  }

  lemma MulStep(a: int, b: int, d: int)
    requires d > 0 && a < b
    ensures d * a + d <= d * b
  {
    MulLe(a + 1, b, d);
    assert d * (a + 1) == d * a + d;
  }

  lemma MulLe(a: int, b: int, d: int)
    requires d > 0 && a <= b
    ensures d * a <= d * b
  {}

  lemma Pow2Sum(a: nat, b: nat)
    ensures Pow2(a) * Pow2(b) == Pow2(a + b)
  {
    if a > 0 {
      Pow2Sum(a - 1, b);
      assert Pow2(a) * Pow2(b) == 2 * (Pow2(a - 1) * Pow2(b));
    }
  }

  lemma Pow2Values()
    ensures Pow2(2) == 4 && Pow2(3) == 8 && Pow2(5) == 32 && Pow2(8) == 256
    ensures Pow2(32) == 0x1_0000_0000 && Pow2(64) == WORD_RANGE
  {
    Pow2Small();
    Pow2Sum(16, 16);
    Pow2Sum(32, 32);
  }

  lemma Pow2Small()
    ensures Pow2(2) == 4 && Pow2(3) == 8 && Pow2(5) == 32 && Pow2(8) == 256 && Pow2(16) == 65536
  {
    assert Pow2(3) == 8;
    assert Pow2(8) == 256;
    Pow2Sum(8, 8);
  }

  lemma FloorMultiple(y: nat, p: nat)
    requires p > 0
    ensures (y - y % p) % p == 0 && y - p < y - y % p <= y
  {
    DivModUnique(y - y % p, p, y / p, 0);
  }

  /** Multiples are a whole step apart. */
  lemma NextMultiple(a: nat, b: nat, p: nat)
    requires p > 0 && a % p == 0 && b % p == 0 && a < b
    ensures a + p <= b
  {
    var d, e := a / p, b / p;
    assert a == p * d && b == p * e;
    if e <= d { MulLe(e, d, p); }
    MulStep(d, e, p);
  }

  lemma AlignUpIsMask(x: nat, align: nat)
    requires 0 < align && x + align <= WORD_RANGE && align < WORD_RANGE
    ensures AlignUp(x, align) == And(x + (align - 1), WORD_RANGE - align)
  {
    assert (x + (align - 1)) % WORD_RANGE == x + (align - 1);
  }

  lemma OnesFrom64(k: nat, n: nat)
    requires n == 64 && k < n
    ensures OnesFrom(n, k) == WORD_RANGE - Pow2(k) && 0 < Pow2(k) < WORD_RANGE
  {
    Pow2Values();
    Pow2Mono(k + 1, n);
  }

  lemma MaskDown64(w: nat, k: nat, n: nat)
    requires n == 64 && k < n && w < WORD_RANGE
    ensures And(w, OnesFrom(n, k)) == w - w % Pow2(k)
  {
    Pow2Values();
    AndOnesFrom(w, n, k);
  }

  lemma AlignUpMasks(x: nat, k: nat, n: nat)
    requires n == 64 && k < n && x + Pow2(k) <= WORD_RANGE
    ensures 0 < Pow2(k) < WORD_RANGE
    ensures AlignUp(x, Pow2(k)) == x + (Pow2(k) - 1) - (x + (Pow2(k) - 1)) % Pow2(k)
  {
    OnesFrom64(k, n);
    var p := Pow2(k);
    var y := x + (p - 1);
    AlignUpIsMask(x, p);
    MaskDown64(y, k, n);
    assert AlignUp(x, p) == And(y, OnesFrom(n, k)) == y - y % p;
  }

  /** Up to 2^64 - align the alignment mask rounds up to the next multiple of align. */
  lemma AlignUpRounds(x: nat, k: nat)
    requires k < 64 && x + Pow2(k) <= WORD_RANGE
    ensures Pow2(k) < WORD_RANGE
    ensures var a := AlignUp(x, Pow2(k)); a % Pow2(k) == 0 && x <= a < x + Pow2(k)
  {
    AlignUpMasks(x, k, 64);
    FloorMultiple(x + (Pow2(k) - 1), Pow2(k));
  }
}
