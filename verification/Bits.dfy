/** Bitwise operators on the naturals, defined digit by digit, and what each does to single bits.
    The C code's unsigned words are naturals below 2^32 or 2^64. */
module Bits {

  function Pow2(n: nat): (p: nat)
    ensures p >= 1
  {
    if n == 0 then 1 else 2 * Pow2(n - 1)
  }

  predicate Bit(w: nat, i: nat) {
    if i == 0 then w % 2 == 1 else Bit(w / 2, i - 1)
  }

  function And(a: nat, b: nat): nat {
    if a == 0 || b == 0 then 0 else 2 * And(a / 2, b / 2) + (a % 2) * (b % 2)
  }

  function Or(a: nat, b: nat): nat
    decreases a + b
  {
    if a == 0 && b == 0 then 0
    else 2 * Or(a / 2, b / 2) + (if a % 2 == 0 && b % 2 == 0 then 0 else 1)
  }

  function Xor(a: nat, b: nat): nat
    decreases a + b
  {
    if a == 0 && b == 0 then 0 else 2 * Xor(a / 2, b / 2) + (if a % 2 == b % 2 then 0 else 1)
  }

  /** `~0 << s` in a word of n bits. */
  function OnesFrom(n: nat, s: nat): nat
    requires s <= n
  {
    Pow2Mono(s, n);
    Pow2(n) - Pow2(s)
  }

  /** `~(1 << i)` in a word of n bits. */
  function AllBut(n: nat, i: nat): nat
    requires i < n
  {
    Pow2Mono(i + 1, n);
    Pow2(n) - 1 - Pow2(i)
  }

  /** Index of the lowest set bit; -1 for zero (the C helper `tlsf_ffs`, and `__ffsl`). */
  function Ffs(w: nat): int {
    if w == 0 then -1 else if w % 2 == 1 then 0 else 1 + Ffs(w / 2)
  }

  /** Index of the highest set bit; -1 for zero (`tlsf_fls`). */
  function Fls(w: nat): int {
    if w == 0 then -1 else 1 + Fls(w / 2)
  }

  lemma Pow2Mono(a: nat, b: nat)
    requires a <= b
    ensures Pow2(a) <= Pow2(b)
    decreases b - a
  {
    if a < b { Pow2Mono(a + 1, b); }
  }

  lemma {:induction false} BitOfZero(i: nat)
    ensures !Bit(0, i)
  {
    if i > 0 { BitOfZero(i - 1); }
  }

  lemma {:induction false} BitAnd(a: nat, b: nat, i: nat)
    ensures Bit(And(a, b), i) == (Bit(a, i) && Bit(b, i))
  {
    if a == 0 || b == 0 {
      BitOfZero(i);
    } else if i > 0 {
      assert And(a, b) / 2 == And(a / 2, b / 2);
      BitAnd(a / 2, b / 2, i - 1);
    } else {
      assert a % 2 == 0 || a % 2 == 1;
      assert b % 2 == 0 || b % 2 == 1;
    }
  }

  lemma {:induction false} BitOr(a: nat, b: nat, i: nat)
    ensures Bit(Or(a, b), i) == (Bit(a, i) || Bit(b, i))
    decreases i
  {
    if a == 0 && b == 0 {
      BitOfZero(i);
    } else if i > 0 {
      assert Or(a, b) / 2 == Or(a / 2, b / 2);
      BitOr(a / 2, b / 2, i - 1);
    } else {
      assert Or(a, b) % 2 == if a % 2 == 0 && b % 2 == 0 then 0 else 1;
    }
  }

  lemma {:induction false} BitXor(a: nat, b: nat, i: nat)
    ensures Bit(Xor(a, b), i) == (Bit(a, i) != Bit(b, i))
    decreases i
  {
    if a == 0 && b == 0 {
      BitOfZero(i);
    } else if i > 0 {
      assert Xor(a, b) / 2 == Xor(a / 2, b / 2);
      BitXor(a / 2, b / 2, i - 1);
    } else {
      assert Xor(a, b) % 2 == if a % 2 == b % 2 then 0 else 1;
    }
  }

  lemma {:induction false} BitPow2(s: nat, i: nat)
    ensures Bit(Pow2(s), i) == (i == s)
  {
    if s == 0 {
      if i > 0 { BitOfZero(i - 1); }
    } else if i > 0 {
      assert Pow2(s) / 2 == Pow2(s - 1);
      BitPow2(s - 1, i - 1);
    }
  }

  lemma {:induction false} BitOnesFrom(n: nat, s: nat, i: nat)
    requires s <= n
    ensures Bit(OnesFrom(n, s), i) == (s <= i < n)
    decreases i
  {
    Pow2Mono(s, n);
    if n == 0 {
      BitOfZero(i);
    } else if s > 0 {
      Pow2Mono(s - 1, n - 1);
      assert OnesFrom(n, s) == 2 * OnesFrom(n - 1, s - 1);
      if i > 0 { BitOnesFrom(n - 1, s - 1, i - 1); }
    } else {
      assert OnesFrom(n, 0) == 2 * OnesFrom(n - 1, 0) + 1;
      if i > 0 { BitOnesFrom(n - 1, 0, i - 1); }
    }
  }

  lemma {:induction false} BitAllBut(n: nat, s: nat, i: nat)
    requires s < n
    ensures Bit(AllBut(n, s), i) == (i < n && i != s)
    decreases i
  {
    Pow2Mono(s + 1, n);
    if s > 0 {
      Pow2Mono(s, n - 1);
      assert AllBut(n, s) == 2 * AllBut(n - 1, s - 1) + 1;
      if i > 0 { BitAllBut(n - 1, s - 1, i - 1); }
    } else {
      assert AllBut(n, 0) == 2 * OnesFrom(n - 1, 0);
      if i > 0 { BitOnesFrom(n - 1, 0, i - 1); }
    }
  }

  /** A word below 2^n has no bit at or above n. */
  lemma {:induction false} BitBeyond(w: nat, n: nat, i: nat)
    requires w < Pow2(n) && n <= i
    ensures !Bit(w, i)
    decreases n
  {
    if n == 0 { BitOfZero(i); } else { BitBeyond(w / 2, n - 1, i - 1); }
  }

  lemma {:induction false} AndBound(a: nat, b: nat)
    ensures And(a, b) <= a && And(a, b) <= b
  {
    if a != 0 && b != 0 {
      AndBound(a / 2, b / 2);
      assert a % 2 == 0 || a % 2 == 1;
      assert b % 2 == 0 || b % 2 == 1;
    }
  }

  lemma {:induction false} OrBound(a: nat, b: nat, n: nat)
    requires a < Pow2(n) && b < Pow2(n)
    ensures Or(a, b) < Pow2(n)
    decreases n
  {
    if n > 0 { OrBound(a / 2, b / 2, n - 1); }
  }

  lemma {:induction false} XorBound(a: nat, b: nat, n: nat)
    requires a < Pow2(n) && b < Pow2(n)
    ensures Xor(a, b) < Pow2(n)
    decreases n
  {
    if n > 0 { XorBound(a / 2, b / 2, n - 1); }
  }

  /** `Ffs` names the lowest set bit, and a word without set bits is zero. */
  lemma {:induction false} FfsLowest(w: nat)
    ensures w == 0 ==> Ffs(w) == -1
    ensures w != 0 ==> Ffs(w) >= 0 && Bit(w, Ffs(w)) && forall j: nat :: j < Ffs(w) ==> !Bit(w, j)
  {
    if w != 0 && w % 2 == 0 {
      FfsLowest(w / 2);
      forall j: nat | j < Ffs(w) ensures !Bit(w, j) {
        if j > 0 { assert Bit(w, j) == Bit(w / 2, j - 1); }
      }
    }
  }

  lemma SomeBit(w: nat, n: nat)
    requires 0 < w < Pow2(n)
    ensures 0 <= Ffs(w) < n && Bit(w, Ffs(w))
  {
    FfsLowest(w);
    if Ffs(w) >= n { BitBeyond(w, n, Ffs(w)); }
  }

  lemma {:induction false} FlsHighest(w: nat)
    requires w > 0
    ensures Fls(w) >= 0 && Pow2(Fls(w)) <= w < 2 * Pow2(Fls(w))
  {
    if w > 1 { FlsHighest(w / 2); }
  }

  /** Words with the same bits are equal. */
  lemma {:induction false} SameBits(a: nat, b: nat)
    requires forall i: nat :: Bit(a, i) == Bit(b, i)
    ensures a == b
    decreases a + b
  {
    assert Bit(a, 0) == Bit(b, 0);
    if a != 0 || b != 0 {
      forall i: nat ensures Bit(a / 2, i) == Bit(b / 2, i) {
        assert Bit(a, i + 1) == Bit(b, i + 1);
      }
      SameBits(a / 2, b / 2);
    }
  }
}
