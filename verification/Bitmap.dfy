/** The word-array bitmap: single-bit updates, the word-at-a-time scan, and the search for an aligned
    run of clear bits. */
module Bitmap {
  import opened Bits
  import opened Masks

  const ALL_ONES: nat := 0xFFFF_FFFF_FFFF_FFFF

  /** Bit n of the map held in words w. */
  predicate IsBitSet(w: seq<nat>, n: nat)
    requires n < 64 * |w|
  {
    Bit(w[n / 64], n % 64)
  }

  /** Every word fits 64 bits. */
  ghost predicate Words64(w: seq<nat>) {
    forall i | 0 <= i < |w| :: w[i] < WORD_RANGE
  }

  /** Set bits below n. */
  ghost function SetBelow(w: seq<nat>, n: nat): set<nat>
    requires n <= 64 * |w|
  {
    set i: nat | i < n && IsBitSet(w, i)
  }

  // ----- single bits

  method SetBit(bits: array<nat>, n: nat)
    requires n < 64 * bits.Length && Words64(bits[..])
    modifies bits
    ensures Words64(bits[..])
    ensures forall i: nat | i < 64 * bits.Length :: IsBitSet(bits[..], i) == (IsBitSet(old(bits[..]), i) || i == n)
  {
    ghost var w := bits[..];
    Below64(n % 64);
    OrBound(w[n / 64], Pow2(n % 64), 64);
    bits[n / 64] := Or(bits[n / 64], Pow2(n % 64));
    forall i: nat | i < 64 * bits.Length ensures IsBitSet(bits[..], i) == (IsBitSet(w, i) || i == n) {
      BitOr(w[n / 64], Pow2(n % 64), i % 64);
      BitPow2(n % 64, i % 64);
    }
  }

  method ClearBit(bits: array<nat>, n: nat)
    requires n < 64 * bits.Length && Words64(bits[..])
    modifies bits
    ensures Words64(bits[..])
    ensures forall i: nat | i < 64 * bits.Length :: IsBitSet(bits[..], i) == (IsBitSet(old(bits[..]), i) && i != n)
  {
    ghost var w := bits[..];
    AndBound(w[n / 64], AllBut(64, n % 64));
    bits[n / 64] := And(bits[n / 64], AllBut(64, n % 64));
    forall i: nat | i < 64 * bits.Length ensures IsBitSet(bits[..], i) == (IsBitSet(w, i) && i != n) {
      BitAnd(w[n / 64], AllBut(64, n % 64), i % 64);
      BitAllBut(64, n % 64, i % 64);
    }
  }

  lemma Below64(s: nat)
    requires s < 64
    ensures Pow2(64) == WORD_RANGE && Pow2(s) < Pow2(64)
  {
    Pow2Values();
    Pow2Mono(s + 1, 64);
  }

  method SetBits(bits: array<nat>, start: nat, cnt: nat)
    requires start + cnt <= 64 * bits.Length && Words64(bits[..])
    modifies bits
    ensures Words64(bits[..])
    ensures forall i: nat | i < 64 * bits.Length ::
      IsBitSet(bits[..], i) == (IsBitSet(old(bits[..]), i) || start <= i < start + cnt)
  {
    for n := start to start + cnt
      invariant Words64(bits[..])
      invariant forall i: nat | i < 64 * bits.Length :: IsBitSet(bits[..], i) == (IsBitSet(old(bits[..]), i) || start <= i < n)
    {
      SetBit(bits, n);
    }
  }

  method ClearBits(bits: array<nat>, start: nat, cnt: nat)
    requires start + cnt <= 64 * bits.Length && Words64(bits[..])
    modifies bits
    ensures Words64(bits[..])
    ensures forall i: nat | i < 64 * bits.Length ::
      IsBitSet(bits[..], i) == (IsBitSet(old(bits[..]), i) && !(start <= i < start + cnt))
  {
    for n := start to start + cnt
      invariant Words64(bits[..])
      invariant forall i: nat | i < 64 * bits.Length :: IsBitSet(bits[..], i) == (IsBitSet(old(bits[..]), i) && !(start <= i < n))
    {
      ClearBit(bits, n);
    }
  }

  // ----- scanning

  /** Bit n as the scan sees it: set, or clear when scanning the inverted bits. */
  predicate Sought(w: seq<nat>, n: nat, inverted: bool)
    requires n < 64 * |w|
  {
    IsBitSet(w, n) != inverted
  }

  /** A word XOR-ed with the inversion mask shows exactly the sought bits. */
  lemma InvertedBit(w: nat, inverted: bool, b: nat)
    requires b < 64 && w < WORD_RANGE
    ensures Bit(Xor(w, if inverted then ALL_ONES else 0), b) == (Bit(w, b) != inverted)
    ensures Xor(w, if inverted then ALL_ONES else 0) < WORD_RANGE
  {
    var mask := if inverted then ALL_ONES else 0;
    Below64(0);
    XorBound(w, mask, 64);
    BitXor(w, mask, b);
    if inverted {
      assert OnesFrom(64, 0) == ALL_ONES;
      BitOnesFrom(64, 0, b);
    } else {
      BitOfZero(b);
    }
  }

  /** What a scan over [start, nbits) returns: the first sought bit, or nbits. */
  ghost predicate FirstSought(w: seq<nat>, nbits: nat, start: nat, inverted: bool, r: nat)
    requires nbits <= 64 * |w|
  {
    && r <= nbits && (start < nbits ==> start <= r)
    && (r < nbits ==> start <= r && Sought(w, r, inverted))
    && (forall i: nat | start <= i < r && i < nbits :: !Sought(w, i, inverted))
  }

  /** A masked word shows the sought bits of the 64 from `start` on that are not before start0. */
  ghost predicate Shows(w: seq<nat>, start0: nat, start: nat, inverted: bool, tmp: nat)
    requires start % 64 == 0 && start < 64 * |w|
  {
    tmp < WORD_RANGE && forall b: nat | b < 64 :: Bit(tmp, b) == (start0 <= start + b && Sought(w, start + b, inverted))
  }

  ghost predicate NoneBefore(w: seq<nat>, start0: nat, start: nat, inverted: bool)
    requires start <= 64 * |w|
  {
    forall i: nat | start0 <= i < start :: !Sought(w, i, inverted)
  }

  /** `_find_next_bit`: mask the first word, then whole words, then the lowest bit of the word found. */
  method FindNextBit(bits: array<nat>, nbits: nat, start0: nat, inverted: bool) returns (r: nat)
    requires nbits <= 64 * bits.Length && Words64(bits[..])
    ensures FirstSought(bits[..], nbits, start0, inverted, r)
  {
    if start0 >= nbits {
      return nbits;
    }
    ghost var w := bits[..];
    var invert := if inverted then ALL_ONES else 0;
    var tmp: nat := Xor(bits[start0 / 64], invert);
    FirstWord(w, start0, inverted, tmp);
    tmp := And(tmp, OnesFrom(64, start0 % 64));
    var start := start0 - start0 % 64;
    while tmp == 0
      invariant start % 64 == 0 && start < nbits && start0 < start + 64
      invariant NoneBefore(w, start0, start, inverted) && Shows(w, start0, start, inverted, tmp)
      decreases nbits - start
    {
      ZeroWord(w, start0, start, inverted, tmp);
      start := start + 64;
      if start >= nbits {
        return nbits;
      }
      tmp := Xor(bits[start / 64], invert);
      NextWord(w, start0, start, inverted, tmp);
    }
    FoundWord(w, start0, start, inverted, tmp);
    r := if start + Ffs(tmp) < nbits then start + Ffs(tmp) else nbits;
  }

  lemma WholeWord(w: seq<nat>, start: nat, inverted: bool, tmp: nat)
    requires start % 64 == 0 && start < 64 * |w| && Words64(w)
    requires tmp == Xor(w[start / 64], if inverted then ALL_ONES else 0)
    ensures tmp < WORD_RANGE
    ensures forall b: nat | b < 64 :: Bit(tmp, b) == Sought(w, start + b, inverted)
  {
    InvertedBit(w[start / 64], inverted, 0);
    forall b: nat | b < 64 ensures Bit(tmp, b) == Sought(w, start + b, inverted) {
      InvertedBit(w[start / 64], inverted, b);
      assert (start + b) / 64 == start / 64 && (start + b) % 64 == b;
    }
  }

  lemma NextWord(w: seq<nat>, start0: nat, start: nat, inverted: bool, tmp: nat)
    requires start % 64 == 0 && start < 64 * |w| && Words64(w) && start0 < start
    requires tmp == Xor(w[start / 64], if inverted then ALL_ONES else 0)
    ensures Shows(w, start0, start, inverted, tmp)
  {
    WholeWord(w, start, inverted, tmp);
  }

  lemma FirstWord(w: seq<nat>, start0: nat, inverted: bool, tmp: nat)
    requires start0 < 64 * |w| && Words64(w) && tmp == Xor(w[start0 / 64], if inverted then ALL_ONES else 0)
    ensures var start := start0 - start0 % 64;
      && start % 64 == 0 && start <= start0 < start + 64 && start < 64 * |w|
      && Shows(w, start0, start, inverted, And(tmp, OnesFrom(64, start0 % 64))) && NoneBefore(w, start0, start, inverted)
  {
    var start := start0 - start0 % 64;
    DivModUnique(start, 64, start0 / 64, 0);
    WholeWord(w, start, inverted, tmp);
    AndBound(tmp, OnesFrom(64, start0 % 64));
    forall b: nat | b < 64
      ensures Bit(And(tmp, OnesFrom(64, start0 % 64)), b) == (start0 <= start + b && Sought(w, start + b, inverted))
    {
      BitAnd(tmp, OnesFrom(64, start0 % 64), b);
      BitOnesFrom(64, start0 % 64, b);
    }
  }

  lemma ZeroWord(w: seq<nat>, start0: nat, start: nat, inverted: bool, tmp: nat)
    requires start % 64 == 0 && start < 64 * |w| && Shows(w, start0, start, inverted, tmp) && tmp == 0
    requires NoneBefore(w, start0, start, inverted)
    ensures start + 64 <= 64 * |w| && (start + 64) % 64 == 0 && NoneBefore(w, start0, start + 64, inverted)
  {
    forall i: nat | start0 <= i < start + 64 ensures !Sought(w, i, inverted) {
      if start <= i {
        BitOfZero(i - start);
        assert Bit(tmp, i - start) == (start0 <= start + (i - start) && Sought(w, start + (i - start), inverted));
      }
    }
  }

  lemma FoundWord(w: seq<nat>, start0: nat, start: nat, inverted: bool, tmp: nat)
    requires start % 64 == 0 && start < 64 * |w| && Shows(w, start0, start, inverted, tmp) && tmp > 0
    requires NoneBefore(w, start0, start, inverted)
    ensures 0 <= Ffs(tmp) < 64 && start0 <= start + Ffs(tmp) && Sought(w, start + Ffs(tmp), inverted)
    ensures NoneBefore(w, start0, start + Ffs(tmp), inverted)
  {
    Below64(0);
    SomeBit(tmp, 64);
    FfsLowest(tmp);
    forall i: nat | start0 <= i < start + Ffs(tmp) ensures !Sought(w, i, inverted) {
      if start <= i {
        assert !Bit(tmp, i - start);
        assert Bit(tmp, i - start) == (start0 <= start + (i - start) && Sought(w, start + (i - start), inverted));
      }
    }
  }

  // ----- aligned runs of clear bits

  /** A run of nr clear bits at i, aligned after adding the offset, inside [start, size). */
  ghost predicate Fits(w: seq<nat>, size: nat, start: nat, nr: nat, k: nat, offset: nat, i: nat)
    requires size <= 64 * |w|
  {
    start <= i && i + nr <= size && (i + offset) % Pow2(k) == 0 && forall j: nat | i <= j < i + nr :: !IsBitSet(w, j)
  }

  /** Nothing fits at or after `start` below `index`, nor at all if the run would end past `size`. */
  ghost predicate NextStart(w: seq<nat>, size: nat, start0: nat, start: nat, nr: nat, k: nat, offset: nat, index: nat)
    requires size <= 64 * |w|
  {
    && (index + offset) % Pow2(k) == 0 && (if start <= size then start <= index else size <= index)
    && (nr > 0 ==> forall i: nat | start <= i < index :: !Fits(w, size, start0, nr, k, offset, i))
    && (nr > 0 && index + nr > size ==> forall i: nat | start <= i :: !Fits(w, size, start0, nr, k, offset, i))
  }

  /** The next clear bit, moved up to the next aligned index. */
  method NextCandidate(bits: array<nat>, size: nat, ghost start0: nat, start: nat, ghost nr: nat, ghost k: nat,
                       alignMask: nat, offset: nat) returns (index: nat, ghost z: nat)
    requires size <= 64 * bits.Length && Words64(bits[..]) && start0 <= start && (start <= size || start == start0)
    requires k < 63 && alignMask == Pow2(k) - 1 && size + offset + Pow2(k) < WORD_RANGE
    ensures NextStart(bits[..], size, start0, start, nr, k, offset, index) && index < size + Pow2(k)
    ensures FirstSought(bits[..], size, start, true, z) && index == AlignUp(z + offset, alignMask + 1) - offset
  {
    var zero := FindNextBit(bits, size, start, true);
    z := zero;
    AlignUpRounds(z + offset, k);
    index := AlignUp(zero + offset, alignMask + 1) - offset;
    SkippedToAligned(bits[..], size, start0, start, nr, k, offset, z, index);
  }

  /** `bitmap_find_next_zero_area_off` with align_mask = 2^k - 1: the least aligned start of a clear run, or
      an index past `size` exactly when there is none; for a run longer than the map, the aligned index from
      the first clear bit z on, plus the length. (A run of no bits is found at the first aligned
      index from the next clear bit on.) */
  method FindNextZeroArea(bits: array<nat>, size: nat, start0: nat, nr: nat, ghost k: nat, alignMask: nat, offset: nat)
    returns (r: nat, ghost z: nat)
    requires size <= 64 * bits.Length && Words64(bits[..])
    requires k < 63 && alignMask == Pow2(k) - 1 && size + offset + Pow2(k) < WORD_RANGE
    ensures nr > 0 && r <= size ==> Fits(bits[..], size, start0, nr, k, offset, r)
    ensures nr > 0 && r <= size ==> forall i: nat | i < r :: !Fits(bits[..], size, start0, nr, k, offset, i)
    ensures nr > 0 && r > size ==> forall i: nat :: !Fits(bits[..], size, start0, nr, k, offset, i)
    ensures r < size + Pow2(k) + nr
    ensures nr > size ==> FirstSought(bits[..], size, start0, true, z) && r == AlignUp(z + offset, alignMask + 1) - offset + nr
  {
    var start := start0;
    while true
      invariant start0 <= start && (start <= size || start == start0)
      invariant nr > 0 ==> forall i: nat | i < start :: !Fits(bits[..], size, start0, nr, k, offset, i)
      invariant nr > size ==> start == start0
      decreases if start <= size then size + 1 - start else 0
    {
      var index;
      index, z := NextCandidate(bits, size, start0, start, nr, k, alignMask, offset);
      var end := index + nr;
      if end > size {
        return end, z;
      }
      var i := FindNextBit(bits, end, index, false);
      if i >= end {
        FreeRun(bits[..], size, start0, start, nr, k, offset, index, i);
        return index, z;
      }
      BlockedBy(bits[..], size, start0, nr, k, offset, index, i);
      start := i + 1;
    }
  }

  lemma FreeRun(w: seq<nat>, size: nat, start0: nat, start: nat, nr: nat, k: nat, offset: nat, index: nat, i: nat)
    requires size <= 64 * |w| && start0 <= start && index + nr <= size && (start <= size || start == start0)
    requires NextStart(w, size, start0, start, nr, k, offset, index)
    requires FirstSought(w, index + nr, index, false, i) && i >= index + nr
    ensures nr > 0 && start <= size ==> Fits(w, size, start0, nr, k, offset, index)
    ensures nr > 0 ==> start <= size
  {
    forall j: nat | index <= j < index + nr ensures !IsBitSet(w, j) {
      assert !Sought(w, j, false);
    }
  }

  /** No run starts between the scan position and the aligned index reached from the next clear bit. */
  lemma SkippedToAligned(w: seq<nat>, size: nat, start0: nat, start: nat, nr: nat, k: nat, offset: nat, z: nat, index: int)
    requires size <= 64 * |w| && start0 <= start && (start <= size || start == start0)
    requires FirstSought(w, size, start, true, z)
    requires index >= 0 && (index + offset) % Pow2(k) == 0 && z + offset <= index + offset < z + offset + Pow2(k)
    ensures nr > 0 ==> forall i: nat | start <= i < index :: !Fits(w, size, start0, nr, k, offset, i)
    ensures nr > 0 && index + nr > size ==> forall i: nat | start <= i :: !Fits(w, size, start0, nr, k, offset, i)
  {
    if nr > 0 {
      forall i: nat | start <= i < index ensures !Fits(w, size, start0, nr, k, offset, i) {
        if Fits(w, size, start0, nr, k, offset, i) {
          assert i < z ==> !Sought(w, i, true);
          if z <= i {
            NextMultiple(i + offset, index + offset, Pow2(k));
          }
        }
      }
    }
  }

  /** A set bit inside the candidate run rules out every start up to that bit. */
  lemma BlockedBy(w: seq<nat>, size: nat, start0: nat, nr: nat, k: nat, offset: nat, index: nat, b: nat)
    requires size <= 64 * |w| && index <= b < index + nr <= size && IsBitSet(w, b)
    ensures forall i: nat | index <= i <= b :: !Fits(w, size, start0, nr, k, offset, i)
  {}
}
