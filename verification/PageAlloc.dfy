/** The physical page allocator: one bit per page, even-aligned runs, first fit. */
module PageAlloc {
  import opened Bits
  import opened Masks
  import opened Bitmap

  const TOTAL_PAGES: nat := 0x10_0000

  predicate InRun(i: nat, pfn: nat, cnt: nat) {
    pfn <= i < pfn + cnt
  }

  /** Page numbers of a run. */
  function Run(pfn: nat, cnt: nat): set<nat> {
    set i: nat | i < pfn + cnt && InRun(i, pfn, cnt)
  }

  /** A run of cnt free pages starting at an even page. */
  ghost predicate Available(taken: set<nat>, cnt: nat, pfn: nat) {
    pfn % 2 == 0 && pfn + cnt <= TOTAL_PAGES && Run(pfn, cnt) !! taken
  }

  /** The lowest free page from p on; TOTAL_PAGES when there is none. */
  ghost function LowestFree(taken: set<nat>, p: nat): (q: nat)
    requires p <= TOTAL_PAGES
    ensures p <= q <= TOTAL_PAGES && (q < TOTAL_PAGES ==> q !in taken)
    ensures forall i: nat | p <= i < q :: i in taken
    decreases TOTAL_PAGES - p
  {
    if p == TOTAL_PAGES || p !in taken then p else LowestFree(taken, p + 1)
  }

  /** Where the search for a run first looks: the first even page from the lowest free one on. */
  ghost function FirstLook(taken: set<nat>): nat {
    LowestFree(taken, 0) + LowestFree(taken, 0) % 2
  }

  /** `int start = ...`: the 64-bit search result narrowed to a signed 32-bit integer. */
  function ToInt(r: nat): int {
    var w := r % 0x1_0000_0000;
    if w >= 0x8000_0000 then w - 0x1_0000_0000 else w
  }

  lemma ToIntIs(r: nat)
    requires r < 0x1_0000_0000
    ensures ToInt(r) < 0 <==> r >= 0x8000_0000
    ensures r < 0x8000_0000 ==> ToInt(r) == r
    ensures r >= 0x8000_0000 ==> ToInt(r) == r - 0x1_0000_0000
  {}

  lemma EvenUp(z: nat)
    requires z <= TOTAL_PAGES
    ensures AlignUp(z, 2) == z + z % 2
  {
    assert Pow2(1) == 2;
    AlignUpMasks(z, 1, 64);
  }

  /** The end of the first place looked at still fits an int. */
  ghost predicate FitsInt(taken: set<nat>, cnt: nat) {
    FirstLook(taken) + cnt < 0x8000_0000
  }

  class PageAllocator {
    const bits: array<nat>

    ghost predicate Valid()
      reads this, bits
    {
      64 * bits.Length == TOTAL_PAGES && Words64(bits[..])
    }

    /** Pages in use. */
    ghost function Taken(): set<nat>
      requires Valid()
      reads this, bits
    {
      SetBelow(bits[..], TOTAL_PAGES)
    }

    constructor ()
      ensures Valid() && Taken() == {} && fresh(bits)
    {
      bits := new nat[TOTAL_PAGES / 64](_ => 0);
      new;
      forall i: nat | i < TOTAL_PAGES ensures !IsBitSet(bits[..], i) { BitOfZero(i % 64); }
    }

    /** `alloc_pages_cnt`: the lowest available run, or TOTAL_PAGES when there is none. The result is negative,
        and the source then sets bits before the bitmap, exactly when the narrowed search result is. */
    method AllocPagesCnt(cnt: nat) returns (pfn: int)
      requires Valid() && 0 < cnt < 0x8000_0000
      modifies bits
      ensures Valid() && pfn <= TOTAL_PAGES && (pfn < 0 <==> !FitsInt(old(Taken()), cnt))
      ensures pfn < 0 || pfn == TOTAL_PAGES ==> Taken() == old(Taken()) && forall p: nat :: !Available(old(Taken()), cnt, p)
      ensures 0 <= pfn < TOTAL_PAGES ==> Available(old(Taken()), cnt, pfn) && Taken() == old(Taken()) + Run(pfn, cnt)
      ensures 0 <= pfn < TOTAL_PAGES ==> forall p: nat | p < pfn :: !Available(old(Taken()), cnt, p)
    {
      assert Pow2(1) == 2;
      var found, z := FindNextZeroArea(bits, TOTAL_PAGES, 0, cnt, 1, 1, 0);
      forall p: nat ensures Available(Taken(), cnt, p) == Fits(bits[..], TOTAL_PAGES, 0, cnt, 1, 0, p) {
        AvailableIsFits(p, cnt);
      }
      Narrowing(cnt, found, z);
      var start := ToInt(found);
      if start >= TOTAL_PAGES {
        return TOTAL_PAGES;
      }
      if start < 0 {
        return start; // the write before the bitmap is not modelled
      }
      SetBits(bits, start, cnt);
      pfn := start;
    }

    /** The search result survives the narrowing exactly when the first place looked at ends below 2^31. */
    lemma Narrowing(cnt: nat, found: nat, z: nat)
      requires Valid() && 0 < cnt < 0x8000_0000 && found < TOTAL_PAGES + 2 + cnt
      requires cnt > TOTAL_PAGES ==> FirstSought(bits[..], TOTAL_PAGES, 0, true, z) && found == AlignUp(z, 2) + cnt
      ensures ToInt(found) < 0 <==> !FitsInt(Taken(), cnt)
      ensures ToInt(found) >= 0 ==> ToInt(found) == found
      ensures ToInt(found) < 0 ==> found > TOTAL_PAGES
    {
      ToIntIs(found);
      if cnt > TOTAL_PAGES {
        SoughtIsLowest(z);
        EvenUp(z);
      }
    }

    lemma SoughtIsLowest(z: nat)
      requires Valid() && FirstSought(bits[..], TOTAL_PAGES, 0, true, z)
      ensures z == LowestFree(Taken(), 0)
    {
      var q := LowestFree(Taken(), 0);
      assert z < TOTAL_PAGES ==> Sought(bits[..], z, true) && z !in Taken();
      assert q < TOTAL_PAGES ==> Sought(bits[..], q, true);
    }

    lemma AvailableIsFits(p: nat, cnt: nat)
      requires Valid()
      ensures Available(Taken(), cnt, p) == Fits(bits[..], TOTAL_PAGES, 0, cnt, 1, 0, p)
    {
      assert Pow2(1) == 2;
      if p + cnt <= TOTAL_PAGES && Run(p, cnt) !! Taken() {
        forall j: nat | p <= j < p + cnt ensures !IsBitSet(bits[..], j) { assert j in Run(p, cnt); }
      }
    }

    method FreePagesCnt(pfn: nat, cnt: nat)
      requires Valid() && pfn + cnt <= TOTAL_PAGES
      modifies bits
      ensures Valid() && Taken() == old(Taken()) - Run(pfn, cnt)
    {
      ClearBits(bits, pfn, cnt);
    }

    method AllocPages(order: nat) returns (pfn: nat)
      requires Valid() && order < 31
      modifies bits
      ensures Valid() && pfn <= TOTAL_PAGES && 0 < Pow2(order) < 0x8000_0000
      ensures pfn == TOTAL_PAGES ==> Taken() == old(Taken()) && forall p: nat :: !Available(old(Taken()), Pow2(order), p)
      ensures pfn < TOTAL_PAGES ==> Available(old(Taken()), Pow2(order), pfn) && Taken() == old(Taken()) + Run(pfn, Pow2(order))
    {
      Pow2Mono(order, 30);
      Pow2Values();
      assert Pow2(32) == 2 * Pow2(31) == 4 * Pow2(30);
      pfn := AllocPagesCnt(Pow2(order));
    }

    method AllocOnePage() returns (pfn: nat)
      requires Valid()
      modifies bits
      ensures Valid() && pfn <= TOTAL_PAGES
      ensures pfn == TOTAL_PAGES <==> forall p: nat | p < TOTAL_PAGES && p % 2 == 0 :: p in old(Taken())
      ensures pfn == TOTAL_PAGES ==> Taken() == old(Taken())
      ensures pfn < TOTAL_PAGES ==> pfn % 2 == 0 && pfn !in old(Taken()) && Taken() == old(Taken()) + {pfn}
    {
      ghost var taken := Taken();
      pfn := AllocPagesCnt(1);
      forall p: nat ensures Run(p, 1) == {p} {}
      if pfn == TOTAL_PAGES {
        forall p: nat | p < TOTAL_PAGES && p % 2 == 0 ensures p in taken { assert !Available(taken, 1, p); }
      } else {
        assert pfn in Run(pfn, 1);
      }
    }

    method FreeOnePage(pfn: nat)
      requires Valid() && pfn < TOTAL_PAGES
      modifies bits
      ensures Valid() && Taken() == old(Taken()) - {pfn}
    {
      assert Run(pfn, 1) == {pfn};
      FreePagesCnt(pfn, 1);
    }

    /** Allocating a run and freeing it again restores the bitmap word for word. */
    method AllocThenFree(cnt: nat)
      requires Valid() && 0 < cnt < 0x8000_0000
      modifies bits
      ensures Valid() && (FitsInt(old(Taken()), cnt) ==> bits[..] == old(bits[..]))
    {
      ghost var w, taken := bits[..], Taken();
      var pfn := AllocPagesCnt(cnt);
      if 0 <= pfn < TOTAL_PAGES {
        FreePagesCnt(pfn, cnt);
        assert taken + Run(pfn, cnt) - Run(pfn, cnt) == taken;
      }
      SameMap(w, bits[..]);
    }
  }

  /** The set of taken pages determines the words. */
  lemma SameMap(v: seq<nat>, w: seq<nat>)
    requires Words64(v) && Words64(w) && |v| == |w| && SetBelow(v, 64 * |v|) == SetBelow(w, 64 * |w|)
    ensures v == w
  {
    forall k | 0 <= k < |v| ensures v[k] == w[k] {
      forall b: nat ensures Bit(v[k], b) == Bit(w[k], b) {
        if b < 64 {
          var i := 64 * k + b;
          assert i / 64 == k && i % 64 == b;
          assert IsBitSet(v, i) <==> i in SetBelow(v, 64 * |v|);
          assert IsBitSet(w, i) <==> i in SetBelow(w, 64 * |w|);
        } else {
          Below64(0);
          BitBeyond(v[k], 64, b);
          BitBeyond(w[k], 64, b);
        }
      }
      SameBits(v[k], w[k]);
    }
  }

  // ----- page numbers and addresses

  /** Direct-map conversions: pfn, physical and virtual addresses, for given offsets. */
  function PagePhys(pfn: nat, physOffset: nat): nat { physOffset + 4096 * pfn }
  function PhysToVirt(pa: nat, physOffset: nat, virtOffset: nat): int {
    if pa < physOffset then pa else pa - physOffset + virtOffset
  }
  function VirtToPhys(va: nat, physOffset: nat, virtOffset: nat): int {
    if va < virtOffset then va else va - virtOffset + physOffset
  }
  function PhysToFrame(pa: nat, physOffset: nat): int {
    if pa < physOffset then -1 else (pa - physOffset) / 4096
  }

  /** The conversions invert each other on every allocator page, any byte of it included. */
  lemma ConversionsInvert(pfn: nat, b: nat, physOffset: nat, virtOffset: nat)
    requires b < 4096
    ensures var pa := PagePhys(pfn, physOffset) + b;
      && PhysToVirt(pa, physOffset, virtOffset) >= 0
      && VirtToPhys(PhysToVirt(pa, physOffset, virtOffset), physOffset, virtOffset) == pa
      && PhysToFrame(pa, physOffset) == pfn
  {
    assert (4096 * pfn + b) / 4096 == pfn;
  }
}
