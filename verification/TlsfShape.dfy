/** Coalescing, and the canonical shape of a coalesced heap: which blocks are in use, and nothing of
    the history, decides the whole block structure. */
module TlsfShape {
  import opened TlsfMapping
  import opened TlsfBlocks
  import opened TlsfState

  /** Used blocks (the sentinel included) and their lengths. */
  function Used(bs: Blocks): map<int, int> {
    map h | h in bs && !bs[h].free :: bs[h].w
  }

  ghost predicate Settled(bs: Blocks, first: int, last: int) {
    Tiles(bs, first, last) && Flags(bs, first, last) && Coalesced(bs, last, {})
  }

  /** Pool of one free block, as `tlsf_add_pool` leaves it. */
  function OneFreeBlock(first: int, last: int): Blocks {
    map[first := Block(last - first - 1, true, false), last := Block(0, false, true)]
  }

  lemma OneFreeBlockSettled(first: int, last: int)
    requires FIRST_POOL_WORD <= first && first + 4 <= last && 8 * (last - first - 1) < BLOCK_SIZE_MAX
    ensures Settled(OneFreeBlock(first, last), first, last)
  {
    var bs := OneFreeBlock(first, last);
    forall h | h in bs && h != last ensures Next(bs, h) == last {}
  }

  // ----- canonical shape

  /** Two settled heaps with the same used blocks agree on a common block and on what follows it. */
  lemma SameBlock(b1: Blocks, b2: Blocks, first: int, last: int, h: int)
    requires Settled(b1, first, last) && Settled(b2, first, last) && Used(b1) == Used(b2)
    requires h in b1 && h in b2 && h != last
    ensures b1[h].w == b2[h].w && b1[h].free == b2[h].free && Next(b1, h) == Next(b2, h)
  {
    if h in Used(b1) {
      assert b1[h].w == Used(b1)[h] == Used(b2)[h] == b2[h].w;
    } else {
      assert b1[h].free && b2[h].free;
      NextUsed(b1, first, last, h);
      NextUsed(b2, first, last, h);
      var n1, n2 := Next(b1, h), Next(b2, h);
      assert n1 in Used(b1) && n2 in Used(b2);
      assert n1 in b2 && n2 in b1 && InOrder(b1, h, n2) && InOrder(b2, h, n1);
    }
  }

  lemma NextUsed(bs: Blocks, first: int, last: int, h: int)
    requires Settled(bs, first, last) && h in bs && bs[h].free
    ensures h < Next(bs, h) && Next(bs, h) in bs && !bs[Next(bs, h)].free
  {}

  /** Blocks of the first heap from a common block on are blocks of the second. */
  lemma {:induction false} SameFrom(b1: Blocks, b2: Blocks, first: int, last: int, h: int, x: int)
    requires Settled(b1, first, last) && Settled(b2, first, last) && Used(b1) == Used(b2)
    requires h in b1 && h in b2 && x in b1 && h <= x
    requires b1[h].prevFree == b2[h].prevFree
    ensures x in b2 && b1[x] == b2[x]
    decreases x - h
  {
    if h == last {
      assert last in Used(b1);
    } else {
      SameBlock(b1, b2, first, last, h);
      if h < x {
        var n := Next(b1, h);
        assert InOrder(b1, h, x);
        assert n in b1 && Next(b2, h) in b2;
        SameFrom(b1, b2, first, last, n, x);
      }
    }
  }

  /** The used blocks determine the heap. */
  lemma Canonical(b1: Blocks, b2: Blocks, first: int, last: int)
    requires Settled(b1, first, last) && Settled(b2, first, last) && Used(b1) == Used(b2)
    ensures b1 == b2
  {
    forall x | x in b1 ensures x in b2 && b1[x] == b2[x] { SameFrom(b1, b2, first, last, first, x); }
    forall x | x in b2 ensures x in b1 && b1[x] == b2[x] { SameFrom(b2, b1, first, last, first, x); }
  }

  /** With nothing in use the pool is the one initial block again, whatever happened before. */
  lemma AllFreeIsInitial(bs: Blocks, first: int, last: int)
    requires Settled(bs, first, last)
    requires forall h | h in bs && h != last :: bs[h].free
    ensures first + 4 <= last && bs == OneFreeBlock(first, last)
  {
    assert InOrder(bs, first, last);
    OneFreeBlockSettled(first, last);
    assert Used(bs) == Used(OneFreeBlock(first, last));
    Canonical(bs, OneFreeBlock(first, last), first, last);
  }

  // ----- coalescing when a block is freed

  /** A free block outside `held` whose neighbours are outside `held` has a used predecessor. */
  lemma UsedPredecessor(bs: Blocks, first: int, last: int, held: set<int>, p: int)
    requires Tiles(bs, first, last) && Flags(bs, first, last) && Coalesced(bs, last, held)
    requires p in bs && bs[p].free && p !in held
    requires forall q | q in held :: p <= q
    ensures !bs[p].prevFree
  {
    if bs[p].prevFree {
      var q := Predecessor(bs, first, last, p, first);
    }
  }

  lemma CoalescedMark(bs: Blocks, first: int, last: int, b: int)
    requires Settled(bs, first, last) && b in bs && b != last && !bs[b].free
    ensures Next(bs, b) in bs && Next(bs, b) != b
    ensures Coalesced(SetFree(bs, b, true), last, {b})
    ensures Used(SetFree(bs, b, true)) == Used(bs) - {b}
  {
    var bs' := SetFree(bs, b, true);
    forall h | h in bs' && h != last && bs'[h].free && h !in {b}
      ensures Next(bs', h) in bs' && (bs'[Next(bs', h)].free ==> Next(bs', h) in {b})
    {
      assert Next(bs', h) == Next(bs, h);
    }
  }

  /** Merging the freed block b into its free predecessor p. */
  lemma CoalescedMergePrev(bs: Blocks, first: int, last: int, p: int, b: int)
    requires Tiles(bs, first, last) && Flags(bs, first, last) && Coalesced(bs, last, {b})
    requires p in bs && bs[p].free && Next(bs, p) == b && b in bs && bs[b].free && p < b
    ensures Coalesced(Absorb(bs, p), last, {p}) && p in Absorb(bs, p) && !Absorb(bs, p)[p].prevFree
    ensures Used(Absorb(bs, p)) == Used(bs)
  {
    var bs' := Absorb(bs, p);
    UsedPredecessor(bs, first, last, {b}, p);
    forall h | h in bs' && h != last && bs'[h].free && h !in {p}
      ensures Next(bs', h) in bs' && (bs'[Next(bs', h)].free ==> Next(bs', h) in {p})
    {
      assert Next(bs', h) == Next(bs, h);
      assert InOrder(bs, h, p) && InOrder(bs, p, h);
      assert InOrder(bs, b, h);
    }
  }

  /** Merging a block whose predecessor is used with its successor, when that is free. */
  lemma CoalescedMergeNext(bs: Blocks, first: int, last: int, r: int)
    requires Tiles(bs, first, last) && Flags(bs, first, last) && Coalesced(bs, last, {r})
    requires r in bs && r != last && bs[r].free && !bs[r].prevFree
    ensures Next(bs, r) in bs
    ensures var bs' := if bs[Next(bs, r)].free then Absorb(bs, r) else bs;
      Coalesced(bs', last, {}) && Used(bs') == Used(bs)
  {
    var n := Next(bs, r);
    var bs' := if bs[n].free then Absorb(bs, r) else bs;
    forall h | h in bs' && h != last && bs'[h].free && h !in {}
      ensures Next(bs', h) in bs' && (bs'[Next(bs', h)].free ==> Next(bs', h) in {})
    {
      if h == r {
        if bs[n].free { assert Next(bs', r) == Next(bs, n) && Next(bs, n) in bs; }
      } else {
        assert Next(bs', h) == Next(bs, h);
        assert InOrder(bs, h, r);
        assert InOrder(bs, r, h);
        assert InOrder(bs, n, h);
      }
    }
  }

  lemma AfterMergePrev(bs0: Blocks, bs1: Blocks, first: int, last: int, b: int, r: int)
    requires Tiles(bs0, first, last) && Flags(bs0, first, last) && Coalesced(bs0, last, {b})
    requires b in bs0 && bs0[b].free && b != last
    requires !bs0[b].prevFree ==> r == b && bs1 == bs0
    requires bs0[b].prevFree ==> r in bs0 && bs0[r].free && r < b && Next(bs0, r) == b && bs1 == Absorb(bs0, r)
    ensures Coalesced(bs1, last, {r}) && r in bs1 && !bs1[r].prevFree && Used(bs1) == Used(bs0)
  {
    if bs0[b].prevFree { CoalescedMergePrev(bs0, first, last, r, b); }
  }

  lemma SameUsed(b1: Blocks, b2: Blocks)
    requires Used(b1) == Used(b2)
    ensures UsedWithin(b1, b2)
  {
    forall h | h in b1 && !b1[h].free ensures h in b2 && !b2[h].free && b2[h].w == b1[h].w {
      assert h in Used(b1);
      assert h in Used(b2);
    }
  }

  // ----- coalescing when a block is handed out

  /** Block b cut to s words, when the rest can stand alone. */
  function Trimmed(bs: Blocks, b: int, s: int): Blocks
    requires b in bs && Next(bs, b) in bs
  {
    if bs[b].w >= s + 4 then Cut(bs, b, s) else bs
  }

  lemma TrimmedCoalesced(bs: Blocks, first: int, last: int, b: int, s: int)
    requires Tiles(bs, first, last) && Coalesced(bs, last, {b})
    requires b in bs && bs[b].free && 3 <= s <= bs[b].w
    requires Next(bs, b) in bs && !bs[Next(bs, b)].free
    ensures var t := Trimmed(bs, b, s);
      && Tiles(t, first, last) && Coalesced(t, last, {b}) && Used(t) == Used(bs)
      && b in t && t[b].free && s <= t[b].w < s + 4
  {
    var t, n := Trimmed(bs, b, s), Next(bs, b);
    if bs[b].w >= s + 4 { CutTiles(bs, first, last, b, s, n); }
    forall h | h in t && h != last && t[h].free && h !in {b}
      ensures Next(t, h) in t && (t[Next(t, h)].free ==> Next(t, h) in {b})
    {
      if h in bs { assert Next(t, h) == Next(bs, h); }
    }
  }

  lemma CoalescedUse(bs: Blocks, first: int, last: int, b: int)
    requires Tiles(bs, first, last) && Coalesced(bs, last, {b}) && b in bs && bs[b].free
    ensures Next(bs, b) in bs && Next(bs, b) != b
    ensures Coalesced(SetFree(bs, b, false), last, {}) && Used(SetFree(bs, b, false)) == Used(bs)[b := bs[b].w]
  {
    var bs' := SetFree(bs, b, false);
    forall h | h in bs' && h != last && bs'[h].free && h !in {}
      ensures Next(bs', h) in bs' && (bs'[Next(bs', h)].free ==> Next(bs', h) in {})
    {
      assert Next(bs', h) == Next(bs, h);
    }
    assert Used(bs').Keys == Used(bs).Keys + {b};
  }

  /** In a coalesced heap the neighbours of a free block are used, so taking it out changes nothing. */
  lemma CoalescedHold(bs: Blocks, first: int, last: int, b: int)
    requires Tiles(bs, first, last) && Coalesced(bs, last, {}) && b in bs && bs[b].free
    ensures Coalesced(bs, last, {b}) && Next(bs, b) in bs && !bs[Next(bs, b)].free
  {}

  lemma ExtendedUsed(b1: Blocks, b2: Blocks, b: int, w: int)
    requires Used(b2) == Used(b1)[b := w] && b !in Used(b1)
    ensures UsedWithin(b1, b2)
  {
    forall h | h in b1 && !b1[h].free ensures h in b2 && !b2[h].free && b2[h].w == b1[h].w {
      assert h in Used(b1);
      assert h in Used(b2);
    }
  }

  /** Growing used block p over its free successor b. */
  lemma CoalescedGrow(bs: Blocks, first: int, last: int, p: int, b: int)
    requires Settled(bs, first, last) && p in bs && p != last && !bs[p].free && b == Next(bs, p) && b in bs && bs[b].free
    ensures p in Absorb(bs, p) && Next(Absorb(bs, p), p) == Next(bs, b) && Next(bs, b) in Absorb(bs, p)
    ensures var bs' := SetFree(Absorb(bs, p), p, false);
      Coalesced(bs', last, {}) && Used(bs') == Used(bs)[p := bs[p].w + 1 + bs[b].w]
  {
    var n := Next(bs, b);
    assert n in bs;
    var bs1 := Absorb(bs, p);
    var bs' := SetFree(bs1, p, false);
    assert b + 1 + bs[b].w == n;
    forall h | h in bs' && h != last && bs'[h].free && h !in {}
      ensures Next(bs', h) in bs' && (bs'[Next(bs', h)].free ==> Next(bs', h) in {})
    {
      assert Next(bs', h) == Next(bs, h);
      assert InOrder(bs, h, p);
      assert InOrder(bs, b, h);
    }
    assert Used(bs').Keys == Used(bs).Keys;
  }

  /** Cutting used block b: only the new free block r may touch another. */
  lemma CoalescedCutUsed(bs: Blocks, first: int, last: int, b: int, s: int)
    requires Settled(bs, first, last) && b in bs && b != last && !bs[b].free && 3 <= s && s + 4 <= bs[b].w
    ensures Next(bs, b) in bs
    ensures var bs', r := Cut(bs, b, s), b + 1 + s;
      && Coalesced(bs', last, {r}) && r in bs' && r != last && bs'[r].free && !bs'[r].prevFree
      && Used(bs') == Used(bs)[b := s]
  {
    var n, r := Next(bs, b), b + 1 + s;
    var bs' := Cut(bs, b, s);
    CutTiles(bs, first, last, b, s, n);
    forall h | h in bs' && h != last && bs'[h].free && h !in {r}
      ensures Next(bs', h) in bs' && (bs'[Next(bs', h)].free ==> Next(bs', h) in {r})
    {
      assert Next(bs', h) == Next(bs, h);
    }
    assert Used(bs').Keys == Used(bs).Keys;
  }

  /** Cutting free block b into a leading gap and a block r about to be handed out. */
  lemma CoalescedCutFree(bs: Blocks, first: int, last: int, b: int, s: int)
    requires Settled(bs, first, last) && b in bs && bs[b].free && 3 <= s && s + 4 <= bs[b].w
    ensures Next(bs, b) in bs
    ensures var bs', r := Cut(bs, b, s), b + 1 + s;
      && Coalesced(bs', last, {r}) && r in bs' && bs'[r].free && bs'[r].w == bs[b].w - s - 1
      && Next(bs', r) == Next(bs, b) && Next(bs', r) in bs' && !bs'[Next(bs', r)].free
      && Used(bs') == Used(bs)
  {
    var n, r := Next(bs, b), b + 1 + s;
    var bs' := Cut(bs, b, s);
    CutTiles(bs, first, last, b, s, n);
    forall h | h in bs' && h != last && bs'[h].free && h !in {r}
      ensures Next(bs', h) in bs' && (bs'[Next(bs', h)].free ==> Next(bs', h) in {r})
    {
      if h != b { assert Next(bs', h) == Next(bs, h); }
    }
    assert Used(bs').Keys == Used(bs).Keys;
  }
}
