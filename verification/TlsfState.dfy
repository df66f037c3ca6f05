/** One value holding everything the allocator's words mean, and how each step changes it. */
module TlsfState {
  import opened Bits
  import opened TlsfMapping
  import opened TlsfBlocks
  import opened TlsfLists

  function FreeSet(bs: Blocks): set<int> {
    set h | h in bs && bs[h].free
  }

  /** Used blocks of `bs'` are used blocks of `bs`, at the same place and of the same length. */
  ghost predicate UsedWithin(bs': Blocks, bs: Blocks) {
    forall h | h in bs' && !bs'[h].free :: h in bs && !bs[h].free && bs[h].w == bs'[h].w
  }

  lemma KeptTrans(m0: seq<int>, m1: seq<int>, m2: seq<int>, bs: Blocks, bs1: Blocks)
    requires PayloadKept(m0, m1, bs) && PayloadKept(m1, m2, bs1) && UsedWithin(bs, bs1)
    ensures PayloadKept(m0, m2, bs)
  {
    forall h, i | InPayload(bs, h, i) && 0 <= i < |m0| ensures m2[i] == m0[i] { assert InPayload(bs1, h, i); }
  }

  lemma KeptWeaken(m0: seq<int>, m1: seq<int>, bs: Blocks, bs1: Blocks)
    requires PayloadKept(m0, m1, bs1) && UsedWithin(bs, bs1)
    ensures PayloadKept(m0, m1, bs)
  {
    forall h, i | InPayload(bs, h, i) && 0 <= i < |m0| ensures m1[i] == m0[i] { assert InPayload(bs1, h, i); }
  }

  lemma SetFreeSet(bs: Blocks, b: int, free: bool)
    requires b in bs && Next(bs, b) in bs && Next(bs, b) != b
    ensures FreeSet(SetFree(bs, b, free)) == if free then FreeSet(bs) + {b} else FreeSet(bs) - {b}
  {}

  lemma AbsorbSet(bs: Blocks, p: int, b: int)
    requires p in bs && b == Next(bs, p) && b in bs && p != b
    ensures FreeSet(Absorb(bs, p)) == FreeSet(bs) - {b}
  {}

  lemma GrowSet(bs: Blocks, p: int, b: int)
    requires p in bs && b == Next(bs, p) && b in bs && p < b && !bs[p].free
    requires Next(bs, b) in bs && Next(bs, b) > b
    ensures var bs' := SetFree(Absorb(bs, p), p, false);
      && FreeSet(bs') == FreeSet(bs) - {b}
      && (forall x | x in bs && bs[x].free && x != b :: x in bs' && bs'[x].free && bs'[x].w == bs[x].w)
  {
    AbsorbSet(bs, p, b);
    SetFreeSet(Absorb(bs, p), p, false);
  }

  lemma CutSet(bs: Blocks, b: int, s: int)
    requires b in bs && Next(bs, b) in bs && b + 1 + s !in bs && Next(bs, b) != b
    ensures FreeSet(Cut(bs, b, s)) == FreeSet(bs) + {b + 1 + s}
  {}

  datatype View = View(cls: Classifier, m: seq<int>, first: int, last: int, heads: Heads, fl: nat, sl: seq<nat>,
                       bs: Blocks, lists: Lists, listed: set<int>) {

    /** Everything but coalescing: words, links and bitmaps agree with the abstract state, and the free
        blocks are the listed ones plus those an operation currently holds. */
    ghost predicate Linked(held: set<int>) {
      && Physical(m, bs, first, last)
      && Chains(m, heads, lists) && Index(cls, bs, lists, listed) && Bitmaps(fl, sl, lists)
      && listed !! held && listed + held == FreeSet(bs)
    }

    ghost predicate Valid() {
      Linked({}) && Coalesced(bs, last, {})
    }

    /** What the words say about a block is what the block map says. */
    lemma ReadBlock(held: set<int>, b: int)
      requires Linked(held) && b in bs
      ensures 4 <= b < |m| - 1 && b <= last && last + 1 < |m|
      ensures m[b + 1] == SizeWord(bs[b]) && SizeOf(m[b + 1]) == 8 * bs[b].w
      ensures IsFree(m[b + 1]) == bs[b].free && IsPrevFree(m[b + 1]) == bs[b].prevFree
      ensures bs[b].free <==> b in listed + held
      ensures bs[b].free ==> b != last
      ensures 0 <= bs[b].w
      ensures b != last ==> Next(bs, b) in bs && 8 * bs[b].w < BLOCK_SIZE_MAX && b + 4 <= Next(bs, b) <= last
    {
      assert bs[b].free <==> b in FreeSet(bs);
      SizeWordFields(bs[b]);
      var n := Next(bs, b);
      if b != last { assert n in bs; }
    }

    /** A step that rewrites words and blocks but neither links nor listed blocks. */
    lemma Reassemble(m': seq<int>, bs': Blocks, held: set<int>, held': set<int>)
      requires Linked(held) && Physical(m', bs', first, last) && LinksKept(m, m', bs)
      requires forall x | x in bs && bs[x].free && x in listed :: x in bs' && bs'[x].free && bs'[x].w == bs[x].w
      requires listed !! held' && listed + held' == FreeSet(bs')
      ensures this.(m := m', bs := bs').Linked(held')
    {
      IndexFree(cls, bs, lists, listed);
      ListsFrame(cls, m, m', heads, lists, bs, bs', listed);
    }

    lemma MarkStep(b: int, free: bool, held: set<int>)
      requires Linked(held) && b in bs && b != last && (if free then !bs[b].free else b in held)
      ensures Next(bs, b) in bs && 4 <= b < Next(bs, b) < |m| - 1
      ensures var m', bs' := MarkWords(m, bs, b, free), SetFree(bs, b, free);
        this.(m := m', bs := bs').Linked(if free then held + {b} else held - {b}) && PayloadKept(m, m', bs')
    {
      ReadBlock(held, b);
      SetFreePhysical(m, bs, first, last, b, free);
      MarkKeepsPayload(m, bs, first, last, b, free);
      MarkKeepsLinks(m, bs, first, last, b, free);
      SetFreeSet(bs, b, free);
      Reassemble(MarkWords(m, bs, b, free), SetFree(bs, b, free), held, if free then held + {b} else held - {b});
    }

    /** Shape of a merge of p with its successor b. */
    ghost predicate CanAbsorb(p: int, b: int) {
      && p in bs && p != last && b == Next(bs, p) && b in bs && b != last && bs[b].free
    }

    lemma MergeShape(p: int, b: int, held: set<int>)
      requires Linked(held) && CanAbsorb(p, b)
      ensures Merging(bs, first, last, p, b, Next(bs, b)) && 4 <= p < b < Next(bs, b) < |m| - 1
    {
      ReadBlock(held, p);
      ReadBlock(held, b);
    }

    lemma AbsorbStep(p: int, b: int)
      requires Linked({p, b}) && CanAbsorb(p, b) && p != b
      ensures Merging(bs, first, last, p, b, Next(bs, b)) && 0 <= p < Next(bs, b) < |m|
      ensures var m', bs' := AbsorbWords(m, p, bs[b].w + 1, Next(bs, b)), Absorb(bs, p);
        this.(m := m', bs := bs').Linked({p}) && PayloadKept(m, m', bs')
    {
      MergeShape(p, b, {p, b});
      assert p in FreeSet(bs);
      var n := Next(bs, b);
      AbsorbEffect(m, bs, first, last, p, b, n);
      AbsorbSet(bs, p, b);
      Reassemble(AbsorbWords(m, p, bs[b].w + 1, n), Absorb(bs, p), {p, b}, {p});
    }

    lemma GrowShape(p: int, b: int)
      requires Linked({b}) && CanAbsorb(p, b) && !bs[p].free
      ensures Merging(bs, first, last, p, b, Next(bs, b)) && 4 <= p < b < Next(bs, b) < |m| - 1
      ensures var m1, bs1 := AbsorbWords(m, p, bs[b].w + 1, Next(bs, b)), Absorb(bs, p);
        && p in bs1 && Next(bs1, p) == Next(bs, b) && Next(bs, b) in bs1
        && m1[p + 1] == SizeWord(bs1[p]) && !bs1[p].free
    {
      MergeShape(p, b, {b});
      GrowSize(p, b, Next(bs, b));
    }

    /** Used block p grows over its free successor b, which no list holds any more. */
    lemma GrowStep(p: int, b: int, n: int) returns (m2: seq<int>, bs2: Blocks)
      requires Linked({b}) && CanAbsorb(p, b) && !bs[p].free
      requires Merging(bs, first, last, p, b, n) && 4 <= p < b < n < |m| - 1
      requires var bs1 := Absorb(bs, p); p in bs1 && Next(bs1, p) == n && n in bs1
      ensures var m1, bs1 := AbsorbWords(m, p, bs[b].w + 1, n), Absorb(bs, p);
        m2 == MarkWords(m1, bs1, p, false) && bs2 == SetFree(bs1, p, false)
      ensures this.(m := m2, bs := bs2).Linked({})
      ensures PayloadKept(m, m2, bs)
    {
      hide MarkWords, SetFree, SizeWord;
      m2, bs2 := GrowEffect(m, bs, first, last, p, b, n);
      Reassemble(m2, bs2, {b}, {});
    }

    static lemma GrowEffect(m: seq<int>, bs: Blocks, first: int, last: int, p: int, b: int, n: int)
      returns (m2: seq<int>, bs2: Blocks)
      requires Merging(bs, first, last, p, b, n) && Physical(m, bs, first, last) && !bs[p].free && bs[b].free
      requires 4 <= p < b < n < |m| - 1
      requires var bs1 := Absorb(bs, p); p in bs1 && Next(bs1, p) == n && n in bs1
      ensures var m1, bs1 := AbsorbWords(m, p, bs[b].w + 1, n), Absorb(bs, p);
        m2 == MarkWords(m1, bs1, p, false) && bs2 == SetFree(bs1, p, false)
      ensures Physical(m2, bs2, first, last) && PayloadKept(m, m2, bs) && LinksKept(m, m2, bs)
      ensures FreeSet(bs2) == FreeSet(bs) - {b}
      ensures forall x | x in bs && bs[x].free && x != b :: x in bs2 && bs2[x].free && bs2[x].w == bs[x].w
    {
      var m1, bs1 := AbsorbWords(m, p, bs[b].w + 1, n), Absorb(bs, p);
      m2, bs2 := MarkWords(m1, bs1, p, false), SetFree(bs1, p, false);
      GrowPhysical(m, bs, first, last, p, b, n);
      GrowKeeps(m, bs, first, last, p, b, n);
      GrowSet(bs, p, b);
    }

    lemma GrowSize(p: int, b: int, n: int)
      requires Merging(bs, first, last, p, b, n) && 4 <= p < n < |m| - 1 && last + 1 < |m| && Sizes(m, bs)
      ensures AbsorbWords(m, p, bs[b].w + 1, n)[p + 1] == SizeWord(Absorb(bs, p)[p])
    {
      AbsorbSizes(m, bs, first, last, p, b, n);
    }

    /** Block b is cut after s words; the rest, a new free block, is not yet in any list. */
    lemma CutStep(b: int, s: int, held: set<int>)
      requires Linked(held) && b in bs && b != last && 3 <= s && s + 4 <= bs[b].w && (bs[b].free ==> b in held)
      ensures Next(bs, b) in bs && 4 <= b && b + s + 5 <= Next(bs, b) < |m| - 1
      ensures b + 1 + s !in bs
      ensures var m', bs' := CutWords(m, bs, b, s), Cut(bs, b, s);
        this.(m := m', bs := bs').Linked(held + {b + 1 + s}) && PayloadKept(m, m', bs')
    {
      ReadBlock(held, b);
      var n := Next(bs, b);
      CutPhysical(m, bs, first, last, b, s, n);
      CutKeeps(m, bs, first, last, b, s, n);
      CutSet(bs, b, s);
      Reassemble(CutWords(m, bs, b, s), Cut(bs, b, s), held, held + {b + 1 + s});
    }

    /** Listed block b leaves its list: what is written, and the k-th place of its list goes. */
    lemma UnlistStep(b: int, held: set<int>) returns (k: int)
      requires Linked(held) && b in listed
      ensures b in bs && var c := cls(bs[b].w);
        && InRange(c) && 0 < b < |m| - 3 && 0 <= k < |lists[c.fl][c.sl]|
        && var p, n, l := m[b + 3], m[b + 2], lists[c.fl][c.sl];
        && 0 <= p < |m| - 3 && 0 <= n < |m| - 3
        && (heads[c.fl][c.sl] == b <==> k == 0) && (n == NULL_BLOCK <==> k == |l| - 1)
        && PayloadKept(m, UnlinkWords(m, p, n), bs)
        && Bitmaps(fl, sl, lists) && Shape(heads)
        && forall fl': nat, sl': seq<nat> | Bitmaps(fl', sl', Update(lists, c.fl, c.sl, Without(l, k))) ::
             View(cls, UnlinkWords(m, p, n), first, last, if k == 0 then Update(heads, c.fl, c.sl, n) else heads, fl', sl',
                  bs, Update(lists, c.fl, c.sl, Without(l, k)), listed - {b}).Linked(held + {b})
    {
      assert Filed(cls, bs, lists, b);
      k := Unlinking(cls, m, heads, lists, bs, first, last, listed, b, cls(bs[b].w));
    }

    /** Held block b goes to the front of the list of its class. */
    lemma RelistStep(b: int, c: Class, held: set<int>)
      requires Linked(held) && b in held && b in bs && c == cls(bs[b].w) && InRange(c)
      ensures 0 < b < |m| - 3 && 0 <= heads[c.fl][c.sl] < |m| - 3
      ensures var m', lists' := PushWords(m, b, heads[c.fl][c.sl]), Update(lists, c.fl, c.sl, [b] + lists[c.fl][c.sl]);
        && View(cls, m', first, last, Update(heads, c.fl, c.sl, b), Or(fl, Pow2(c.fl)), sl[c.fl := Or(sl[c.fl], Pow2(c.sl))],
                bs, lists', listed + {b}).Linked(held - {b})
        && PayloadKept(m, m', bs)
    {
      assert b in FreeSet(bs);
      Linking(cls, m, heads, lists, bs, first, last, listed, b, c);
      BitmapsSet(fl, sl, lists, c.fl, c.sl, [b] + lists[c.fl][c.sl]);
    }

    /** Writing inside the payload of a used block leaves the allocator's state alone. */
    lemma PayloadWrite(m': seq<int>, b: int)
      requires Linked({}) && b in bs && b != last && !bs[b].free && |m'| == |m|
      requires forall i | 0 <= i < |m| && !(b + 2 <= i < b + 2 + bs[b].w) :: m'[i] == m[i]
      ensures this.(m := m').Linked({}) && PayloadKept(m, m', bs - {b})
    {
      PayloadWritePhysical(m, m', bs, first, last, b);
      Reassemble(m', bs, {}, {});
    }
  }

  /** Only payload words of block b differ. */
  ghost predicate WroteIn(m: seq<int>, m': seq<int>, bs: Blocks, b: int) {
    b in bs && |m'| == |m| && forall i | 0 <= i < |m| && !(b + 2 <= i < b + 2 + bs[b].w) :: m'[i] == m[i]
  }

  lemma PayloadWritePhysical(m: seq<int>, m': seq<int>, bs: Blocks, first: int, last: int, b: int)
    requires Physical(m, bs, first, last) && b in bs && b != last && !bs[b].free && |m'| == |m|
    requires forall i | 0 <= i < |m| && !(b + 2 <= i < b + 2 + bs[b].w) :: m'[i] == m[i]
    ensures Physical(m', bs, first, last) && LinksKept(m, m', bs) && PayloadKept(m, m', bs - {b})
  {
    assert WroteIn(m, m', bs, b);
    WroteSizes(m, m', bs, first, last, b);
    WroteLinks(m, m', bs, first, last, b);
    WroteBackLinks(m, m', bs, first, last, b);
    WrotePayload(m, m', bs, first, last, b);
  }

  lemma WroteSizes(m: seq<int>, m': seq<int>, bs: Blocks, first: int, last: int, b: int)
    requires WroteIn(m, m', bs, b) && Tiles(bs, first, last) && b != last && Sizes(m, bs)
    ensures Sizes(m', bs)
  {
    forall h | h in bs ensures 0 <= h + 1 < |m'| && m'[h + 1] == SizeWord(bs[h]) { Apart(bs, first, last, b, h); }
  }

  lemma WroteLinks(m: seq<int>, m': seq<int>, bs: Blocks, first: int, last: int, b: int)
    requires WroteIn(m, m', bs, b) && Tiles(bs, first, last) && b != last && !bs[b].free
    ensures LinksKept(m, m', bs)
  {
    forall h | h in bs && bs[h].free && 0 <= h < |m| - 3 ensures m'[h + 2] == m[h + 2] && m'[h + 3] == m[h + 3] {
      Apart(bs, first, last, b, h);
    }
  }

  lemma WroteBackLinks(m: seq<int>, m': seq<int>, bs: Blocks, first: int, last: int, b: int)
    requires WroteIn(m, m', bs, b) && Tiles(bs, first, last) && b != last && !bs[b].free && BackLinks(m, bs)
    ensures BackLinks(m', bs)
  {
    forall h | h in bs && bs[h].free ensures 0 <= Next(bs, h) < |m'| && m'[Next(bs, h)] == h { Apart(bs, first, last, b, h); }
  }

  lemma WrotePayload(m: seq<int>, m': seq<int>, bs: Blocks, first: int, last: int, b: int)
    requires WroteIn(m, m', bs, b) && Tiles(bs, first, last) && b != last
    ensures PayloadKept(m, m', bs - {b})
  {
    forall h, i | InPayload(bs - {b}, h, i) && 0 <= i < |m| ensures m'[i] == m[i] {
      Apart(bs, first, last, b, h);
    }
  }

  /** A block's size word, and the payload of another block, lie outside the payload of block b. */
  lemma Apart(bs: Blocks, first: int, last: int, b: int, h: int)
    requires Tiles(bs, first, last) && b in bs && b != last && h in bs
    ensures h <= b || b + 1 + bs[b].w <= h
    ensures h < b ==> h + 1 + bs[h].w <= b
    ensures h != last ==> Next(bs, h) in bs
  {
    assert Next(bs, b) in bs && InOrder(bs, h, b) && InOrder(bs, b, h);
  }
}
