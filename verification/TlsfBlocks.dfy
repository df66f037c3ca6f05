/** The physical side of the TLSF heap: an abstract map of blocks and the words that represent it.
    The pool is an array of 8-byte words; a block is named by the word index of its header, whose
    word `h` is `prev_phys_block` (the last payload word of the block before it), word `h + 1` the
    size with its two flag bits, and words `h + 2`, `h + 3` the free-list links of a free block. */
module TlsfBlocks {
  import opened TlsfMapping

  /** A block: payload length in words, its own free bit and the free bit of its predecessor. */
  datatype Block = Block(w: int, free: bool, prevFree: bool)

  type Blocks = map<int, Block>

  /** Header word index of the word just after the header of block_null (words 0..3). */
  const FIRST_POOL_WORD: int := 4

  // ----- size words

  function SizeWord(b: Block): int {
    8 * b.w + Flag(b.free, 1) + Flag(b.prevFree, 2)
  }

  function Flag(f: bool, bit: int): int { if f then bit else 0 }
  function SizeOf(x: int): int { x - x % 4 }
  predicate IsFree(x: int) { x % 4 == 1 || x % 4 == 3 }
  predicate IsPrevFree(x: int) { x % 4 >= 2 }
  function WithSize(x: int, size: int): int { size + x % 4 }
  function WithFree(x: int, free: bool): int { SizeOf(x) + Flag(free, 1) + Flag(IsPrevFree(x), 2) }
  function WithPrevFree(x: int, free: bool): int { SizeOf(x) + Flag(IsFree(x), 1) + Flag(free, 2) }

  lemma SizeWordFields(b: Block)
    ensures SizeOf(SizeWord(b)) == 8 * b.w
    ensures IsFree(SizeWord(b)) == b.free && IsPrevFree(SizeWord(b)) == b.prevFree
  {
    assert SizeWord(b) % 4 == Flag(b.free, 1) + Flag(b.prevFree, 2);
  }

  lemma SizeWordUpdates(b: Block, w: int, f: bool)
    ensures WithSize(SizeWord(b), 8 * w) == SizeWord(b.(w := w))
    ensures WithFree(SizeWord(b), f) == SizeWord(b.(free := f))
    ensures WithPrevFree(SizeWord(b), f) == SizeWord(b.(prevFree := f))
  {
    SizeWordFields(b);
  }

  // ----- block maps

  function Next(bs: Blocks, h: int): int {
    if h in bs then h + 1 + bs[h].w else h
  }

  /** Of two blocks the later starts behind the earlier one's payload. */
  predicate InOrder(bs: Blocks, g: int, h: int) {
    g in bs && h in bs && g < h ==> g + 1 + bs[g].w <= h
  }

  /** The blocks tile the pool from `first` up to the zero-size sentinel `last`. */
  ghost predicate Tiles(bs: Blocks, first: int, last: int) {
    && FIRST_POOL_WORD <= first < last && first in bs && last in bs
    && bs[last].w == 0 && !bs[last].free
    && (forall h | h in bs :: first <= h <= last)
    && 8 * (last - first - 1) < BLOCK_SIZE_MAX
    && (forall h | h in bs && h != last :: 3 <= bs[h].w)
    && (forall h {:trigger Next(bs, h)} | h in bs && h != last :: Next(bs, h) in bs)
    && (forall g, h {:trigger InOrder(bs, g, h)} :: InOrder(bs, g, h))
  }

  /** Every prev-free bit tells the state of the predecessor, except that of the block after `x`. */
  ghost predicate FlagsBut(bs: Blocks, first: int, last: int, x: int) {
    && first in bs && !bs[first].prevFree
    && (forall h {:trigger Next(bs, h)} | h in bs && h != last && h != x ::
          Next(bs, h) in bs && bs[Next(bs, h)].prevFree == bs[h].free)
  }

  ghost predicate Flags(bs: Blocks, first: int, last: int) {
    FlagsBut(bs, first, last, 0)
  }

  /** No two neighbours are both free, except where one of them is in `held`. */
  ghost predicate Coalesced(bs: Blocks, last: int, held: set<int>) {
    forall h {:trigger Next(bs, h)} | h in bs && h != last && bs[h].free && h !in held ::
      Next(bs, h) in bs && (bs[Next(bs, h)].free ==> Next(bs, h) in held)
  }

  /** The words of memory that hold the size fields. */
  ghost predicate Sizes(m: seq<int>, bs: Blocks) {
    forall h | h in bs :: 0 <= h + 1 < |m| && m[h + 1] == SizeWord(bs[h])
  }

  /** The last payload word of a free block points back at it (`prev_phys_block` of its successor). */
  ghost predicate BackLinks(m: seq<int>, bs: Blocks) {
    forall h {:trigger Next(bs, h)} | h in bs && bs[h].free :: 0 <= Next(bs, h) < |m| && m[Next(bs, h)] == h
  }

  ghost predicate Physical(m: seq<int>, bs: Blocks, first: int, last: int) {
    Tiles(bs, first, last) && Flags(bs, first, last) && last + 1 < |m| && Sizes(m, bs) && BackLinks(m, bs)
  }

  /** Word i belongs to the payload of used block h. */
  predicate InPayload(bs: Blocks, h: int, i: int) {
    h in bs && !bs[h].free && h + 2 <= i < h + 2 + bs[h].w
  }

  /** Payload words of used blocks are the same in both memories. */
  ghost predicate PayloadKept(m: seq<int>, m': seq<int>, bs: Blocks) {
    && |m| == |m'|
    && (forall h, i {:trigger InPayload(bs, h, i)} | InPayload(bs, h, i) && 0 <= i < |m| :: m'[i] == m[i])
  }

  /** Free-list words of the free blocks are the same in both memories. */
  ghost predicate LinksKept(m: seq<int>, m': seq<int>, bs: Blocks) {
    && |m| == |m'|
    && (forall h | h in bs && bs[h].free && 0 <= h < |m| - 3 :: m'[h + 2] == m[h + 2] && m'[h + 3] == m[h + 3])
  }

  // ----- marking a block free or used

  function SetFree(bs: Blocks, b: int, free: bool): Blocks
    requires b in bs && Next(bs, b) in bs
  {
    var n := Next(bs, b);
    bs[n := bs[n].(prevFree := free)][b := bs[b].(free := free)]
  }

  /** Memory after `block_mark_as_free` (with the back link) or `block_mark_as_used` (without). */
  function MarkWords(m: seq<int>, bs: Blocks, b: int, free: bool): seq<int>
    requires b in bs && Next(bs, b) in bs && 0 <= b < Next(bs, b) < |m| - 1
  {
    var n := Next(bs, b);
    (if free then m[n := b] else m)[n + 1 := SizeWord(bs[n].(prevFree := free))][b + 1 := SizeWord(bs[b].(free := free))]
  }

  lemma SetFreeTiles(bs: Blocks, first: int, last: int, b: int, free: bool)
    requires Tiles(bs, first, last) && b in bs && b != last
    ensures Next(bs, b) in bs
    ensures Tiles(SetFree(bs, b, free), first, last)
  {
    var bs' := SetFree(bs, b, free);
    forall h | h in bs' && h != last ensures Next(bs', h) in bs' {
      assert Next(bs', h) == Next(bs, h);
    }
    forall g, h ensures InOrder(bs', g, h) { assert InOrder(bs, g, h); }
  }

  lemma SetFreeFlags(bs: Blocks, first: int, last: int, b: int, free: bool)
    requires Tiles(bs, first, last) && FlagsBut(bs, first, last, b) && b in bs && b != last
    ensures Next(bs, b) in bs
    ensures Flags(SetFree(bs, b, free), first, last)
  {
    var n := Next(bs, b);
    var bs' := SetFree(bs, b, free);
    forall h | h in bs' && h != last ensures Next(bs', h) in bs' && bs'[Next(bs', h)].prevFree == bs'[h].free {
      assert Next(bs', h) == Next(bs, h);
      assert InOrder(bs, h, b);
      assert InOrder(bs, b, h);
    }
  }

  lemma SetFreeSizes(m: seq<int>, bs: Blocks, first: int, last: int, b: int, free: bool)
    requires Tiles(bs, first, last) && last + 1 < |m| && Sizes(m, bs) && b in bs && b != last
    ensures Next(bs, b) in bs
    ensures Sizes(MarkWords(m, bs, b, free), SetFree(bs, b, free))
  {
    var n := Next(bs, b);
    var bs' := SetFree(bs, b, free);
    var m' := MarkWords(m, bs, b, free);
    forall h | h in bs' ensures 0 <= h + 1 < |m'| && m'[h + 1] == SizeWord(bs'[h]) {
      assert InOrder(bs, h, b);
      assert InOrder(bs, b, h);
    }
  }

  lemma SetFreeBackLinks(m: seq<int>, bs: Blocks, first: int, last: int, b: int, free: bool)
    requires Tiles(bs, first, last) && last + 1 < |m| && BackLinks(m, bs) && b in bs && b != last
    ensures Next(bs, b) in bs
    ensures BackLinks(MarkWords(m, bs, b, free), SetFree(bs, b, free))
  {
    var n := Next(bs, b);
    var bs' := SetFree(bs, b, free);
    var m' := MarkWords(m, bs, b, free);
    forall h | h in bs' && bs'[h].free ensures 0 <= Next(bs', h) < |m'| && m'[Next(bs', h)] == h {
      assert Next(bs', h) == Next(bs, h) && Next(bs, h) in bs;
      assert InOrder(bs, h, b);
      assert InOrder(bs, b, h);
    }
  }

  lemma SetFreePhysical(m: seq<int>, bs: Blocks, first: int, last: int, b: int, free: bool)
    requires Physical(m, bs, first, last) && b in bs && b != last
    ensures Next(bs, b) in bs
    ensures Physical(MarkWords(m, bs, b, free), SetFree(bs, b, free), first, last)
  {
    SetFreeTiles(bs, first, last, b, free);
    SetFreeFlags(bs, first, last, b, free);
    SetFreeSizes(m, bs, first, last, b, free);
    SetFreeBackLinks(m, bs, first, last, b, free);
  }

  /** Marking touches no payload of another used block; marking as used touches not even its own. */
  lemma MarkKeepsPayload(m: seq<int>, bs: Blocks, first: int, last: int, b: int, free: bool)
    requires Tiles(bs, first, last) && last + 1 < |m| && b in bs && b != last
    ensures Next(bs, b) in bs
    ensures PayloadKept(m, MarkWords(m, bs, b, free), SetFree(bs, b, free))
  {
    var n := Next(bs, b);
    var bs' := SetFree(bs, b, free);
    var m' := MarkWords(m, bs, b, free);
    forall h, i | InPayload(bs', h, i) && 0 <= i < |m| ensures m'[i] == m[i] {
      assert InOrder(bs, h, b);
      assert InOrder(bs, b, h);
    }
  }

  lemma MarkKeepsLinks(m: seq<int>, bs: Blocks, first: int, last: int, b: int, free: bool)
    requires Tiles(bs, first, last) && last + 1 < |m| && b in bs && b != last
    ensures Next(bs, b) in bs
    ensures LinksKept(m, MarkWords(m, bs, b, free), bs)
  {
    var n := Next(bs, b);
    var m' := MarkWords(m, bs, b, free);
    forall h | h in bs && bs[h].free && 0 <= h < |m| - 3
      ensures m'[h + 2] == m[h + 2] && m'[h + 3] == m[h + 3]
    {
      assert InOrder(bs, h, b);
      assert InOrder(bs, b, h);
    }
  }

  // ----- merging a block with its free successor

  function Absorb(bs: Blocks, p: int): Blocks
    requires p in bs && Next(bs, p) in bs
  {
    var b := Next(bs, p);
    (bs - {b})[p := bs[p].(w := bs[p].w + 1 + bs[b].w)]
  }

  /** The words `block_absorb` writes: the longer size, and the back link in front of block n. */
  function AbsorbWords(m: seq<int>, p: int, extra: int, n: int): seq<int>
    requires 0 <= p < n < |m|
  {
    m[p + 1 := m[p + 1] + 8 * extra][n := p]
  }

  /** Shape of a merge: p, its successor b (not the sentinel), and the successor n of that. */
  ghost predicate Merging(bs: Blocks, first: int, last: int, p: int, b: int, n: int) {
    && Tiles(bs, first, last)
    && p in bs && p != last && b == Next(bs, p) && b in bs && b != last && n == Next(bs, b) && n in bs
  }

  lemma AbsorbTiles(bs: Blocks, first: int, last: int, p: int, b: int, n: int)
    requires Merging(bs, first, last, p, b, n)
    ensures Tiles(Absorb(bs, p), first, last)
  {
    var bs' := Absorb(bs, p);
    forall h | h in bs' && h != last ensures Next(bs', h) in bs' {
      assert Next(bs, h) in bs;
      if h != p { assert Next(bs', h) == Next(bs, h); }
      assert InOrder(bs, h, p) && InOrder(bs, p, h);
      assert InOrder(bs, b, h);
    }
    forall g, h ensures InOrder(bs', g, h) {
      assert InOrder(bs, g, h) && InOrder(bs, p, h) && InOrder(bs, b, h);
    }
  }

  lemma AbsorbFlags(bs: Blocks, first: int, last: int, p: int, b: int, n: int)
    requires Merging(bs, first, last, p, b, n) && Flags(bs, first, last)
    ensures FlagsBut(Absorb(bs, p), first, last, p)
    ensures bs[p].free == bs[b].free ==> Flags(Absorb(bs, p), first, last)
    ensures bs[n].prevFree == bs[b].free
  {
    var bs' := Absorb(bs, p);
    AbsorbTiles(bs, first, last, p, b, n);
    assert Next(bs', p) == n;
    forall h | h in bs' && h != last && h != p
      ensures Next(bs', h) in bs' && bs'[Next(bs', h)].prevFree == bs'[h].free
    {
      assert Next(bs', h) == Next(bs, h);
      assert InOrder(bs, h, p);
      assert InOrder(bs, b, h);
    }
  }

  lemma AbsorbSizes(m: seq<int>, bs: Blocks, first: int, last: int, p: int, b: int, n: int)
    requires Merging(bs, first, last, p, b, n) && last + 1 < |m| && Sizes(m, bs)
    ensures Sizes(AbsorbWords(m, p, bs[b].w + 1, n), Absorb(bs, p))
  {
    var bs', m' := Absorb(bs, p), AbsorbWords(m, p, bs[b].w + 1, n);
    forall h | h in bs' ensures 0 <= h + 1 < |m'| && m'[h + 1] == SizeWord(bs'[h]) {
      assert InOrder(bs, h, b);
      assert InOrder(bs, b, h);
    }
  }

  lemma AbsorbBackLinks(m: seq<int>, bs: Blocks, first: int, last: int, p: int, b: int, n: int)
    requires Merging(bs, first, last, p, b, n) && last + 1 < |m| && BackLinks(m, bs)
    ensures BackLinks(AbsorbWords(m, p, bs[b].w + 1, n), Absorb(bs, p))
  {
    var bs', m' := Absorb(bs, p), AbsorbWords(m, p, bs[b].w + 1, n);
    forall h | h in bs' && bs'[h].free ensures 0 <= Next(bs', h) < |m'| && m'[Next(bs', h)] == h {
      if h != p {
        assert Next(bs', h) == Next(bs, h) && Next(bs, h) in bs;
        assert InOrder(bs, h, p) && InOrder(bs, p, h);
        assert InOrder(bs, b, h);
      }
    }
  }

  lemma AbsorbKeeps(m: seq<int>, bs: Blocks, first: int, last: int, p: int, b: int, n: int)
    requires Merging(bs, first, last, p, b, n) && last + 1 < |m| && bs[b].free
    ensures PayloadKept(m, AbsorbWords(m, p, bs[b].w + 1, n), bs)
    ensures LinksKept(m, AbsorbWords(m, p, bs[b].w + 1, n), bs)
  {
    var m' := AbsorbWords(m, p, bs[b].w + 1, n);
    forall h, i | InPayload(bs, h, i) && 0 <= i < |m| ensures m'[i] == m[i] {
      assert InOrder(bs, h, p);
      assert InOrder(bs, p, h);
      assert InOrder(bs, b, h);
    }
    forall h | h in bs && bs[h].free && 0 <= h < |m| - 3
      ensures m'[h + 2] == m[h + 2] && m'[h + 3] == m[h + 3]
    {
      assert InOrder(bs, h, p);
      assert InOrder(bs, p, h);
      assert InOrder(bs, b, h);
    }
  }

  lemma AbsorbPhysical(m: seq<int>, bs: Blocks, first: int, last: int, p: int, b: int, n: int)
    requires Merging(bs, first, last, p, b, n) && Physical(m, bs, first, last) && bs[p].free && bs[b].free
    ensures Physical(AbsorbWords(m, p, bs[b].w + 1, n), Absorb(bs, p), first, last)
  {
    AbsorbTiles(bs, first, last, p, b, n);
    AbsorbFlags(bs, first, last, p, b, n);
    AbsorbSizes(m, bs, first, last, p, b, n);
    AbsorbBackLinks(m, bs, first, last, p, b, n);
  }

  lemma AbsorbEffect(m: seq<int>, bs: Blocks, first: int, last: int, p: int, b: int, n: int)
    requires Merging(bs, first, last, p, b, n) && Physical(m, bs, first, last) && bs[p].free && bs[b].free
    ensures var m', bs' := AbsorbWords(m, p, bs[b].w + 1, n), Absorb(bs, p);
      Physical(m', bs', first, last) && PayloadKept(m, m', bs') && LinksKept(m, m', bs)
  {
    AbsorbPhysical(m, bs, first, last, p, b, n);
    AbsorbKeeps(m, bs, first, last, p, b, n);
    var m', bs' := AbsorbWords(m, p, bs[b].w + 1, n), Absorb(bs, p);
    forall h, i | InPayload(bs', h, i) && 0 <= i < |m| ensures m'[i] == m[i] { assert InPayload(bs, h, i); }
  }

  /** Growing a used block over its free successor: the merge and `block_mark_as_used` together. */
  lemma GrowPhysical(m: seq<int>, bs: Blocks, first: int, last: int, p: int, b: int, n: int)
    requires Merging(bs, first, last, p, b, n) && Physical(m, bs, first, last) && !bs[p].free && bs[b].free
    ensures var m1, bs1 := AbsorbWords(m, p, bs[b].w + 1, n), Absorb(bs, p);
      && p in bs1 && Next(bs1, p) == n && n in bs1
      && Physical(MarkWords(m1, bs1, p, false), SetFree(bs1, p, false), first, last)
  {
    var m1, bs1 := AbsorbWords(m, p, bs[b].w + 1, n), Absorb(bs, p);
    AbsorbTiles(bs, first, last, p, b, n);
    AbsorbFlags(bs, first, last, p, b, n);
    AbsorbSizes(m, bs, first, last, p, b, n);
    AbsorbBackLinks(m, bs, first, last, p, b, n);
    SetFreeTiles(bs1, first, last, p, false);
    SetFreeFlags(bs1, first, last, p, false);
    SetFreeSizes(m1, bs1, first, last, p, false);
    SetFreeBackLinks(m1, bs1, first, last, p, false);
  }

  lemma GrowKeeps(m: seq<int>, bs: Blocks, first: int, last: int, p: int, b: int, n: int)
    requires Merging(bs, first, last, p, b, n) && last + 1 < |m| && bs[b].free
    requires var bs1 := Absorb(bs, p); p in bs1 && Next(bs1, p) == n && n in bs1
    ensures var m1, bs1 := AbsorbWords(m, p, bs[b].w + 1, n), Absorb(bs, p);
      && PayloadKept(m, MarkWords(m1, bs1, p, false), bs)
      && LinksKept(m, MarkWords(m1, bs1, p, false), bs)
  {
    var m1, bs1 := AbsorbWords(m, p, bs[b].w + 1, n), Absorb(bs, p);
    var m2 := MarkWords(m1, bs1, p, false);
    forall h, i | InPayload(bs, h, i) && 0 <= i < |m| ensures m2[i] == m[i] {
      assert InOrder(bs, h, p);
      assert InOrder(bs, p, h);
      assert InOrder(bs, b, h);
    }
    forall h | h in bs && bs[h].free && 0 <= h < |m| - 3 ensures m2[h + 2] == m[h + 2] && m2[h + 3] == m[h + 3] {
      assert InOrder(bs, h, p);
      assert InOrder(bs, p, h);
      assert InOrder(bs, b, h);
    }
  }

  /** Every block but the first has a predecessor. */
  lemma {:induction false} Predecessor(bs: Blocks, first: int, last: int, b: int, h: int) returns (p: int)
    requires Tiles(bs, first, last) && b in bs && h in bs && h < b
    ensures p in bs && h <= p < b && Next(bs, p) == b
    decreases b - h
  {
    if Next(bs, h) == b {
      p := h;
    } else {
      assert InOrder(bs, h, b);
      p := Predecessor(bs, first, last, b, Next(bs, h));
    }
  }

  /** A set prev-free bit can be trusted: the back link names the free predecessor. */
  lemma FreePredecessor(m: seq<int>, bs: Blocks, first: int, last: int, b: int)
    requires Physical(m, bs, first, last) && b in bs && bs[b].prevFree
    ensures 0 <= b < |m| && m[b] in bs && bs[m[b]].free && m[b] != last && Next(bs, m[b]) == b && m[b] < b
  {
    var p := Predecessor(bs, first, last, b, first);
  }

  // ----- splitting a block

  /** Cut block `b` after `s` words; the rest becomes a free block of its own. */
  function Cut(bs: Blocks, b: int, s: int): Blocks
    requires b in bs && Next(bs, b) in bs
  {
    var n := Next(bs, b);
    bs[n := bs[n].(prevFree := true)][b := bs[b].(w := s)][b + 1 + s := Block(bs[b].w - s - 1, true, bs[b].free)]
  }

  /** Memory after a split followed by its caller's flag and link updates. */
  function CutWords(m: seq<int>, bs: Blocks, b: int, s: int): seq<int>
    requires b in bs && Next(bs, b) in bs && 0 <= b && 3 <= s && b + s + 5 <= Next(bs, b) < |m| - 1
  {
    var n, r := Next(bs, b), b + 1 + s;
    var m1 := m[r + 1 := SizeWord(Block(n - r - 1, true, bs[b].free))][b + 1 := SizeWord(bs[b].(w := s))];
    var m2 := m1[n := r][n + 1 := SizeWord(bs[n].(prevFree := true))];
    if bs[b].free then m2[r := b] else m2
  }

  /** Memory after `block_split` itself: as `CutWords`, but the new block's prev-free bit g is whatever
      the payload word held before, and there is no back link to b yet. */
  function SplitWords(m: seq<int>, bs: Blocks, b: int, s: int, g: bool): seq<int>
    requires b in bs && Next(bs, b) in bs && 0 <= b && 3 <= s && b + s + 5 <= Next(bs, b) < |m| - 1
  {
    var n, r := Next(bs, b), b + 1 + s;
    m[r + 1 := SizeWord(Block(n - r - 1, true, g))][b + 1 := SizeWord(bs[b].(w := s))]
      [n := r][n + 1 := SizeWord(bs[n].(prevFree := true))]
  }

  lemma SplitThenLink(m: seq<int>, bs: Blocks, b: int, s: int, g: bool)
    requires b in bs && Next(bs, b) in bs && 0 <= b && 3 <= s && b + s + 5 <= Next(bs, b) < |m| - 1
    ensures var r := b + 1 + s;
      var fixed := SplitWords(m, bs, b, s, g)[r + 1 := SizeWord(Block(Next(bs, b) - r - 1, true, bs[b].free))];
      CutWords(m, bs, b, s) == if bs[b].free then fixed[r := b] else fixed
  {}

  /** A size word written over arbitrary contents: the two flag bits keep their garbage until set. */
  lemma FreshSizeWord(x: int, w: int)
    ensures WithSize(x, 8 * w) == SizeWord(Block(w, IsFree(x), IsPrevFree(x)))
  {}

  ghost predicate Cutting(bs: Blocks, first: int, last: int, b: int, s: int, n: int) {
    && Tiles(bs, first, last)
    && b in bs && b != last && n == Next(bs, b) && n in bs && 3 <= s && s + 4 <= bs[b].w
  }

  lemma CutTiles(bs: Blocks, first: int, last: int, b: int, s: int, n: int)
    requires Cutting(bs, first, last, b, s, n)
    ensures Tiles(Cut(bs, b, s), first, last) && b + 1 + s !in bs
  {
    var bs', r := Cut(bs, b, s), b + 1 + s;
    assert InOrder(bs, b, r);
    forall h | h in bs' && h != last ensures Next(bs', h) in bs' {
      if h != b && h != r { assert Next(bs', h) == Next(bs, h) && Next(bs, h) in bs; }
    }
    forall g, h ensures InOrder(bs', g, h) {
      assert InOrder(bs, g, h) && InOrder(bs, b, h) && InOrder(bs, g, b) && InOrder(bs, b, g);
    }
  }

  lemma CutFlags(bs: Blocks, first: int, last: int, b: int, s: int, n: int)
    requires Cutting(bs, first, last, b, s, n) && Flags(bs, first, last)
    ensures Flags(Cut(bs, b, s), first, last)
  {
    var bs', r := Cut(bs, b, s), b + 1 + s;
    CutTiles(bs, first, last, b, s, n);
    forall h | h in bs' && h != last && h != 0
      ensures Next(bs', h) in bs' && bs'[Next(bs', h)].prevFree == bs'[h].free
    {
      if h != b && h != r {
        assert Next(bs', h) == Next(bs, h);
        assert InOrder(bs, h, b);
        assert InOrder(bs, b, h);
      }
    }
  }

  lemma CutSizes(m: seq<int>, bs: Blocks, first: int, last: int, b: int, s: int, n: int)
    requires Cutting(bs, first, last, b, s, n) && last + 1 < |m| && Sizes(m, bs)
    ensures Sizes(CutWords(m, bs, b, s), Cut(bs, b, s))
  {
    var bs', r, m' := Cut(bs, b, s), b + 1 + s, CutWords(m, bs, b, s);
    forall h | h in bs' ensures 0 <= h + 1 < |m'| && m'[h + 1] == SizeWord(bs'[h]) {
      if h != r {
        assert InOrder(bs, h, b);
        assert InOrder(bs, b, h);
      }
    }
  }

  lemma CutBackLinks(m: seq<int>, bs: Blocks, first: int, last: int, b: int, s: int, n: int)
    requires Cutting(bs, first, last, b, s, n) && last + 1 < |m| && BackLinks(m, bs)
    ensures BackLinks(CutWords(m, bs, b, s), Cut(bs, b, s))
  {
    var bs', r, m' := Cut(bs, b, s), b + 1 + s, CutWords(m, bs, b, s);
    forall h | h in bs' && bs'[h].free ensures 0 <= Next(bs', h) < |m'| && m'[Next(bs', h)] == h {
      if h != r && h != b {
        assert Next(bs', h) == Next(bs, h) && Next(bs, h) in bs;
        assert InOrder(bs, h, b);
        assert InOrder(bs, b, h);
      }
    }
  }

  lemma CutPhysical(m: seq<int>, bs: Blocks, first: int, last: int, b: int, s: int, n: int)
    requires Cutting(bs, first, last, b, s, n) && Physical(m, bs, first, last)
    ensures Physical(CutWords(m, bs, b, s), Cut(bs, b, s), first, last)
    ensures b + 1 + s !in bs && first < b + 1 + s < last
  {
    CutTiles(bs, first, last, b, s, n);
    CutFlags(bs, first, last, b, s, n);
    CutSizes(m, bs, first, last, b, s, n);
    CutBackLinks(m, bs, first, last, b, s, n);
  }

  lemma CutKeeps(m: seq<int>, bs: Blocks, first: int, last: int, b: int, s: int, n: int)
    requires Cutting(bs, first, last, b, s, n) && last + 1 < |m|
    ensures PayloadKept(m, CutWords(m, bs, b, s), Cut(bs, b, s))
    ensures LinksKept(m, CutWords(m, bs, b, s), bs)
  {
    var bs', r, m' := Cut(bs, b, s), b + 1 + s, CutWords(m, bs, b, s);
    forall h, i | InPayload(bs', h, i) && 0 <= i < |m| ensures m'[i] == m[i] {
      assert InOrder(bs, h, b);
      assert InOrder(bs, b, h);
    }
    forall h | h in bs && bs[h].free && 0 <= h < |m| - 3
      ensures m'[h + 2] == m[h + 2] && m'[h + 3] == m[h + 3]
    {
      assert InOrder(bs, h, b);
      assert InOrder(bs, b, h);
    }
  }
}
