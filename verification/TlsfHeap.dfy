/** The TLSF allocator itself, over an array of words. Each method is the C function of the same name;
    the ghost fields hold the abstract block map and the contents of the free lists. */
module TlsfHeap {
  import opened Bits
  import opened Masks
  import opened TlsfMapping
  import opened TlsfBlocks
  import opened TlsfLists
  import opened TlsfState
  import opened TlsfShape
  import opened TlsfAlign

  class Heap {
    const mem: array<int>
    /** Byte address of word 0. */
    const base: nat
    ghost const first: int
    ghost const last: int
    /** The size-class map under a name of its own: list reasoning never looks inside it. */
    ghost const cls: Classifier

    var flBitmap: nat
    var slBitmap: seq<nat>
    var blocks: Heads

    ghost var bs: Blocks
    ghost var lists: Lists
    ghost var listed: set<int>

    /** `tlsf_create_with_pool` for a pool whose first word is `pool`: an empty control structure, one free
        block over the whole pool and the zero-size sentinel behind it. */
    constructor WithPool(m: array<int>, baseAddress: nat, pool: nat, bytes: nat)
      requires baseAddress % 8 == 0 && baseAddress + 8 * m.Length < 0x4000_0000_0000_0000
      requires pool > FIRST_POOL_WORD && 8 * (m.Length - pool) >= bytes
      requires BLOCK_SIZE_MIN + 16 <= bytes < BLOCK_SIZE_MAX + 16
      modifies m
      ensures Valid() && mem == m && base == baseAddress
      ensures first == pool - 1 && last == pool + PoolLength(bytes) && bs == OneFreeBlock(first, last)
      ensures 8 * (last - first - 1) <= bytes - 16 < 8 * (last - first - 1) + 8
      ensures bs.Keys == {first, last} && bs[first].free && bs[first].w == last - first - 1 && !bs[last].free && bs[last].w == 0
    {
      var w := PoolLength(bytes);
      mem := m;
      base := baseAddress;
      cls := ClassOf;
      first := pool - 1;
      last := pool + w;
      flBitmap, slBitmap, blocks := 0, seq(FL_INDEX_COUNT, _ => 0), EmptyRows(NULL_BLOCK);
      lists, listed := EmptyRows([]), {};
      bs := OneFreeBlock(pool - 1, pool + w);
      new;
      AddPool(pool - 1, w);
    }

    /** Words in the pool's one block: room for two size words is kept back, then aligned down. */
    static function PoolLength(bytes: nat): int {
      (bytes - 16) / 8
    }

    method AddPool(block: int, w: int)
      requires block == first && w == last - first - 1 && 4 <= first && 3 <= w && 8 * w < BLOCK_SIZE_MAX && last + 1 < mem.Length
      requires Classifies() && Placed() && bs == OneFreeBlock(first, last)
      requires flBitmap == 0 && slBitmap == seq(FL_INDEX_COUNT, _ => 0) && blocks == EmptyRows(NULL_BLOCK)
      requires lists == EmptyRows([]) && listed == {}
      modifies this, mem
      ensures Valid() && bs == OneFreeBlock(first, last)
    {
      ghost var m0 := mem[..];
      ghost var v := InitialStep(PoolWords(m0, block, w));
      var c := MappingInsert(8 * w);
      v.RelistStep(block, c, {block});
      LayPool(block, w, c);
      lists := Update(lists, c.fl, c.sl, [block] + lists[c.fl][c.sl]);
      listed := {} + {block};
      assert {block} - {block} == {};
      OneFreeBlockSettled(first, last);
    }

    /** Memory with the pool's block, its back link and the sentinel written, before any list links. */
    static ghost function PoolWords(m: seq<int>, b: int, w: int): seq<int>
      requires 0 <= b && 0 <= w && b + w + 2 < |m|
    {
      m[b + 1 := SizeWord(Block(w, true, false))][b + 1 + w := b][b + 2 + w := SizeWord(Block(0, false, true))]
    }

    method LayPool(block: int, w: int, c: Class)
      requires InRange(c) && Shape(blocks) && |slBitmap| == FL_INDEX_COUNT && blocks[c.fl][c.sl] == NULL_BLOCK
      requires 4 <= block && 3 <= w && block + w + 2 < mem.Length
      modifies mem, this`blocks, this`flBitmap, this`slBitmap
      ensures mem[..] == PushWords(PoolWords(old(mem[..]), block, w), block, NULL_BLOCK)
      ensures blocks == old(Update(blocks, c.fl, c.sl, block))
      ensures flBitmap == Or(old(flBitmap), Pow2(c.fl))
      ensures slBitmap == old(slBitmap)[c.fl := Or(old(slBitmap)[c.fl], Pow2(c.sl))]
    {
      FreshBlock(block, w, true, false);
      PushFront(block, c);
      assert mem[..][block + 1] == SizeWord(Block(w, true, false));
      SizeWordFields(Block(w, true, false));
      var next := BlockNext(block);
      Store(next, block);
      FreshBlock(next, 0, false, true);
      assert mem[..] == PushWords(PoolWords(old(mem[..]), block, w), block, NULL_BLOCK);
    }

    /** Set size and both flags over whatever the word held. */
    method FreshBlock(b: int, w: nat, free: bool, prevFree: bool)
      requires 0 <= b + 1 < mem.Length
      modifies mem
      ensures mem[..] == old(mem[..])[b + 1 := SizeWord(Block(w, free, prevFree))]
    {
      ghost var x := mem[b + 1];
      FreshSizeWord(x, w);
      Store(b + 1, WithSize(mem[b + 1], 8 * w));
      assert mem[..][b + 1] == SizeWord(Block(w, IsFree(x), IsPrevFree(x)));
      BlockSetFree(b, free, Block(w, IsFree(x), IsPrevFree(x)));
      assert mem[..][b + 1] == SizeWord(Block(w, free, IsPrevFree(x)));
      BlockSetPrevFree(b, prevFree, Block(w, free, IsPrevFree(x)));
    }

    /** The heap of one free block that no list holds yet. */
    lemma InitialStep(m1: seq<int>) returns (v: View)
      requires FIRST_POOL_WORD <= first && first + 4 <= last && 8 * (last - first - 1) < BLOCK_SIZE_MAX
      requires last + 1 < |m1| && m1[first + 1] == SizeWord(OneFreeBlock(first, last)[first]) && m1[last] == first
      requires m1[last + 1] == SizeWord(OneFreeBlock(first, last)[last])
      requires Classifies()
      ensures v == View(cls, m1, first, last, EmptyRows(NULL_BLOCK), 0, seq(FL_INDEX_COUNT, _ => 0),
                        OneFreeBlock(first, last), EmptyRows([]), {})
      ensures v.Linked({first}) && first in v.bs && v.bs[first].w == last - first - 1
      ensures InRange(cls(last - first - 1)) && cls(last - first - 1) == MappingInsert(8 * (last - first - 1))
    {
      v := View(cls, m1, first, last, EmptyRows(NULL_BLOCK), 0, seq(FL_INDEX_COUNT, _ => 0),
                OneFreeBlock(first, last), EmptyRows([]), {});
      OneFreeBlockSettled(first, last);
      EmptyLists(cls, m1, v.bs);
      assert FreeSet(v.bs) == {first};
      forall h | h in v.bs && v.bs[h].free ensures m1[Next(v.bs, h)] == h { assert h == first; }
      assert cls(last - first - 1) == ClassOf(last - first - 1);
      InsertClass(8 * (last - first - 1));
    }

    ghost function Snapshot(): View
      reads this, mem
    {
      View(cls, mem[..], first, last, blocks, flBitmap, slBitmap, bs, lists, listed)
    }

    ghost predicate Linked(held: set<int>)
      reads this, mem
    {
      Snapshot().Linked(held) && Classifies() && Placed()
    }

    ghost predicate Placed() {
      base % 8 == 0 && base + 8 * mem.Length < 0x4000_0000_0000_0000
    }

    ghost predicate Classifies() {
      forall w {:trigger ClassOf(w)} :: cls(w) == ClassOf(w)
    }

    /** The heap invariant. */
    ghost predicate Valid()
      reads this, mem
    {
      Linked({}) && Coalesced(bs, last, {})
    }

    method Store(i: int, v: int)
      requires 0 <= i < mem.Length
      modifies mem
      ensures mem[..] == old(mem[..])[i := v]
    {
      mem[i] := v;
    }

    function BlockSize(b: int): int
      requires 0 <= b + 1 < mem.Length
      reads mem
    {
      SizeOf(mem[b + 1])
    }

    function BlockNext(b: int): int
      requires 0 <= b + 1 < mem.Length
      reads mem
    {
      b + 2 + (BlockSize(b) - 8) / 8
    }

    lemma ReadBlock(held: set<int>, b: int)
      requires Linked(held) && b in bs
      ensures 4 <= b < mem.Length - 1 && b <= last && last + 1 < mem.Length
      ensures BlockSize(b) == 8 * bs[b].w && BlockNext(b) == Next(bs, b) && mem[b + 1] == SizeWord(bs[b])
      ensures IsFree(mem[b + 1]) == bs[b].free && IsPrevFree(mem[b + 1]) == bs[b].prevFree
      ensures bs[b].free <==> b in listed + held
      ensures bs[b].free ==> b != last
      ensures 0 <= bs[b].w
      ensures b != last ==> Next(bs, b) in bs && 8 * bs[b].w < BLOCK_SIZE_MAX && b + 4 <= Next(bs, b) <= last
    {
      Snapshot().ReadBlock(held, b);
      assert mem[..][b + 1] == mem[b + 1];
    }

    // ----- free lists

    method RemoveFreeBlock(b: int, c: Class, ghost held: set<int>)
      requires Linked(held) && b in listed && b in bs && cls(bs[b].w) == c
      modifies this, mem
      ensures Linked(held + {b}) && bs == old(bs) && listed == old(listed) - {b}
      ensures PayloadKept(old(mem[..]), mem[..], bs)
    {
      hide PayloadKept, View.Linked, SizeWord, MappingInsert, Coalesced;
      ghost var k := Snapshot().UnlistStep(b, held);
      var prev, next := mem[b + 3], mem[b + 2];
      Store(next + 3, prev);
      Store(prev + 2, next);
      DropHead(b, next, c, k);
      listed := listed - {b};
    }

    /** The part of `remove_free_block` that touches the control structure. */
    method DropHead(b: int, next: int, c: Class, ghost k: int)
      requires InRange(c) && Bitmaps(flBitmap, slBitmap, lists) && Shape(blocks)
      requires 0 <= k < |lists[c.fl][c.sl]|
      requires blocks[c.fl][c.sl] == b <==> k == 0
      requires next == NULL_BLOCK <==> k == |lists[c.fl][c.sl]| - 1
      modifies this
      ensures bs == old(bs) && listed == old(listed)
      ensures lists == Update(old(lists), c.fl, c.sl, Without(old(lists)[c.fl][c.sl], k))
      ensures Bitmaps(flBitmap, slBitmap, lists)
      ensures blocks == if k == 0 then Update(old(blocks), c.fl, c.sl, next) else old(blocks)
    {
      ghost var l := lists[c.fl][c.sl];
      WithoutEmpty(l, k);
      if Without(l, k) != [] { BitmapsKeep(flBitmap, slBitmap, lists, c.fl, c.sl, Without(l, k)); }
      if blocks[c.fl][c.sl] == b {
        blocks := Update(blocks, c.fl, c.sl, next);
        if next == NULL_BLOCK {
          BitmapsClear(flBitmap, slBitmap, lists, c.fl, c.sl);
          slBitmap := slBitmap[c.fl := And(slBitmap[c.fl], AllBut(32, c.sl))];
          if slBitmap[c.fl] == 0 {
            flBitmap := And(flBitmap, AllBut(32, c.fl));
          }
        }
      }
      lists := Update(lists, c.fl, c.sl, Without(l, k));
    }

    lemma WithoutEmpty(l: seq<int>, k: int)
      requires 0 <= k < |l|
      ensures Without(l, k) == [] <==> |l| == 1
      ensures |Without(l, k)| == |l| - 1
    {}

    method InsertFreeBlock(b: int, c: Class, ghost held: set<int>)
      requires Linked(held) && b in held && b in bs && cls(bs[b].w) == c && InRange(c)
      modifies this, mem
      ensures Linked(held - {b}) && bs == old(bs) && listed == old(listed) + {b}
      ensures PayloadKept(old(mem[..]), mem[..], bs)
    {
      Snapshot().RelistStep(b, c, held);
      PushFront(b, c);
      lists := Update(lists, c.fl, c.sl, [b] + lists[c.fl][c.sl]);
      listed := listed + {b};
    }

    method PushFront(b: int, c: Class)
      requires 0 <= c.fl < |blocks| && c.sl < |blocks[c.fl]| && c.fl < |slBitmap|
      requires 0 < b < mem.Length - 3 && 0 <= blocks[c.fl][c.sl] < mem.Length - 3
      modifies mem, this`blocks, this`flBitmap, this`slBitmap
      ensures mem[..] == old(PushWords(mem[..], b, blocks[c.fl][c.sl]))
      ensures blocks == old(Update(blocks, c.fl, c.sl, b))
      ensures flBitmap == Or(old(flBitmap), Pow2(c.fl))
      ensures slBitmap == old(slBitmap)[c.fl := Or(old(slBitmap)[c.fl], Pow2(c.sl))]
    {
      var current := blocks[c.fl][c.sl];
      Store(b + 2, current);
      Store(b + 3, NULL_BLOCK);
      Store(current + 3, b);
      blocks := Update(blocks, c.fl, c.sl, b);
      flBitmap := Or(flBitmap, Pow2(c.fl));
      slBitmap := slBitmap[c.fl := Or(slBitmap[c.fl], Pow2(c.sl))];
    }

    /** The class the C code computes from the size word is the block's class. */
    lemma BlockClass(b: int, held: set<int>)
      requires Linked(held) && b in bs && bs[b].free
      ensures 0 <= b + 1 < mem.Length && BlockSize(b) >= 0
      ensures MappingInsert(BlockSize(b)) == cls(bs[b].w) && InRange(cls(bs[b].w))
    {
      ReadBlock(held, b);
      assert cls(bs[b].w) == ClassOf(bs[b].w);
      InsertClass(8 * bs[b].w);
    }

    method BlockRemove(b: int, ghost held: set<int>)
      requires Linked(held) && b in bs && bs[b].free && b !in held
      modifies this, mem
      ensures Linked(held + {b}) && bs == old(bs) && listed == old(listed) - {b}
      ensures PayloadKept(old(mem[..]), mem[..], bs)
    {
      ReadBlock(held, b);
      BlockClass(b, held);
      var c := MappingInsert(BlockSize(b));
      RemoveFreeBlock(b, c, held);
    }

    method BlockInsert(b: int, ghost held: set<int>)
      requires Linked(held) && b in held
      modifies this, mem
      ensures Linked(held - {b}) && bs == old(bs) && listed == old(listed) + {b}
      ensures PayloadKept(old(mem[..]), mem[..], bs)
    {
      assert b in FreeSet(bs);
      BlockClass(b, held);
      var c := MappingInsert(BlockSize(b));
      InsertFreeBlock(b, c, held);
    }

    // ----- marking and merging

    method BlockSetPrevFree(b: int, free: bool, ghost x: Block)
      requires 0 <= b + 1 < mem.Length && mem[b + 1] == SizeWord(x)
      modifies mem
      ensures mem[..] == old(mem[..])[b + 1 := SizeWord(x.(prevFree := free))]
    {
      SizeWordUpdates(x, 0, free);
      Store(b + 1, WithPrevFree(mem[b + 1], free));
    }

    method BlockSetFree(b: int, free: bool, ghost x: Block)
      requires 0 <= b + 1 < mem.Length && mem[b + 1] == SizeWord(x)
      modifies mem
      ensures mem[..] == old(mem[..])[b + 1 := SizeWord(x.(free := free))]
    {
      SizeWordUpdates(x, 0, free);
      Store(b + 1, WithFree(mem[b + 1], free));
    }

    /** The words of marking: the back link (when freeing), the successor's prev-free bit, then the
        block's own free bit. */
    method MarkBlock(b: int, free: bool)
      requires b in bs && Next(bs, b) in bs && 0 <= b && b + 1 < Next(bs, b) < mem.Length - 1
      requires mem[Next(bs, b) + 1] == SizeWord(bs[Next(bs, b)]) && mem[b + 1] == SizeWord(bs[b])
      modifies mem
      ensures mem[..] == MarkWords(old(mem[..]), bs, b, free)
    {
      ghost var m0 := mem[..];
      NextIs(b);
      var next := BlockNext(b);
      if free {
        Store(next, b);
      }
      assert mem[..][next + 1] == m0[next + 1];
      BlockSetPrevFree(next, free, bs[next]);
      assert mem[..][b + 1] == m0[b + 1];
      BlockSetFree(b, free, bs[b]);
    }

    lemma NextIs(b: int)
      requires b in bs && 0 <= b + 1 < mem.Length && mem[b + 1] == SizeWord(bs[b])
      ensures BlockSize(b) == 8 * bs[b].w && BlockNext(b) == Next(bs, b)
    {
      SizeWordFields(bs[b]);
    }

    method BlockMarkAsFree(b: int, ghost held: set<int>)
      requires Linked(held) && b in bs && !bs[b].free && b != last
      modifies this, mem
      ensures b in old(bs) && Next(old(bs), b) in old(bs) && bs == SetFree(old(bs), b, true)
      ensures Linked(held + {b}) && listed == old(listed)
      ensures PayloadKept(old(mem[..]), mem[..], bs)
    {
      hide PayloadKept, View.Linked, MarkWords, SetFree, SizeWord, Coalesced;
      Snapshot().MarkStep(b, true, held);
      ReadBlock(held, b);
      ReadBlock(held, Next(bs, b));
      MarkBlock(b, true);
      bs := SetFree(bs, b, true);
    }

    method BlockMarkAsUsed(b: int, ghost held: set<int>)
      requires Linked(held) && b in held
      modifies this, mem
      ensures b in old(bs) && b != last && Next(old(bs), b) in old(bs) && bs == SetFree(old(bs), b, false)
      ensures Linked(held - {b}) && listed == old(listed)
      ensures PayloadKept(old(mem[..]), mem[..], bs)
    {
      hide PayloadKept, MarkWords, SetFree, SizeWord, Coalesced;
      assert b in FreeSet(bs);
      ReadBlock(held, b);
      Snapshot().MarkStep(b, false, held);
      ReadBlock(held, Next(bs, b));
      MarkBlock(b, false);
      bs := SetFree(bs, b, false);
    }

    method BlockAbsorb(p: int, b: int)
      requires Merging(bs, first, last, p, b, Next(bs, b)) && last + 1 < mem.Length
      requires mem[p + 1] == SizeWord(bs[p]) && mem[b + 1] == SizeWord(bs[b])
      modifies mem
      ensures Merging(bs, first, last, p, b, Next(bs, b))
      ensures mem[..] == AbsorbWords(old(mem[..]), p, bs[b].w + 1, Next(bs, b))
    {
      SizeWordFields(bs[b]);
      Store(p + 1, mem[p + 1] + BlockSize(b) + HEADER_OVERHEAD);
      SizeWordFields(bs[p].(w := bs[p].w + 1 + bs[b].w));
      assert mem[..][p + 1] == mem[p + 1];
      var next := BlockNext(p);
      Store(next, p);
    }

    method BlockMergePrev(b: int) returns (r: int)
      requires Linked({b})
      modifies this, mem
      ensures b in old(bs)
      ensures !old(bs)[b].prevFree ==> r == b && bs == old(bs)
      ensures old(bs)[b].prevFree ==>
        && r in old(bs) && old(bs)[r].free && r < b && Next(old(bs), r) == b && bs == Absorb(old(bs), r)
      ensures Linked({r}) && PayloadKept(old(mem[..]), mem[..], bs)
    {
      r := b;
      assert b in FreeSet(bs);
      ReadBlock({b}, b);
      if IsPrevFree(mem[b + 1]) {
        FreePredecessor(mem[..], bs, first, last, b);
        var prev := mem[b];
        assert prev in bs && bs[prev].free && prev < b && Next(bs, prev) == b;
        MergeFree(prev, b, prev, {b});
        r := prev;
      }
    }

    /** Unlist free block x, one of p and its successor b, and let p absorb b. */
    method MergeFree(p: int, b: int, x: int, ghost held: set<int>)
      requires Linked(held) && p in bs && bs[p].free && b in bs && bs[b].free && p < b && Next(bs, p) == b
      requires x == p || x == b
      requires held == if x == p then {b} else {p}
      modifies this, mem
      ensures bs == Absorb(old(bs), p) && Linked({p}) && PayloadKept(old(mem[..]), mem[..], bs)
    {
      ghost var m0, bs0 := mem[..], bs;
      ReadBlock(held, x);
      BlockRemove(x, held);
      assert held + {x} == {p, b};
      ghost var m1 := mem[..];
      AbsorbFree(p, b);
      KeptWeaken(m0, m1, bs, bs0);
      KeptTrans(m0, m1, mem[..], bs, bs);
    }

    method AbsorbFree(p: int, b: int)
      requires Linked({p, b}) && p in bs && bs[p].free && b in bs && p < b && Next(bs, p) == b
      modifies this, mem
      ensures bs == Absorb(old(bs), p) && Linked({p}) && PayloadKept(old(mem[..]), mem[..], bs)
    {
      hide PayloadKept, View.Linked, Absorb, AbsorbWords, SizeWord;
      ReadBlock({p, b}, p);
      ReadBlock({p, b}, b);
      Snapshot().AbsorbStep(p, b);
      BlockAbsorb(p, b);
      bs := Absorb(bs, p);
    }

    method BlockMergeNext(b: int)
      requires Linked({b})
      modifies this, mem
      ensures b in old(bs) && b != last && Next(old(bs), b) in old(bs)
      ensures bs == if old(bs)[Next(old(bs), b)].free then Absorb(old(bs), b) else old(bs)
      ensures Linked({b}) && PayloadKept(old(mem[..]), mem[..], bs)
    {
      assert b in FreeSet(bs);
      ReadBlock({b}, b);
      var next := BlockNext(b);
      ReadBlock({b}, next);
      if IsFree(mem[next + 1]) {
        MergeFree(b, next, next, {b});
      }
    }

    // ----- splitting

    predicate BlockCanSplit(b: int, size: int)
      requires 0 <= b + 1 < mem.Length
      reads mem
    {
      BlockSize(b) >= HEADER_SIZE + size
    }

    method BlockSetSize(b: int, w: int, ghost x: Block)
      requires 0 <= b + 1 < mem.Length && mem[b + 1] == SizeWord(x)
      modifies mem
      ensures mem[..] == old(mem[..])[b + 1 := SizeWord(x.(w := w))]
    {
      SizeWordUpdates(x, w, true);
      Store(b + 1, WithSize(mem[b + 1], 8 * w));
    }

    /** `block_split` for a size of s words: the words it writes. */
    method BlockSplit(b: int, s: int) returns (r: int, ghost g: bool)
      requires b in bs && Next(bs, b) in bs && 4 <= b && 3 <= s && b + s + 5 <= Next(bs, b) < mem.Length - 1
      requires mem[b + 1] == SizeWord(bs[b]) && mem[Next(bs, b) + 1] == SizeWord(bs[Next(bs, b)])
      modifies mem
      ensures r == b + 1 + s && mem[..] == SplitWords(old(mem[..]), bs, b, s, g)
    {
      ghost var m0, n := mem[..], Next(bs, b);
      r := b + 2 + (8 * s - 8) / 8;
      NextIs(b);
      var remainSize := BlockSize(b) - (8 * s + HEADER_OVERHEAD);
      ghost var x := mem[r + 1];
      ghost var rest := Block(n - r - 1, IsFree(x), IsPrevFree(x));
      g := rest.prevFree;
      FreshSizeWord(x, n - r - 1);
      Store(r + 1, WithSize(mem[r + 1], remainSize));
      assert mem[..][b + 1] == m0[b + 1];
      BlockSetSize(b, s, bs[b]);
      SizeWordFields(rest);
      assert mem[..][r + 1] == SizeWord(rest);
      var next := BlockNext(r);
      Store(next, r);
      assert mem[..][next + 1] == m0[next + 1];
      BlockSetPrevFree(next, true, bs[n]);
      assert mem[..][r + 1] == SizeWord(rest);
      BlockSetFree(r, true, rest);
    }

    method BlockTrimFree(b: int, s: int)
      requires Linked({b}) && b in bs && 3 <= s <= bs[b].w
      modifies this, mem
      ensures b in old(bs) && Next(old(bs), b) in old(bs) && bs == Trimmed(old(bs), b, s)
      ensures Linked({b}) && PayloadKept(old(mem[..]), mem[..], bs)
    {
      assert b in FreeSet(bs);
      ReadBlock({b}, b);
      if BlockCanSplit(b, 8 * s) {
        ghost var m0 := mem[..];
        CutFree(b, s);
        ghost var m1 := mem[..];
        assert {b} + {b + 1 + s} - {b + 1 + s} == {b};
        BlockInsert(b + 1 + s, {b} + {b + 1 + s});
        KeptTrans(m0, m1, mem[..], bs, bs);
      }
    }

    /** Split free block b and link the two parts; both are then held. */
    method CutFree(b: int, s: int)
      requires Linked({b}) && b in bs && 3 <= s && s + 4 <= bs[b].w
      modifies this, mem
      ensures b in old(bs) && Next(old(bs), b) in old(bs) && bs == Cut(old(bs), b, s)
      ensures b + 1 + s !in old(bs) && Linked({b} + {b + 1 + s}) && PayloadKept(old(mem[..]), mem[..], bs)
    {
      hide PayloadKept, Cut, CutWords, SizeWord, Coalesced;
      assert b in FreeSet(bs);
      ReadBlock({b}, b);
      ReadBlock({b}, Next(bs, b));
      Snapshot().CutStep(b, s, {b});
      CutFreeWords(b, s);
      bs := Cut(bs, b, s);
    }

    method CutFreeWords(b: int, s: int)
      requires b in bs && Next(bs, b) in bs && 4 <= b && 3 <= s && b + s + 5 <= Next(bs, b) < mem.Length - 1 && bs[b].free
      requires mem[b + 1] == SizeWord(bs[b]) && mem[Next(bs, b) + 1] == SizeWord(bs[Next(bs, b)])
      modifies mem
      ensures mem[..] == CutWords(old(mem[..]), bs, b, s)
    {
      ghost var m0 := mem[..];
      var r, g := BlockSplit(b, s);
      SplitThenLink(m0, bs, b, s, g);
      ghost var rest := Block(Next(bs, b) - r - 1, true, g);
      assert mem[..][r + 1] == SizeWord(rest);
      assert mem[..][b + 1] == SizeWord(bs[b].(w := s));
      SizeWordFields(bs[b].(w := s));
      var next := BlockNext(b);
      Store(next, b);
      assert mem[..][r + 1] == SizeWord(rest);
      BlockSetPrevFree(r, true, rest);
    }

    // ----- freeing

    /** A pointer handed out and not yet freed. */
    ghost predicate Live(ptr: int)
      reads this
    {
      ptr - 2 in bs && ptr - 2 != last && !bs[ptr - 2].free
    }

    method Free(ptr: int)
      requires Valid() && (ptr != 0 ==> Live(ptr))
      modifies this, mem
      ensures Valid()
      ensures Used(bs) == if ptr == 0 then Used(old(bs)) else Used(old(bs)) - {ptr - 2}
      ensures PayloadKept(old(mem[..]), mem[..], bs)
    {
      if ptr != 0 {
        var b := ptr - 2;
        ghost var m0 := mem[..];
        CoalescedMark(bs, first, last, b);
        BlockMarkAsFree(b, {});
        assert {} + {b} == {b};
        ghost var m1, bs1 := mem[..], bs;
        var r := MergeFreed(b);
        KeptWeaken(m0, m1, bs, bs1);
        KeptTrans(m0, m1, mem[..], bs, bs);
      }
    }

    /** The tail of `tlsf_free`: merge the freed block both ways and list the result. */
    method MergeFreed(b: int) returns (r: int)
      requires Linked({b}) && Coalesced(bs, last, {b})
      modifies this, mem
      ensures Valid() && Used(bs) == Used(old(bs)) && PayloadKept(old(mem[..]), mem[..], bs)
      ensures UsedWithin(bs, old(bs))
    {
      ghost var m0, bs0 := mem[..], bs;
      assert b in FreeSet(bs);
      r := BlockMergePrev(b);
      ghost var m1, bs1 := mem[..], bs;
      AfterMergePrev(bs0, bs1, first, last, b, r);
      BlockMergeNext(r);
      ghost var m2 := mem[..];
      CoalescedMergeNext(bs1, first, last, r);
      assert {r} - {r} == {};
      BlockInsert(r, {r});
      SameUsed(bs, bs1);
      SameUsed(bs, bs0);
      KeptWeaken(m0, m1, bs, bs1);
      KeptTrans(m0, m1, m2, bs, bs);
      KeptTrans(m0, m2, mem[..], bs, bs);
    }

    // ----- searching

    /** The class of the block handed out is the smallest populated one the search may use. */
    static ghost predicate BestFit(bs: Blocks, b: int, size: int)
      requires b in bs && size >= 0
    {
      forall h {:trigger ClassOf(bs[h].w)} | h in bs && bs[h].free ::
        Below(ClassOf(bs[h].w), ClassOf(bs[b].w)) ==> Below(ClassOf(bs[h].w), MappingSearch(size))
    }

    /** No free block has a class the search for `size` would look at. */
    static ghost predicate NoneSuitable(bs: Blocks, size: int)
      requires size >= 0
    {
      forall h {:trigger ClassOf(bs[h].w)} | h in bs && bs[h].free :: Below(ClassOf(bs[h].w), MappingSearch(size))
    }

    /** List (i, j) comes at or after class c in search order. */
    static predicate FromClass(c: Class, i: int, j: nat) {
      !Below(Class(i, j), c)
    }

    method SearchSuitableBlock(c: Class) returns (found: bool, d: Class)
      requires InRange(c) && Bitmaps(flBitmap, slBitmap, lists)
      ensures !found ==> forall i: nat, j: nat | i < FL_INDEX_COUNT && j < SL_INDEX_COUNT && FromClass(c, i, j) :: lists[i][j] == []
      ensures found ==> InRange(d) && !Below(d, c) && lists[d.fl][d.sl] != []
      ensures found ==> forall i: nat, j: nat | i < FL_INDEX_COUNT && j < SL_INDEX_COUNT && FromClass(c, i, j)
                          && Below(Class(i, j), d) :: lists[i][j] == []
    {
      var fl := c.fl;
      var slMap := And(slBitmap[fl], OnesFrom(32, c.sl));
      FirstFrom(slBitmap[fl], c.sl);
      d := c;
      if slMap == 0 {
        var flMap := And(flBitmap, OnesFrom(32, fl + 1));
        RowSearch(flBitmap, slBitmap, lists, fl + 1);
        if flMap == 0 {
          found := false;
          NoneFrom(c, FL_INDEX_COUNT, 0);
          return;
        }
        fl := Ffs(flMap);
        slMap := slBitmap[fl];
        FirstOf(slMap);
      }
      found := true;
      d := Class(fl, Ffs(slMap));
      NoneFrom(c, d.fl, d.sl);
    }

    /** A nonzero 32-bit word has a lowest set bit. */
    lemma FirstOf(w: nat)
      requires 0 < w < 0x1_0000_0000
      ensures 0 <= Ffs(w) < 32 && Bit(w, Ffs(w)) && forall j: nat | j < Ffs(w) :: !Bit(w, j)
    {
      Pow2Values();
      SomeBit(w, 32);
      FfsLowest(w);
    }

    /** Nothing between class c and position (u, v): rows and bits in between are clear. */
    lemma NoneFrom(c: Class, u: int, v: int)
      requires InRange(c) && Bitmaps(flBitmap, slBitmap, lists) && c.fl <= u <= FL_INDEX_COUNT
      requires u > c.fl ==> forall j: nat | c.sl <= j < 32 :: !Bit(slBitmap[c.fl], j)
      requires u == c.fl ==> forall j: nat | c.sl <= j < v && j < 32 :: !Bit(slBitmap[c.fl], j)
      requires forall i | c.fl < i < u :: slBitmap[i] == 0
      requires u > c.fl && u < FL_INDEX_COUNT ==> forall j: nat | j < v && j < 32 :: !Bit(slBitmap[u], j)
      ensures forall i: nat, j: nat | i < FL_INDEX_COUNT && j < SL_INDEX_COUNT && FromClass(c, i, j)
                && (i < u || (i == u && j < v)) :: lists[i][j] == []
    {
      forall i: nat, j: nat | i < FL_INDEX_COUNT && j < SL_INDEX_COUNT && FromClass(c, i, j)
                && (i < u || (i == u && j < v)) ensures lists[i][j] == []
      {
        if c.fl < i < u {
          EmptyRow(flBitmap, slBitmap, lists, i, j);
        } else {
          assert !Bit(slBitmap[i], j);
        }
      }
    }

    /** Every free block's list is populated. */
    lemma FreeIsListed(h: int)
      requires Linked({}) && h in bs && bs[h].free
      ensures var c := ClassOf(bs[h].w); InRange(c) && h in lists[c.fl][c.sl] && 0 <= bs[h].w && 8 * bs[h].w < BLOCK_SIZE_MAX
    {
      ReadBlock({}, h);
      assert cls(bs[h].w) == ClassOf(bs[h].w);
      assert Filed(cls, bs, lists, h);
    }

    /** A populated list's head is a free block of that class. */
    lemma HeadIsFree(c: Class)
      requires Linked({}) && InRange(c) && lists[c.fl][c.sl] != []
      ensures var b := blocks[c.fl][c.sl];
        b != NULL_BLOCK && b in listed && b in bs && bs[b].free && ClassOf(bs[b].w) == c && cls(bs[b].w) == c
    {
      var l := lists[c.fl][c.sl];
      assert Chain(mem[..], blocks[c.fl][c.sl], l);
      assert Pure(cls, bs, l, listed, c.fl, c.sl);
      assert l[0] in l;
      ReadBlock({}, l[0]);
      assert cls(bs[l[0]].w) == ClassOf(bs[l[0]].w);
    }

    /** `block_locate_free`: the head of the first populated list at or above the search class. */
    method BlockLocateFree(size: int) returns (b: int)
      requires Linked({}) && 0 <= size < BLOCK_SIZE_MAX && size % 8 == 0
      modifies this, mem
      ensures bs == old(bs) && PayloadKept(old(mem[..]), mem[..], bs)
      ensures b == NULL_BLOCK ==> Linked({}) && mem[..] == old(mem[..])
      ensures b == NULL_BLOCK && size != 0 ==> NoneSuitable(bs, size)
      ensures b != NULL_BLOCK ==> size > 0 && b in bs && bs[b].free && 8 * bs[b].w >= size && Linked({b})
      ensures b != NULL_BLOCK ==> !NoneSuitable(bs, size) && BestFit(bs, b, size)
    {
      b := NULL_BLOCK;
      if size != 0 {
        var c := MappingSearch(size);
        SearchClassMin(size);
        if c.fl < FL_INDEX_COUNT {
          var found, d := SearchSuitableBlock(c);
          if found {
            b := blocks[d.fl][d.sl];
            HeadIsFree(d);
            FreeIsListed(b);
            SearchFits(size, 8 * bs[b].w);
            BestClass(c, d);
            RemoveFreeBlock(b, d, {});
            assert {} + {b} == {b};
          } else {
            NothingFits(c);
          }
        } else {
          forall h | h in bs && bs[h].free ensures Below(ClassOf(bs[h].w), c) { FreeIsListed(h); }
        }
      }
    }

    lemma BestClass(c: Class, d: Class)
      requires Linked({}) && InRange(d)
      requires forall i: nat, j: nat | i < FL_INDEX_COUNT && j < SL_INDEX_COUNT && FromClass(c, i, j)
                 && Below(Class(i, j), d) :: lists[i][j] == []
      ensures forall h | h in bs && bs[h].free :: Below(ClassOf(bs[h].w), d) ==> Below(ClassOf(bs[h].w), c)
    {
      forall h | h in bs && bs[h].free && Below(ClassOf(bs[h].w), d) ensures Below(ClassOf(bs[h].w), c) {
        FreeIsListed(h);
        var e := ClassOf(bs[h].w);
        assert !FromClass(c, e.fl, e.sl);
      }
    }

    lemma NothingFits(c: Class)
      requires Linked({})
      requires forall i: nat, j: nat | i < FL_INDEX_COUNT && j < SL_INDEX_COUNT && FromClass(c, i, j) :: lists[i][j] == []
      ensures forall h | h in bs && bs[h].free :: Below(ClassOf(bs[h].w), c)
    {
      forall h | h in bs && bs[h].free ensures Below(ClassOf(bs[h].w), c) {
        FreeIsListed(h);
        var e := ClassOf(bs[h].w);
        assert !FromClass(c, e.fl, e.sl);
      }
    }

    // ----- allocation

    /** Trim the held block to s words and mark it used. */
    method TrimAndUse(b: int, s: int)
      requires Linked({b}) && Coalesced(bs, last, {b}) && b in bs && 3 <= s <= bs[b].w
      requires Next(bs, b) in bs && !bs[Next(bs, b)].free
      modifies this, mem
      ensures Valid() && b in bs && s <= bs[b].w < s + 4 && Used(bs) == Used(old(bs))[b := bs[b].w]
      ensures PayloadKept(old(mem[..]), mem[..], old(bs)) && Live(b + 2)
    {
      ghost var m0, bs0 := mem[..], bs;
      assert b in FreeSet(bs);
      ReadBlock({b}, b);
      TrimmedCoalesced(bs, first, last, b, s);
      BlockTrimFree(b, s);
      ghost var m1, bs1 := mem[..], bs;
      CoalescedUse(bs, first, last, b);
      assert {b} - {b} == {};
      BlockMarkAsUsed(b, {b});
      ExtendedUsed(bs0, bs, b, bs1[b].w);
      SameUsed(bs0, bs1);
      KeptWeaken(m0, m1, bs0, bs1);
      KeptTrans(m0, m1, mem[..], bs0, bs);
    }

    /** Room for `size` bytes, zeroed request size included: what `adjust_request_size` grants. */
    static function Granted(size: nat): nat {
      AdjustRequestSize(size, ALIGN_SIZE)
    }

    method Malloc(size: nat) returns (p: int)
      requires Valid() && size < SIZE_T_RANGE
      modifies this, mem
      ensures Valid() && Served(old(bs), old(mem[..]), p, Granted(size))
      ensures size <= SIZE_T_RANGE - 8 && p != 0 ==>
        p - 2 in bs && 0 < size <= 8 * bs[p - 2].w < size + 64 && SomeFree(old(bs), size)
      ensures 0 < size <= BLOCK_SIZE_MAX - 8 && SomeFree(old(bs), (if size <= 16 then 24 else size + 7) * 33 / 32) ==> p != 0
    {
      AdjustCoversRequest(size);
      ghost var r := Granted(size);
      ghost var ample := (if size <= 16 then 24 else size + 7) * 33 / 32;
      if 0 < size <= BLOCK_SIZE_MAX - 8 && SomeFree(bs, ample) { LargeIsSuitable(r, ample); }
      p := AllocateAdjusted(Granted(size));
      if p != 0 && size <= SIZE_T_RANGE - 8 { FreeEnough(old(bs), r, size); }
    }

    /** Outcome of an allocation of `size` rounded bytes: null exactly when nothing was asked for or no
        suitable class is populated, and then nothing has changed; otherwise a best-fit block. Either
        way every block in use before keeps its contents. */
    ghost predicate Served(bs0: Blocks, m0: seq<int>, p: int, size: int)
      requires size >= 0
      reads this, mem
    {
      && PayloadKept(m0, mem[..], bs0)
      && (p == 0 <==> size == 0 || NoneSuitable(bs0, size))
      && (p == 0 ==> bs == bs0 && mem[..] == m0)
      && (p != 0 ==> HandedOut(bs0, p, size) && BestFit(bs0, p - 2, size))
    }

    /** Block p - 2, free before, is now used with room for `size` bytes and less than 32 to spare, and
        nothing else about the used blocks has changed. */
    ghost predicate HandedOut(bs0: Blocks, p: int, size: int)
      reads this
    {
      && Live(p) && p - 2 in bs0 && bs0[p - 2].free
      && size <= 8 * bs[p - 2].w < size + HEADER_SIZE
      && Used(bs) == Used(bs0)[p - 2 := bs[p - 2].w]
    }

    /** An allocation fails only if every free block is smaller than the rounded request plus the search's
        rounding, which is nothing below 256 bytes and less than a 32nd of the request above. */
    lemma FailureMeansSmall(size: nat)
      requires Valid() && size < BLOCK_SIZE_MAX && size % 8 == 0 && NoneSuitable(bs, size)
      ensures forall h | h in bs && bs[h].free :: 8 * bs[h].w < size + Rounding(size)
      ensures if size < SMALL_BLOCK_SIZE then Rounding(size) == 0 else 32 * Rounding(size) < size
    {
      RoundingIsSmall(size);
      forall h | h in bs && bs[h].free ensures 8 * bs[h].w < size + Rounding(size) {
        FreeIsListed(h);
        assert Below(ClassOf(bs[h].w), MappingSearch(size));
        SearchMissesOnlySmall(size, 8 * bs[h].w);
      }
    }

    method AllocateAdjusted(adjust: nat) returns (p: int)
      requires Valid() && adjust < BLOCK_SIZE_MAX && adjust % 8 == 0 && (adjust == 0 || adjust >= BLOCK_SIZE_MIN)
      modifies this, mem
      ensures Valid() && Served(old(bs), old(mem[..]), p, adjust) && (p != 0 ==> SomeFree(old(bs), adjust))
    {
      var b := BlockLocateFree(adjust);
      p := 0;
      if b != NULL_BLOCK {
        ghost var m1 := mem[..];
        CoalescedHold(bs, first, last, b);
        p := BlockPrepareUsed(b, adjust);
        KeptTrans(old(mem[..]), m1, mem[..], old(bs), old(bs));
      }
    }

    method BlockPrepareUsed(b: int, size: nat) returns (p: int)
      requires Linked({b}) && Coalesced(bs, last, {b}) && b in bs && BLOCK_SIZE_MIN <= size <= 8 * bs[b].w && size % 8 == 0
      requires Next(bs, b) in bs && !bs[Next(bs, b)].free
      modifies this, mem
      ensures Valid() && PayloadKept(old(mem[..]), mem[..], old(bs))
      ensures p == b + 2 && p != 0 && HandedOut(old(bs), p, size)
    {
      assert b in FreeSet(bs);
      ReadBlock({b}, b);
      TrimAndUse(b, size / 8);
      p := b + 2;
    }

    // ----- aligned allocation

    /** `block_trim_free_leading`: give `gap` bytes at the front of the held block back; the rest is held. */
    method BlockTrimFreeLeading(b: int, gap: nat) returns (r: int)
      requires Linked({b}) && Coalesced(bs, last, {}) && b in bs
      requires gap % 8 == 0 && HEADER_SIZE <= gap && gap + HEADER_SIZE <= 8 * bs[b].w
      modifies this, mem
      ensures Linked({r}) && Coalesced(bs, last, {r}) && r in bs && Next(bs, r) in bs && !bs[Next(bs, r)].free
      ensures r == b + gap / 8 && b in old(bs) && 8 * bs[r].w == 8 * old(bs)[b].w - gap && Used(bs) == Used(old(bs))
      ensures PayloadKept(old(mem[..]), mem[..], old(bs))
    {
      ghost var m0, bs0 := mem[..], bs;
      r := b;
      assert b in FreeSet(bs);
      ReadBlock({b}, b);
      if BlockCanSplit(b, gap) {
        var s := (gap - HEADER_OVERHEAD) / 8;
        CoalescedCutFree(bs, first, last, b, s);
        CutFree(b, s);
        r := b + 1 + s;
        ghost var m1 := mem[..];
        assert {b} + {r} - {b} == {r};
        BlockInsert(b, {b} + {r});
        SameUsed(bs0, bs);
        KeptWeaken(m0, m1, bs0, bs);
        KeptTrans(m0, m1, mem[..], bs0, bs);
      }
    }

    /** The size `tlsf_memalign` searches for. */
    static function AlignedRequest(size: nat, align: nat): nat
      requires 0 < align < SIZE_T_RANGE
    {
      if Granted(size) != 0 && align > ALIGN_SIZE then SizeWithGap(Granted(size), align) else Granted(size)
    }

    /** Block p - 2 was not in use before and now is, with room for `size` bytes; nothing else changed. */
    ghost predicate NewlyLive(bs0: Blocks, p: int, size: int)
      reads this
    {
      && Live(p) && p - 2 !in Used(bs0)
      && size <= 8 * bs[p - 2].w < size + HEADER_SIZE
      && Used(bs) == Used(bs0)[p - 2 := bs[p - 2].w]
    }

    /** Outcome of an aligned allocation: as `Served`, except that the block may start inside a free one. */
    ghost predicate ServedAligned(bs0: Blocks, m0: seq<int>, p: int, size: int, request: int, align: int)
      requires request >= 0 && align > 0
      reads this, mem
    {
      && PayloadKept(m0, mem[..], bs0)
      && (p == 0 <==> request == 0 || NoneSuitable(bs0, request))
      && (p == 0 ==> bs == bs0 && mem[..] == m0)
      && (p != 0 ==> NewlyLive(bs0, p, size) && AlignedAt(p, align))
    }

    lemma RequestCovers(size: nat, k: nat)
      requires size < SIZE_T_RANGE && k <= 62
      ensures 0 < Pow2(k) < SIZE_T_RANGE
      ensures var a, r := Granted(size), AlignedRequest(size, Pow2(k));
        && a < BLOCK_SIZE_MAX && a % 8 == 0 && (a == 0 || a >= BLOCK_SIZE_MIN)
        && r < BLOCK_SIZE_MAX && r % 8 == 0 && (r != 0 ==> a != 0 && r >= a)
        && (Pow2(k) <= 8 <==> k <= 3) && (k <= 3 ==> r == a)
        && (k > 3 && r != 0 ==> a + Pow2(k) + 32 <= r < a + 2 * Pow2(k) + 32 && k < 40)
        && (k > 3 && a != 0 && r == 0 ==> a + 2 * Pow2(k) + 32 > BLOCK_SIZE_MAX)
    {
      Pow2Bounds(k);
      AdjustCoversRequest(size);
      assert Pow2(3) == 8;
      if k <= 3 {
        Pow2Mono(k, 3);
      } else {
        Pow2Mono(4, k);
        assert Pow2(4) == 16;
        if Granted(size) != 0 {
          PaddedCovers(Granted(size), k);
          if k >= 40 { Pow2Mono(33, k); Pow2Values(); assert Pow2(33) == 2 * Pow2(32); }
        }
      }
    }

    /** Some free block has at least n bytes. */
    static ghost predicate SomeFree(bs: Blocks, n: int) {
      exists h :: h in bs && bs[h].free && 8 * bs[h].w >= n
    }

    /** A free block a 32nd larger than a request of n bytes is one the search finds. */
    lemma LargeIsSuitable(request: nat, n: int)
      requires Valid() && 0 < request < BLOCK_SIZE_MAX && request % 8 == 0 && SomeFree(bs, n) && 32 * n >= 33 * request - 31
      ensures !NoneSuitable(bs, request)
    {
      var h :| h in bs && bs[h].free && 8 * bs[h].w >= n;
      FreeIsListed(h);
      RoundingIsSmall(request);
      if Below(ClassOf(bs[h].w), MappingSearch(request)) { SearchMissesOnlySmall(request, 8 * bs[h].w); }
    }

    /** `tlsf_memalign`. Beyond what `ServedAligned` says: an alignment of at most 8 asks for no more than
        `tlsf_malloc` does; with a larger one the call succeeds whenever some free block has room for the
        request, twice the alignment, a block header and a 32nd of these, and only if some free block has room
        for the request, the alignment and the header. */
    method Memalign(ghost k: nat, align: nat, size: nat) returns (p: int)
      requires Valid() && size < SIZE_T_RANGE && k <= 62 && align == Pow2(k) && align < SIZE_T_RANGE
      modifies this, mem
      ensures Valid() && ServedAligned(old(bs), old(mem[..]), p, Granted(size), AlignedRequest(size, align), align)
      ensures align <= 8 ==> (p == 0 <==> Granted(size) == 0 || NoneSuitable(old(bs), Granted(size)))
      ensures align > 8 && 0 < size && size + 2 * align + 64 <= BLOCK_SIZE_MAX ==>
        (SomeFree(old(bs), ((if size <= 16 then 24 else size + 7) + 2 * align + 32) * 33 / 32) ==> p != 0)
      ensures align > 8 && p != 0 && size <= SIZE_T_RANGE - 8 ==> SomeFree(old(bs), size + align + 32)
      ensures p != 0 ==> (base + 8 * p) % align == 0 && p - 2 in bs && (size <= SIZE_T_RANGE - 8 ==> size <= 8 * bs[p - 2].w)
    {
      RequestCovers(size, k);
      AdjustCoversRequest(size);
      ghost var r := AlignedRequest(size, align);
      ghost var ample := ((if size <= 16 then 24 else size + 7) + 2 * align + 32) * 33 / 32;
      if align > 8 && 0 < size && size + 2 * align + 64 <= BLOCK_SIZE_MAX && SomeFree(bs, ample) { LargeIsSuitable(r, ample); }
      p := AllocateAligned(k, align, Granted(size), AlignedRequest(size, align));
      if p != 0 && align > 8 && size <= SIZE_T_RANGE - 8 { FreeEnough(old(bs), r, size + align + 32); }
    }

    static lemma FreeEnough(bs: Blocks, n: int, m: int)
      requires SomeFree(bs, n) && m <= n
      ensures SomeFree(bs, m)
    {
      var h :| h in bs && bs[h].free && 8 * bs[h].w >= n;
      assert 8 * bs[h].w >= m;
    }

    method AllocateAligned(ghost k: nat, align: nat, adjust: nat, request: nat) returns (p: int)
      requires Valid() && k <= 62 && align == Pow2(k) && align < SIZE_T_RANGE
      requires adjust < BLOCK_SIZE_MAX && adjust % 8 == 0 && (adjust == 0 || adjust >= BLOCK_SIZE_MIN)
      requires request < BLOCK_SIZE_MAX && request % 8 == 0 && (request != 0 ==> adjust != 0 && request >= adjust)
      requires request != 0 && k > 3 ==> request >= adjust + align + HEADER_SIZE && k < 40
      modifies this, mem
      ensures Valid() && ServedAligned(old(bs), old(mem[..]), p, adjust, request, align)
      ensures p != 0 ==> SomeFree(old(bs), request)
    {
      var b := BlockLocateFree(request);
      p := 0;
      if b != NULL_BLOCK {
        assert 8 * bs[b].w >= request;
        ghost var m1 := mem[..];
        p := UseAligned(b, k, align, adjust);
        KeptTrans(old(mem[..]), m1, mem[..], old(bs), old(bs));
      }
    }

    predicate AlignedAt(p: int, align: int)
      requires align > 0
    {
      (base + 8 * p) % align == 0
    }

    /** Skip from the start of the located block to the aligned address. */
    method SkipToAligned(b: int, ghost k: nat, align: nat, adjust: nat) returns (r: int)
      requires Linked({b}) && Coalesced(bs, last, {}) && b in bs
      requires k <= 62 && align == Pow2(k) && align < SIZE_T_RANGE && (k > 3 ==> k < 40)
      requires BLOCK_SIZE_MIN <= adjust && adjust % 8 == 0 && adjust <= 8 * bs[b].w
      requires k > 3 ==> adjust + align + HEADER_SIZE <= 8 * bs[b].w
      modifies this, mem
      ensures Linked({r}) && Coalesced(bs, last, {r}) && r in bs && Next(bs, r) in bs && !bs[Next(bs, r)].free
      ensures adjust <= 8 * bs[r].w && AlignedAt(r + 2, align) && Used(bs) == Used(old(bs)) && r !in Used(bs)
      ensures PayloadKept(old(mem[..]), mem[..], old(bs))
    {
      assert b in FreeSet(bs);
      ReadBlock({b}, b);
      var address := base + 8 * (b + 2);
      GapIsLegal(address, k);
      var gap := LeadingGap(address, align);
      r := b;
      CoalescedHold(bs, first, last, b);
      if gap != 0 {
        r := BlockTrimFreeLeading(b, gap);
        assert r in FreeSet(bs);
      }
    }

    method UseAligned(b: int, ghost k: nat, align: nat, adjust: nat) returns (p: int)
      requires Linked({b}) && Coalesced(bs, last, {}) && b in bs
      requires k <= 62 && align == Pow2(k) && align < SIZE_T_RANGE && (k > 3 ==> k < 40)
      requires BLOCK_SIZE_MIN <= adjust && adjust % 8 == 0 && adjust <= 8 * bs[b].w
      requires k > 3 ==> adjust + align + HEADER_SIZE <= 8 * bs[b].w
      modifies this, mem
      ensures Valid() && PayloadKept(old(mem[..]), mem[..], old(bs)) && p != 0
      ensures NewlyLive(old(bs), p, adjust) && AlignedAt(p, align)
    {
      hide PayloadKept, View.Linked, Used, AlignedAt, Pow2, Coalesced, SizeWord;
      ghost var m0, bs0 := mem[..], bs;
      var r := SkipToAligned(b, k, align, adjust);
      ghost var m1, bs1 := mem[..], bs;
      SameUsed(bs0, bs1);
      p := BlockPrepareUsed(r, adjust);
      KeptTrans(m0, m1, mem[..], bs0, bs1);
    }

    // ----- reallocation

    /** Grow used block b over its free successor. */
    method GrowUsed(b: int)
      requires Valid() && Live(b + 2) && Next(bs, b) in bs && bs[Next(bs, b)].free
      modifies this, mem
      ensures Valid() && b in old(bs) && Next(old(bs), b) in old(bs)
      ensures Used(bs) == Used(old(bs))[b := old(bs)[b].w + 1 + old(bs)[Next(old(bs), b)].w]
      ensures PayloadKept(old(mem[..]), mem[..], old(bs))
    {
      hide Absorb, Used, SizeWord, Tiles, Coalesced;
      ghost var m0, bs0 := mem[..], bs;
      ReadBlock({}, b);
      var n := BlockNext(b);
      CoalescedGrow(bs, first, last, b, n);
      BlockRemove(n, {});
      assert {} + {n} == {n};
      ghost var m1 := mem[..];
      GrowHeld(b, n);
      KeptTrans(m0, m1, mem[..], bs0, bs0);
    }

    method GrowHeld(b: int, n: int)
      requires Linked({n}) && b in bs && b != last && !bs[b].free && Next(bs, b) == n && n in bs && bs[n].free
      modifies this, mem
      ensures b in old(bs) && b in Absorb(old(bs), b) && Next(Absorb(old(bs), b), b) in Absorb(old(bs), b)
      ensures Linked({}) && bs == SetFree(Absorb(old(bs), b), b, false)
      ensures PayloadKept(old(mem[..]), mem[..], old(bs))
    {
      ghost var v := Snapshot();
      ReadBlock({n}, b);
      ReadBlock({n}, n);
      v.GrowShape(b, n);
      ghost var m2, bs2 := v.GrowStep(b, n, Next(bs, n));
      ReadBlock({n}, Next(bs, n));
      GrowWords(b, n);
      bs := bs2;
    }

    method GrowWords(b: int, n: int)
      requires Merging(bs, first, last, b, n, Next(bs, n)) && last + 1 < mem.Length && 4 <= b < n < Next(bs, n) < mem.Length - 1
      requires mem[b + 1] == SizeWord(bs[b]) && mem[n + 1] == SizeWord(bs[n])
      requires mem[Next(bs, n) + 1] == SizeWord(bs[Next(bs, n)])
      requires var bs1 := Absorb(bs, b); b in bs1 && Next(bs1, b) == Next(bs, n) && Next(bs, n) in bs1
      requires AbsorbWords(mem[..], b, bs[n].w + 1, Next(bs, n))[b + 1] == SizeWord(Absorb(bs, b)[b])
      modifies mem, this`bs
      ensures bs == Absorb(old(bs), b)
      ensures mem[..] == MarkWords(AbsorbWords(old(mem[..]), b, old(bs)[n].w + 1, Next(old(bs), n)), bs, b, false)
    {
      ghost var m0, nn := mem[..], Next(bs, n);
      BlockAbsorb(b, n);
      assert mem[..][b + 1] == SizeWord(Absorb(bs, b)[b]);
      assert mem[..][nn + 1] == m0[nn + 1];
      bs := Absorb(bs, b);
      MarkBlock(b, false);
    }

    /** `block_trim_used`: cut used block b to s words and give the rest back. */
    method BlockTrimUsed(b: int, s: int)
      requires Valid() && Live(b + 2) && 3 <= s <= bs[b].w
      modifies this, mem
      ensures Valid() && b in bs && b in old(bs) && s <= bs[b].w < s + 4 && Used(bs) == Used(old(bs))[b := bs[b].w]
      ensures Live(b + 2) && bs[b].w <= old(bs)[b].w && PayloadKept(old(mem[..]), mem[..], bs)
    {
      hide Cut, SizeWord, Coalesced, UsedWithin, Tiles;
      ghost var m0, bs0 := mem[..], bs;
      ReadBlock({}, b);
      if BlockCanSplit(b, 8 * s) {
        CoalescedCutUsed(bs, first, last, b, s);
        CutUsed(b, s);
        ghost var m1, bs1 := mem[..], bs;
        var r := b + 1 + s;
        ReturnRest(r);
        assert b in Used(bs);
        SameUsed(bs, bs1);
        KeptWeaken(m0, m1, bs, bs1);
        KeptTrans(m0, m1, mem[..], bs, bs);
      } else {
        assert b in Used(bs);
      }
    }

    /** Coalesce the cut-off block with its successor and list it. */
    method ReturnRest(r: int)
      requires Linked({r}) && Coalesced(bs, last, {r}) && r in bs && r != last && bs[r].free && !bs[r].prevFree
      modifies this, mem
      ensures Valid() && Used(bs) == Used(old(bs)) && PayloadKept(old(mem[..]), mem[..], bs)
    {
      ghost var m0 := mem[..];
      CoalescedMergeNext(bs, first, last, r);
      BlockMergeNext(r);
      ghost var m1 := mem[..];
      assert {r} - {r} == {};
      BlockInsert(r, {r});
      KeptTrans(m0, m1, mem[..], bs, bs);
    }

    method CutUsed(b: int, s: int)
      requires Linked({}) && b in bs && b != last && !bs[b].free && 3 <= s && s + 4 <= bs[b].w
      modifies this, mem
      ensures b in old(bs) && Next(old(bs), b) in old(bs) && bs == Cut(old(bs), b, s)
      ensures b + 1 + s !in old(bs) && Linked({b + 1 + s}) && PayloadKept(old(mem[..]), mem[..], bs)
    {
      ReadBlock({}, b);
      ReadBlock({}, Next(bs, b));
      Snapshot().CutStep(b, s, {});
      assert {} + {b + 1 + s} == {b + 1 + s};
      CutUsedWords(b, s);
      bs := Cut(bs, b, s);
    }

    method CutUsedWords(b: int, s: int)
      requires b in bs && Next(bs, b) in bs && 4 <= b && 3 <= s && b + s + 5 <= Next(bs, b) < mem.Length - 1 && !bs[b].free
      requires mem[b + 1] == SizeWord(bs[b]) && mem[Next(bs, b) + 1] == SizeWord(bs[Next(bs, b)])
      modifies mem
      ensures mem[..] == CutWords(old(mem[..]), bs, b, s)
    {
      ghost var m0 := mem[..];
      var r, g := BlockSplit(b, s);
      SplitThenLink(m0, bs, b, s, g);
      ghost var rest := Block(Next(bs, b) - r - 1, true, g);
      assert mem[..][r + 1] == SizeWord(rest);
      BlockSetPrevFree(r, false, rest);
    }

    /** The first n bytes at word index q of memory m' are those at p of m (little-endian words). */
    static ghost predicate SameBytes(m: seq<int>, p: int, m': seq<int>, q: int, n: nat) {
      && 0 <= p && p + n / 8 <= |m| && 0 <= q && q + n / 8 <= |m'|
      && (forall i | q <= i < q + n / 8 :: m'[i] == m[p + (i - q)])
      && (n % 8 != 0 ==> SameLowBytes(m, p + n / 8, m', q + n / 8, n % 8))
    }

    static ghost predicate SameLowBytes(m: seq<int>, p: int, m': seq<int>, q: int, r: nat) {
      0 <= p < |m| && 0 <= q < |m'| && m'[q] % Pow2(8 * r) == m[p] % Pow2(8 * r)
    }

    /** Low r bytes of `src` under the high bytes of `dst`. */
    static function Spliced(dst: int, src: int, r: nat): (x: int)
      ensures x % Pow2(8 * r) == src % Pow2(8 * r)
    {
      SpliceLow(dst, src, Pow2(8 * r));
      dst - dst % Pow2(8 * r) + src % Pow2(8 * r)
    }

    static lemma SpliceLow(dst: int, src: int, p: int)
      requires p > 0
      ensures (dst - dst % p + src % p) % p == src % p
    {
      assert dst - dst % p == p * (dst / p);
      DivModUnique(dst - dst % p + src % p, p, dst / p, src % p);
    }

    /** `memcpy` of n bytes between two word-aligned, non-overlapping places. */
    method MemCopy(dst: int, src: int, n: nat)
      requires 0 <= src && src + (n + 7) / 8 <= mem.Length && 0 <= dst && dst + (n + 7) / 8 <= mem.Length
      requires src + (n + 7) / 8 <= dst || dst + (n + 7) / 8 <= src
      modifies mem
      ensures SameBytes(old(mem[..]), src, mem[..], dst, n)
      ensures forall i | 0 <= i < mem.Length && !(dst <= i < dst + (n + 7) / 8) :: mem[i] == old(mem[i])
    {
      for k := 0 to n / 8
        invariant forall i | dst <= i < dst + k :: mem[i] == old(mem[src + (i - dst)])
        invariant forall i | 0 <= i < mem.Length && !(dst <= i < dst + k) :: mem[i] == old(mem[i])
      {
        mem[dst + k] := mem[src + k];
      }
      if n % 8 != 0 {
        mem[dst + n / 8] := Spliced(mem[dst + n / 8], mem[src + n / 8], n % 8);
      }
    }

    static lemma SameBytesFrom(m0: seq<int>, m1: seq<int>, m2: seq<int>, m3: seq<int>, p: int, q: int, n: nat)
      requires SameBytes(m1, p, m2, q, n) && |m0| == |m1| && |m3| == |m2|
      requires forall i | p <= i < p + (n + 7) / 8 && i < |m0| :: m1[i] == m0[i]
      requires forall i | q <= i < q + (n + 7) / 8 && i < |m2| :: m3[i] == m2[i]
      ensures SameBytes(m0, p, m3, q, n)
    {
      if n % 8 != 0 {
        assert p + n / 8 < p + (n + 7) / 8;
        assert q + n / 8 < q + (n + 7) / 8;
      }
    }

    /** The block cannot be resized where it is: it is too small, also together with a free successor. */
    static ghost predicate MustMove(bs: Blocks, b: int, adjust: nat)
      requires b in bs
    {
      var n := Next(bs, b);
      adjust > 8 * bs[b].w && !(n in bs && bs[n].free && adjust <= 8 * bs[b].w + 8 * bs[n].w + 8)
    }

    /** Outcome of a resize: nothing happened exactly when the block had to move and there was no suitable
        one; otherwise the block at p, the old one exactly when it need not move, holds the first
        min(old, new) bytes and stands in for the old one, and other blocks are untouched. */
    ghost predicate Resized(bs0: Blocks, m0: seq<int>, ptr: int, p: int, size: nat, adjust: nat)
      requires ptr - 2 in bs0 && bs0[ptr - 2].w >= 0
      reads this, mem
    {
      && (p == 0 <==> MustMove(bs0, ptr - 2, adjust) && NoneSuitable(bs0, adjust))
      && (if p == 0 then bs == bs0 && mem[..] == m0
          else (p == ptr <==> !MustMove(bs0, ptr - 2, adjust)) && ResizedTo(bs0, m0, ptr, p, size, adjust))
    }

    ghost predicate ResizedTo(bs0: Blocks, m0: seq<int>, ptr: int, p: int, size: nat, adjust: nat)
      requires ptr - 2 in bs0 && bs0[ptr - 2].w >= 0
      reads this, mem
    {
      && Live(p) && adjust <= 8 * bs[p - 2].w < adjust + HEADER_SIZE && (p == ptr || p - 2 !in Used(bs0))
      && Used(bs) == (Used(bs0) - {ptr - 2})[p - 2 := bs[p - 2].w]
      && SameBytes(m0, ptr, mem[..], p, if 8 * bs0[ptr - 2].w < size then 8 * bs0[ptr - 2].w else size)
      && PayloadKept(m0, mem[..], bs0 - {ptr - 2})
    }

    static function Smaller(a: nat, b: nat): nat { if a < b then a else b }

    /** The grant covers the request exactly up to 2^32 - 8; a larger `realloc` of a live block takes the
        shrink branch with a grant of zero (or, for the last seven sizes, of 24 bytes). */
    static lemma GrantCoversExactly(size: nat)
      requires 0 < size < SIZE_T_RANGE
      ensures Granted(size) >= size <==> size <= BLOCK_SIZE_MAX - 8
      ensures size <= BLOCK_SIZE_MAX - 8 ==> BLOCK_SIZE_MIN <= Granted(size) < BLOCK_SIZE_MAX && Granted(size) % 8 == 0
    {
      AdjustCoversRequest(size);
    }

    method Realloc(ptr: int, size: nat) returns (p: int)
      requires Valid() && size < SIZE_T_RANGE && (ptr != 0 ==> Live(ptr) && size <= BLOCK_SIZE_MAX - 8)
      modifies this, mem
      ensures Valid()
      ensures ptr == 0 ==> Served(old(bs), old(mem[..]), p, Granted(size))
      ensures ptr != 0 && size == 0 ==> p == 0 && Used(bs) == Used(old(bs)) - {ptr - 2} && PayloadKept(old(mem[..]), mem[..], bs)
      ensures ptr != 0 && size != 0 ==> ptr - 2 in old(bs) && old(bs)[ptr - 2].w >= 0
      ensures ptr != 0 && size != 0 ==> Resized(old(bs), old(mem[..]), ptr, p, size, Granted(size))
    {
      p := 0;
      if ptr != 0 && size == 0 {
        Free(ptr);
      } else if ptr == 0 {
        p := Malloc(size);
      } else {
        GrantCoversExactly(size);
        ReadBlock({}, ptr - 2);
        p := Resize(ptr, size, Granted(size));
      }
    }

    method Resize(ptr: int, size: nat, adjust: nat) returns (p: int)
      requires Valid() && ptr != 0 && Live(ptr) && bs[ptr - 2].w >= 0
      requires BLOCK_SIZE_MIN <= adjust < BLOCK_SIZE_MAX && adjust % 8 == 0 && size <= adjust
      modifies this, mem
      ensures Valid() && ptr - 2 in old(bs) && old(bs)[ptr - 2].w >= 0 && Resized(old(bs), old(mem[..]), ptr, p, size, adjust)
    {
      var b := ptr - 2;
      ReadBlock({}, b);
      var next := BlockNext(b);
      ReadBlock({}, next);
      var cursize := BlockSize(b);
      var combined := cursize + BlockSize(next) + HEADER_OVERHEAD;
      if adjust > cursize && (!IsFree(mem[next + 1]) || adjust > combined) {
        p := MoveTo(ptr, size, adjust);
      } else {
        ResizeInPlace(b, size, adjust);
        p := ptr;
      }
    }

    /** Resize without moving, growing over the free successor first when needed. */
    method ResizeInPlace(b: int, size: nat, adjust: nat)
      requires Valid() && Live(b + 2) && bs[b].w >= 0 && Next(bs, b) in bs
      requires BLOCK_SIZE_MIN <= adjust < BLOCK_SIZE_MAX && adjust % 8 == 0 && size <= adjust
      requires !MustMove(bs, b, adjust)
      modifies this, mem
      ensures Valid() && b in old(bs) && old(bs)[b].w >= 0 && Resized(old(bs), old(mem[..]), b + 2, b + 2, size, adjust)
    {
      ghost var m0, bs0 := mem[..], bs;
      ReadBlock({}, b);
      if adjust > BlockSize(b) {
        GrowUsed(b);
        assert b in Used(bs);
      }
      ghost var m1, bs1 := mem[..], bs;
      BlockTrimUsed(b, adjust / 8);
      InPlaceKept(m0, m1, mem[..], bs0, bs1, bs, b, Smaller(8 * bs0[b].w, size));
    }

    static lemma InPlaceKept(m0: seq<int>, m1: seq<int>, m2: seq<int>, bs0: Blocks, bs1: Blocks, bs2: Blocks, b: int, n: nat)
      requires b in bs0 && !bs0[b].free && b in bs1 && !bs1[b].free && bs0[b].w <= bs1[b].w
      requires Used(bs1) == Used(bs0)[b := bs1[b].w] && PayloadKept(m0, m1, bs0)
      requires b in bs2 && !bs2[b].free && Used(bs2) == Used(bs1)[b := bs2[b].w] && PayloadKept(m1, m2, bs2)
      requires 0 <= b && b + 1 + bs0[b].w < |m0| && n <= 8 * bs0[b].w && n <= 8 * bs2[b].w
      ensures SameBytes(m0, b + 2, m2, b + 2, n) && PayloadKept(m0, m2, bs0 - {b})
      ensures Used(bs2) == (Used(bs0) - {b})[b := bs2[b].w]
    {
      forall i | b + 2 <= i < b + 2 + (n + 7) / 8 ensures m2[i] == m0[i] {
        assert InPayload(bs0, b, i) && InPayload(bs2, b, i);
      }
      forall h, i | InPayload(bs0 - {b}, h, i) && 0 <= i < |m0| ensures m2[i] == m0[i] {
        assert h in Used(bs0);
        assert h in Used(bs1);
        assert h in Used(bs2);
        assert InPayload(bs0, h, i) && InPayload(bs2, h, i);
      }
    }

    /** Allocate elsewhere, copy and free: the moving branch. */
    method MoveTo(ptr: int, size: nat, adjust: nat) returns (p: int)
      requires Valid() && ptr != 0 && Live(ptr) && bs[ptr - 2].w >= 0
      requires BLOCK_SIZE_MIN <= adjust < BLOCK_SIZE_MAX && adjust % 8 == 0 && size <= adjust && MustMove(bs, ptr - 2, adjust)
      modifies this, mem
      ensures Valid() && ptr - 2 in old(bs) && old(bs)[ptr - 2].w >= 0 && Resized(old(bs), old(mem[..]), ptr, p, size, adjust)
    {
      hide PayloadKept, Used, UsedWithin, View.Linked, Coalesced, Served, SizeWord;
      ghost var m0, bs0 := mem[..], bs;
      ReadBlock({}, ptr - 2);
      var cursize := BlockSize(ptr - 2);
      p := AllocateAdjusted(adjust);
      if p != 0 {
        FinishMove(p, ptr, size, adjust, cursize, m0, bs0);
      }
    }

    method FinishMove(p: int, ptr: int, size: nat, adjust: nat, cursize: nat, ghost m0: seq<int>, ghost bs0: Blocks)
      requires Valid() && ptr != 0 && ptr - 2 in bs0 && !bs0[ptr - 2].free && ptr - 2 != last && 8 * bs0[ptr - 2].w == cursize
      requires HandedOut(bs0, p, adjust) && PayloadKept(m0, mem[..], bs0) && size <= adjust
      modifies this, mem
      ensures Valid() && ResizedTo(bs0, m0, ptr, p, size, adjust)
    {
      ghost var m1, bs1 := mem[..], bs;
      assert ptr - 2 in Used(bs0) && ptr - 2 in Used(bs);
      ReadBlock({}, p - 2);
      ReadBlock({}, ptr - 2);
      ghost var m2 := CopyAndFree(p, ptr, Smaller(cursize, size));
      MovedKept(m0, m1, m2, mem[..], bs0, bs1, bs, ptr, p, Smaller(cursize, size));
    }

    method CopyAndFree(p: int, ptr: int, n: nat) returns (ghost m2: seq<int>)
      requires Valid() && Live(p) && Live(ptr) && p != ptr && ptr != 0
      requires (n + 7) / 8 <= bs[p - 2].w && (n + 7) / 8 <= bs[ptr - 2].w
      modifies this, mem
      ensures Valid() && Used(bs) == Used(old(bs)) - {ptr - 2}
      ensures SameBytes(old(mem[..]), ptr, m2, p, n) && PayloadKept(old(mem[..]), m2, old(bs) - {p - 2})
      ensures PayloadKept(m2, mem[..], bs)
    {
      CopyPayload(p, ptr, n);
      m2 := mem[..];
      Free(ptr);
    }

    /** Copy n bytes from one live block to another. */
    method CopyPayload(p: int, src: int, n: nat)
      requires Valid() && Live(p) && Live(src) && p != src
      requires (n + 7) / 8 <= bs[p - 2].w && (n + 7) / 8 <= bs[src - 2].w
      modifies mem
      ensures Valid() && SameBytes(old(mem[..]), src, mem[..], p, n) && PayloadKept(old(mem[..]), mem[..], bs - {p - 2})
    {
      ghost var v := Snapshot();
      ReadBlock({}, p - 2);
      ReadBlock({}, src - 2);
      LiveApart(p - 2, src - 2);
      MemCopy(p, src, n);
      forall i | 0 <= i < |v.m| && !(p <= i < p + bs[p - 2].w) ensures mem[..][i] == v.m[i] {
        assert mem[..][i] == mem[i];
      }
      v.PayloadWrite(mem[..], p - 2);
    }

    lemma LiveApart(a: int, b: int)
      requires Linked({}) && a in bs && b in bs && a != b
      ensures a + 1 + bs[a].w <= b || b + 1 + bs[b].w <= a
    {
      assert InOrder(bs, a, b) && InOrder(bs, b, a);
    }

    static lemma MovedKept(m0: seq<int>, m1: seq<int>, m2: seq<int>, m3: seq<int>, bs0: Blocks, bs1: Blocks, bs3: Blocks,
                           ptr: int, p: int, n: nat)
      requires ptr - 2 in bs0 && !bs0[ptr - 2].free && p - 2 !in Used(bs0) && p != ptr
      requires p - 2 in bs1 && Used(bs1) == Used(bs0)[p - 2 := bs1[p - 2].w] && PayloadKept(m0, m1, bs0)
      requires SameBytes(m1, ptr, m2, p, n) && PayloadKept(m1, m2, bs1 - {p - 2})
      requires Used(bs3) == Used(bs1) - {ptr - 2} && PayloadKept(m2, m3, bs3)
      requires (n + 7) / 8 <= bs0[ptr - 2].w && (n + 7) / 8 <= bs1[p - 2].w && 0 <= ptr && 0 <= p
      ensures p - 2 in bs3 && !bs3[p - 2].free && bs3[p - 2].w == bs1[p - 2].w
      ensures SameBytes(m0, ptr, m3, p, n) && PayloadKept(m0, m3, bs0 - {ptr - 2})
      ensures Used(bs3) == (Used(bs0) - {ptr - 2})[p - 2 := bs1[p - 2].w]
    {
      assert p - 2 in Used(bs3) && ptr - 2 in Used(bs0);
      forall i | ptr <= i < ptr + (n + 7) / 8 && i < |m0| ensures m1[i] == m0[i] { assert InPayload(bs0, ptr - 2, i); }
      forall i | p <= i < p + (n + 7) / 8 && i < |m2| ensures m3[i] == m2[i] { assert InPayload(bs3, p - 2, i); }
      SameBytesFrom(m0, m1, m2, m3, ptr, p, n);
      var rest, rest1 := bs0 - {ptr - 2}, bs1 - {p - 2};
      forall h, i | InPayload(rest, h, i) && 0 <= i < |m0| ensures m3[i] == m0[i] {
        assert h in Used(bs0) && h in Used(bs1) && h in Used(bs3);
        assert InPayload(bs0, h, i) && InPayload(rest1, h, i) && InPayload(bs3, h, i);
      }
    }

    // ----- whole runs

    /** `ptrs` are the live pointers, each once. */
    ghost predicate AreLive(ptrs: seq<int>)
      reads this
    {
      ListOf(ptrs, Used(bs).Keys, last)
    }

    method FreeFirst(ptrs: seq<int>)
      requires Valid() && AreLive(ptrs) && ptrs != []
      modifies this, mem
      ensures Valid() && AreLive(ptrs[1..])
    {
      ghost var used := Used(bs).Keys;
      RestOf(ptrs, used, last);
      Free(ptrs[0]);
      assert Used(bs).Keys == used - {ptrs[0] - 2};
    }

    /** Freeing every live block, in any order, gives back the one initial block. */
    method FreeAll(ptrs: seq<int>)
      requires Valid() && AreLive(ptrs)
      modifies this, mem
      ensures Valid() && bs == OneFreeBlock(first, last)
    {
      for i := 0 to |ptrs|
        invariant Valid() && AreLive(ptrs[i..])
      {
        FreeFirst(ptrs[i..]);
        assert ptrs[i..][1..] == ptrs[i + 1..];
      }
      forall h | h in bs && h != last ensures bs[h].free {
        assert bs[h].free || (h in Used(bs) && Named(ptrs[|ptrs|..], h));
      }
      AllFreeIsInitial(bs, first, last);
    }

    /** `tlsf_check`: walk every list and count each broken condition. A valid heap has none. */
    method Check() returns (status: int)
      requires Valid()
      ensures status == 0
    {
      status := 0;
      for i := 0 to FL_INDEX_COUNT
        invariant status == 0
      {
        for j := 0 to SL_INDEX_COUNT
          invariant status == 0
        {
          var flMap, slMap := Bit(flBitmap, i), Bit(slBitmap[i], j);
          var block := blocks[i][j];
          RowFacts(i, j);
          if !flMap && slMap { status := status - 1; }
          if !slMap {
            if block != NULL_BLOCK { status := status - 1; }
          } else {
            if slBitmap[i] == 0 { status := status - 1; }
            if block == NULL_BLOCK { status := status - 1; }
            ghost var l, k := lists[i][j], 0;
            while block != NULL_BLOCK
              invariant 0 <= k <= |l| && l == lists[i][j] && block == At(l, k) && status == 0
              decreases |l| - k
            {
              ListedFacts(i, j, k);
              var next := BlockNext(block);
              if !IsFree(mem[block + 1]) { status := status - 1; }
              if IsPrevFree(mem[block + 1]) { status := status - 1; }
              if IsFree(mem[next + 1]) { status := status - 1; }
              if !IsPrevFree(mem[next + 1]) { status := status - 1; }
              if BlockSize(block) < BLOCK_SIZE_MIN { status := status - 1; }
              var c := MappingInsert(BlockSize(block));
              if !(c.fl == i && c.sl == j) { status := status - 1; }
              block := mem[block + 2];
              k := k + 1;
            }
          }
        }
      }
    }

    lemma RowFacts(i: nat, j: nat)
      requires Valid() && i < FL_INDEX_COUNT && j < SL_INDEX_COUNT
      ensures Bit(slBitmap[i], j) ==> Bit(flBitmap, i) && slBitmap[i] != 0
      ensures Bit(slBitmap[i], j) <==> blocks[i][j] != NULL_BLOCK
      ensures blocks[i][j] == At(lists[i][j], 0)
    {
      BitOfZero(j);
      assert Chain(mem[..], blocks[i][j], lists[i][j]);
      if lists[i][j] != [] { assert TlsfLists.Linked(mem[..], lists[i][j], 0); }
    }

    /** What holds of the k-th block of a list, as the check looks at it. */
    lemma ListedFacts(i: nat, j: nat, k: int)
      requires Valid() && i < FL_INDEX_COUNT && j < SL_INDEX_COUNT && At(lists[i][j], k) != NULL_BLOCK
      ensures 0 <= k < |lists[i][j]|
      ensures var b := lists[i][j][k];
        && 0 < b < mem.Length - 3 && mem[b + 2] == At(lists[i][j], k + 1)
        && IsFree(mem[b + 1]) && !IsPrevFree(mem[b + 1]) && BlockSize(b) >= BLOCK_SIZE_MIN
        && 0 <= BlockNext(b) + 1 < mem.Length && !IsFree(mem[BlockNext(b) + 1]) && IsPrevFree(mem[BlockNext(b) + 1])
        && MappingInsert(BlockSize(b)) == Class(i, j)
    {
      var l := lists[i][j];
      var b := l[k];
      assert Chain(mem[..], blocks[i][j], l) && TlsfLists.Linked(mem[..], l, k);
      assert mem[..][b + 2] == mem[b + 2];
      assert Pure(cls, bs, l, listed, i, j) && b in l;
      BlockClass(b, {});
      ReadBlock({}, b);
      CoalescedHold(bs, first, last, b);
      UsedPredecessor(bs, first, last, {}, b);
      ReadBlock({}, Next(bs, b));
    }
  }

  // ----- lists of live pointers

  predicate Differ(ptrs: seq<int>, i: int, j: int) {
    0 <= i < j < |ptrs| ==> ptrs[i] != ptrs[j]
  }

  /** Pointer i of the list is that of a used block, not of the sentinel, and not null. */
  predicate Points(ptrs: seq<int>, used: set<int>, last: int, i: int) {
    0 <= i < |ptrs| ==> ptrs[i] - 2 in used && ptrs[i] - 2 != last && ptrs[i] != 0
  }

  /** The block has a pointer in the list. */
  predicate Named(ptrs: seq<int>, h: int) {
    exists i :: 0 <= i < |ptrs| && ptrs[i] - 2 == h
  }

  /** `ptrs` are distinct pointers, one for every used block but the sentinel. */
  ghost predicate ListOf(ptrs: seq<int>, used: set<int>, last: int) {
    && last in used
    && (forall i, j {:trigger Differ(ptrs, i, j)} :: Differ(ptrs, i, j))
    && (forall i {:trigger Points(ptrs, used, last, i)} :: Points(ptrs, used, last, i))
    && (forall h {:trigger Named(ptrs, h)} :: h in used && h != last ==> Named(ptrs, h))
  }

  /** A pointer is taken off the list with its block. */
  lemma ListRemoved(ptrs: seq<int>, i: nat, used: set<int>, last: int)
    requires ListOf(ptrs, used, last) && i < |ptrs|
    ensures ptrs[i] - 2 in used && ptrs[i] - 2 != last && ptrs[i] != 0
    ensures ListOf(Without(ptrs, i), used - {ptrs[i] - 2}, last)
  {
    var qs, rest := Without(ptrs, i), used - {ptrs[i] - 2};
    assert Points(ptrs, used, last, i);
    forall j, k ensures Differ(qs, j, k) {
      assert Differ(ptrs, if j < i then j else j + 1, if k < i then k else k + 1);
    }
    forall j ensures Points(qs, rest, last, j) {
      assert Points(ptrs, used, last, if j < i then j else j + 1) && Differ(ptrs, j, i) && Differ(ptrs, i, j + 1);
    }
    forall h ensures h in rest && h != last ==> Named(qs, h) {
      if h in rest && h != last {
        assert Named(ptrs, h);
        var k :| 0 <= k < |ptrs| && ptrs[k] - 2 == h;
        assert qs[if k < i then k else k - 1] - 2 == h;
      }
    }
  }

  lemma RestOf(ptrs: seq<int>, used: set<int>, last: int)
    requires ListOf(ptrs, used, last) && ptrs != []
    ensures ptrs[0] - 2 in used && ptrs[0] - 2 != last && ptrs[0] != 0 && ListOf(ptrs[1..], used - {ptrs[0] - 2}, last)
  {
    ListRemoved(ptrs, 0, used, last);
    assert Without(ptrs, 0) == ptrs[1..];
  }

  /** A pointer joins the list with its block. */
  lemma ListGains(qs: seq<int>, p: int, used: set<int>, last: int)
    requires ListOf(qs, used, last) && p - 2 !in used && p != 0
    ensures ListOf(qs + [p], used + {p - 2}, last) && p !in qs
  {
    var ps, used' := qs + [p], used + {p - 2};
    forall i ensures 0 <= i < |qs| ==> qs[i] != p { assert Points(qs, used, last, i); }
    forall i, j ensures Differ(ps, i, j) { assert Differ(qs, i, j); }
    forall i ensures Points(ps, used', last, i) { assert Points(qs, used, last, i); }
    forall h ensures h in used' && h != last ==> Named(ps, h) {
      if h in used && h != last {
        assert Named(qs, h);
        var k :| 0 <= k < |qs| && qs[k] - 2 == h;
        assert ps[k] - 2 == h;
      } else {
        assert ps[|qs|] == p;
      }
    }
  }

  lemma NotListed(ptrs: seq<int>, p: int, used: set<int>, last: int)
    requires ListOf(ptrs, used, last) && p - 2 !in used
    ensures p !in ptrs
  {
    forall i ensures 0 <= i < |ptrs| ==> ptrs[i] != p { assert Points(ptrs, used, last, i); }
  }
}
