/** RISC-V page tables: the hypervisor's writer of 4 KB and 2 MB mappings, and the walker that reads a
    guest's tables bit by bit. Sections 4.4 and 4.5 of the RISC-V privileged specification give the format. */
module Sv48 {
  import opened Bits
  import opened Masks
  import opened PageAlloc
  import opened Stage2Tree
  import opened Stage2

  // ----- entry words

  const PPN_RANGE: nat := 0x1000_0000_0000

  predicate IsValid(w: nat) { w % 2 == 1 }
  predicate Reads(w: nat) { (w / 2) % 2 == 1 }
  predicate Writes(w: nat) { (w / 4) % 2 == 1 }
  predicate Executes(w: nat) { (w / 8) % 2 == 1 }
  function Ppn(w: nat): nat { (w / 1024) % PPN_RANGE }

  /** Permissions asked for: PAGE_ATTR_READ, WRITE, EXEC and USER. */
  datatype Attr = Attr(read: bool, write: bool, exec: bool, user: bool)

  function Bit01(b: bool): nat { if b then 1 else 0 }

  /** `make_pg_entry`: a valid entry without permissions, which points to a table. */
  function PointerWord(frame: nat): nat { 1 + 1024 * (frame % PPN_RANGE) }

  /** `write_pte`: write permission brings read permission, accessed and dirty are set. */
  function LeafWord(frame: nat, a: Attr): nat {
    1 + 2 * Bit01(a.read || a.write) + 4 * Bit01(a.write) + 8 * Bit01(a.exec) + 16 * Bit01(a.user) + 64 + 128
    + 1024 * (frame % PPN_RANGE)
  }

  lemma PointerFields(frame: nat)
    requires frame < PPN_RANGE
    ensures var w := PointerWord(frame);
      w != 0 && IsValid(w) && !Reads(w) && !Writes(w) && !Executes(w) && Ppn(w) == frame
  {
    var w := PointerWord(frame);
    assert w / 2 == 512 * frame && w / 4 == 256 * frame && w / 8 == 128 * frame && w / 1024 == frame;
  }

  /** The flag bits of a leaf. */
  function LeafFlags(a: Attr): nat { LeafWord(0, a) }

  /** Two bits split off the low end. */
  lemma Peel(w: nat, r: nat, t: nat, rest: nat)
    requires r < 2 && t < 2 && w == 1 + 2 * (r + 2 * (t + 2 * rest))
    ensures w % 2 == 1 && (w / 2) % 2 == r && (w / 4) % 2 == t && (w / 8) == rest
  {
    DivModUnique(w, 2, r + 2 * (t + 2 * rest), 1);
    DivModUnique(w, 4, t + 2 * rest, 2 * r + 1);
    DivModUnique(w, 8, rest, 4 * t + 2 * r + 1);
    DivModUnique(r + 2 * (t + 2 * rest), 2, t + 2 * rest, r);
    DivModUnique(t + 2 * rest, 2, rest, t);
  }

  lemma LeafBits(w: nat, r: nat, t: nat, x: nat, u: nat, frame: nat)
    requires r < 2 && t < 2 && x < 2 && w == 1 + 2 * r + 4 * t + 8 * x + 16 * u + 192 + 1024 * frame
    ensures w % 2 == 1 && (w / 2) % 2 == r && (w / 4) % 2 == t && (w / 8) % 2 == x
  {
    var rest := x + 2 * (u + 12 + 64 * frame);
    Peel(w, r, t, rest);
    DivModUnique(rest, 2, u + 12 + 64 * frame, x);
  }

  lemma UpperBits(w: nat, u: nat, low: nat, frame: nat)
    requires u < 2 && low < 15 && w == 1 + low + 16 * u + 192 + 1024 * frame
    ensures (w / 16) % 2 == u && (w / 32) % 2 == 0 && (w / 64) % 2 == 1 && (w / 128) % 2 == 1 && (w / 256) % 4 == 0
  {
    DivModUnique(w, 16, u + 12 + 64 * frame, 1 + low);
    DivModUnique(w, 32, 6 + 32 * frame, 1 + low + 16 * u);
    DivModUnique(w, 64, 3 + 16 * frame, 1 + low + 16 * u);
    DivModUnique(w, 128, 1 + 8 * frame, 1 + low + 16 * u + 64);
    DivModUnique(w, 256, 4 * frame, 1 + low + 16 * u + 192);
    DivModUnique(u + 12 + 64 * frame, 2, 6 + 32 * frame, u);
    DivModUnique(6 + 32 * frame, 2, 3 + 16 * frame, 0);
    DivModUnique(3 + 16 * frame, 2, 1 + 8 * frame, 1);
    DivModUnique(1 + 8 * frame, 2, 4 * frame, 1);
    DivModUnique(4 * frame, 4, frame, 0);
  }

  lemma LeafFields(frame: nat, a: Attr)
    requires frame < PPN_RANGE
    ensures var w := LeafWord(frame, a);
      && w != 0 && IsValid(w) && Ppn(w) == frame && Flags(w) == LeafFlags(a) && (Writes(w) ==> Reads(w))
      && (Reads(w) <==> a.read || a.write) && (Writes(w) <==> a.write) && (Executes(w) <==> a.exec)
      && ((w / 16) % 2 == 1 <==> a.user) && (w / 32) % 2 == 0                            // U, not global
      && (w / 64) % 2 == 1 && (w / 128) % 2 == 1 && (w / 256) % 4 == 0                   // A, D, software bits clear
  {
    var w := LeafWord(frame, a);
    LeafFrame(w, frame, a);
    UpperBits(w, Bit01(a.user), 2 * Bit01(a.read || a.write) + 4 * Bit01(a.write) + 8 * Bit01(a.exec), frame);
    LeafBits(w, Bit01(a.read || a.write), Bit01(a.write), Bit01(a.exec), Bit01(a.user), frame);
  }

  lemma LeafFrame(w: nat, frame: nat, a: Attr)
    requires frame < PPN_RANGE && w == LeafWord(frame, a)
    ensures Ppn(w) == frame && Flags(w) == LeafFlags(a)
  {
    DivModUnique(w, 1024, frame, w - 1024 * frame);
  }

  /** An entry a walk stops at with success. */
  predicate IsLeaf(w: nat) {
    IsValid(w) && (Reads(w) || Executes(w)) && (Writes(w) ==> Reads(w))
  }

  predicate IsPointer(w: nat) {
    IsValid(w) && !Reads(w) && !Writes(w) && !Executes(w)
  }

  // ----- the tree

  type Words = seq<seq<nat>>

  ghost predicate WordSized(pages: Words) {
    |pages| == TOTAL_PAGES && forall p | 0 <= p < TOTAL_PAGES :: |pages[p]| == 512
  }

  /** Entry i of table k: pointers above existing tables, 4 KB leaves at the last level, aligned 2 MB leaves one
      level up, and otherwise zero. */
  ghost predicate WordOk(pages: Words, tab: Tables, off: nat, k: Key, i: nat)
    requires WordSized(pages) && k in tab && tab[k] < TOTAL_PAGES && i < 512
  {
    var w := pages[tab[k]][i];
    if k.level == 3 then w == 0 || IsLeaf(w)
    else if Child(k, i) in tab then IsPointer(w) && Ppn(w) == off + tab[Child(k, i)]
    else w == 0 || (k.level == 2 && IsLeaf(w) && Ppn(w) % 512 == 0)
  }

  ghost predicate WordTree(pages: Words, tab: Tables, sl: int, root: nat, off: nat) {
    && WordSized(pages) && Shaped(tab, sl, root) && sl <= 2 && off + TOTAL_PAGES <= PPN_RANGE
    && (forall k, i: nat {:trigger WordOk(pages, tab, off, k, i)} | k in tab && i < 512 :: WordOk(pages, tab, off, k, i))
  }

  datatype Opt = None | Some(v: nat)

  /** What the tables say of a page: where it goes, and the ten low bits of its leaf. */
  datatype Mapping = Unmapped | Mapped(frame: nat, flags: nat)

  function Flags(w: nat): nat { w % 1024 }

  function WordAt(pages: Words, tab: Tables, k: Key, i: nat): nat {
    if k in tab && tab[k] < |pages| && i < |pages[tab[k]]| then pages[tab[k]][i] else 0
  }

  /** Where page v goes: by its 4 KB leaf, or its place in a 2 MB one. */
  function FrameOf(pages: Words, tab: Tables, v: nat): Mapping {
    var k3, k2 := Key(3, v / 512), Key(2, v / 512 / 512);
    if k3 in tab then
      var w := WordAt(pages, tab, k3, v % 512);
      if w == 0 then Unmapped else Mapped(Ppn(w), Flags(w))
    else
      var w := WordAt(pages, tab, k2, v / 512 % 512);
      if w == 0 then Unmapped else Mapped(Ppn(w) + v % 512, Flags(w))
  }

  // ----- the walker

  /** `guest_va_to_pa` from one table on: levels as the specification counts them are 3 - level. */
  function WalkWords(pages: Words, off: nat, table: nat, va: nat, level: int): Opt
    decreases 4 - level
  {
    if level > 3 || table >= |pages| || Slot(va / 4096, level) >= |pages[table]| then None
    else
      var w := pages[table][Slot(va / 4096, level)];
      if !IsValid(w) || (Writes(w) && !Reads(w)) then None
      else if Reads(w) || Executes(w) then Some(Or(4096 * Ppn(w), va % PageSize(level)))
      else if Ppn(w) < off then None
      else WalkWords(pages, off, Ppn(w) - off, va, level + 1)
  }

  /** Bytes a leaf of this level maps. */
  function PageSize(level: int): (n: nat)
    requires level <= 3
    ensures n > 0
    decreases 3 - level
  {
    if level >= 3 then 4096 else 512 * PageSize(level + 1)
  }

  lemma {:induction false} OrDisjoint(x: nat, y: nat, n: nat)
    requires x % Pow2(n) == 0 && y < Pow2(n)
    ensures Or(x, y) == x + y
    decreases n
  {
    if n == 0 {
      OrZero(x);
    } else {
      var p := Pow2(n - 1);
      EvenMultiple(x, p);
      OrDisjoint(x / 2, y / 2, n - 1);
    }
  }

  lemma EvenMultiple(x: nat, p: nat)
    requires p > 0 && x % (2 * p) == 0
    ensures x % 2 == 0 && (x / 2) % p == 0
  {
    var q := x / (2 * p);
    assert x == 2 * (p * q);
    DivModUnique(x / 2, p, q, 0);
  }

  lemma {:induction false} OrZero(x: nat)
    ensures Or(x, 0) == x
    decreases x
  {
    if x > 0 { OrZero(x / 2); }
  }

  /** Wherever a walk meets an aligned leaf it ends, with the low bits of the address under the leaf's frame: 12
      bits for a leaf of the last level (3), 21 one level up, 30 at level 1 and 39 at level 0. */
  lemma LeafReads(pages: Words, off: nat, table: nat, va: nat, level: int, bits: nat)
    requires 0 <= level <= 3 && table < |pages| && Slot(va / 4096, level) < |pages[table]| && bits == 39 - 9 * level
    requires var w := pages[table][Slot(va / 4096, level)]; IsLeaf(w) && 4096 * Ppn(w) % Pow2(bits) == 0
    ensures Pow2(bits) > 0
    ensures WalkWords(pages, off, table, va, level) == Some(4096 * Ppn(pages[table][Slot(va / 4096, level)]) + va % Pow2(bits))
  {
    PageSizeIs(level, bits);
    OrDisjoint(4096 * Ppn(pages[table][Slot(va / 4096, level)]), va % Pow2(bits), bits);
  }

  lemma PageSizeIs(level: int, bits: nat)
    requires 0 <= level <= 3 && bits == 39 - 9 * level
    ensures PageSize(level) == Pow2(bits)
    decreases 3 - level
  {
    if level == 3 {
      assert Pow2(12) == 4096;
    } else {
      PageSizeIs(level + 1, bits - 9);
      Pow2Sum(9, bits - 9);
      assert Pow2(9) == 512;
    }
  }

  /** A walk meets an invalid entry, or one that would be writable but not readable: there is no address. */
  lemma FaultReads(pages: Words, off: nat, table: nat, va: nat, level: int)
    requires 0 <= level <= 3 && table < |pages| && Slot(va / 4096, level) < |pages[table]|
    requires var w := pages[table][Slot(va / 4096, level)]; !IsValid(w) || (Writes(w) && !Reads(w)) || (level == 3 && !IsLeaf(w))
    ensures WalkWords(pages, off, table, va, level) == None
  {}

  /** Where an address in page v of frame f goes. */
  function Address(f: Mapping, va: nat): Opt {
    if f.Unmapped? then None else Some(4096 * f.frame + va % 4096)
  }

  lemma SmallLeaf(ppn: nat, va: nat)
    ensures Or(4096 * ppn, va % 4096) == 4096 * ppn + va % 4096
  {
    assert Pow2(12) == 4096;
    DivModUnique(4096 * ppn, 4096, ppn, 0);
    OrDisjoint(4096 * ppn, va % 4096, 12);
  }

  lemma LargeLeaf(ppn: nat, va: nat)
    requires ppn % 512 == 0
    ensures Or(4096 * ppn, va % 0x20_0000) == 4096 * (ppn + va / 4096 % 512) + va % 4096
  {
    Pow2Small();
    Pow2Sum(16, 5);
    var q := ppn / 512;
    assert 4096 * ppn == 0x20_0000 * q;
    DivModUnique(4096 * ppn, 0x20_0000, q, 0);
    OrDisjoint(4096 * ppn, va % 0x20_0000, 21);
    OffsetSplit(va);
  }

  lemma OffsetSplit(va: nat)
    ensures va % 0x20_0000 == 4096 * (va / 4096 % 512) + va % 4096
  {
    var v := va / 4096;
    assert va == 4096 * (512 * (v / 512) + v % 512) + va % 4096;
    DivModUnique(va, 0x20_0000, v / 512, 4096 * (v % 512) + va % 4096);
  }

  /** Without a table on its path, a page is not mapped. */
  lemma NoTableNoFrame(pages: Words, tab: Tables, sl: int, root: nat, off: nat, v: nat, level: int)
    requires WordTree(pages, tab, sl, root, off) && sl <= level <= 2 && At(v, level) !in tab
    ensures FrameOf(pages, tab, v) == Unmapped
  {
    if At(v, 3) in tab { AncestorIn(tab, sl, root, v, 3, level); }
    if At(v, 2) in tab { AncestorIn(tab, sl, root, v, 2, level); }
    assert At(v, 3) == Key(3, v / 512) && At(v, 2) == Key(2, v / 512 / 512);
  }

  /** One level of the walk, on the entry w it looks at. */
  lemma WalkStep(pages: Words, off: nat, table: nat, va: nat, level: int, i: nat, w: nat)
    requires level <= 3 && table < |pages| && i < |pages[table]| && i == Slot(va / 4096, level) && w == pages[table][i]
    ensures !IsValid(w) ==> WalkWords(pages, off, table, va, level) == None
    ensures IsLeaf(w) ==> WalkWords(pages, off, table, va, level) == Some(Or(4096 * Ppn(w), va % PageSize(level)))
    ensures IsPointer(w) && Ppn(w) >= off ==> WalkWords(pages, off, table, va, level) == WalkWords(pages, off, Ppn(w) - off, va, level + 1)
  {}

  lemma LeafSizes()
    ensures PageSize(3) == 4096 && PageSize(2) == 0x20_0000
  {}

  lemma ZeroWord()
    ensures !IsValid(0)
  {}

  /** A walk that ends at level 3. */
  lemma ReadSmall(pages: Words, tab: Tables, sl: int, root: nat, off: nat, va: nat, v: nat, k: Key)
    requires WordTree(pages, tab, sl, root, off) && k == Key(3, v / 512) && k in tab && Slot(va / 4096, 3) == v % 512
    ensures WalkWords(pages, off, tab[k], va, 3) == Address(FrameOf(pages, tab, v), va)
  {
    var i := v % 512;
    var w := pages[tab[k]][i];
    assert WordOk(pages, tab, off, k, i);
    WalkStep(pages, off, tab[k], va, 3, i, w);
    LeafSizes();
    ZeroWord();
    SmallLeaf(Ppn(w), va);
  }

  /** A walk that ends at level 2. */
  lemma ReadLarge(pages: Words, tab: Tables, sl: int, root: nat, off: nat, va: nat, v: nat, k: Key, i: nat)
    requires WordTree(pages, tab, sl, root, off) && k == Key(2, v / 512 / 512) && k in tab && i == v / 512 % 512
    requires Slot(va / 4096, 2) == i && va / 4096 % 512 == v % 512 && Child(k, i) == Key(3, v / 512) && Child(k, i) !in tab
    ensures WalkWords(pages, off, tab[k], va, 2) == Address(FrameOf(pages, tab, v), va)
  {
    var w := pages[tab[k]][i];
    assert WordOk(pages, tab, off, k, i);
    WalkStep(pages, off, tab[k], va, 2, i, w);
    LeafSizes();
    ZeroWord();
    if w != 0 { LargeLeaf(Ppn(w), va); }
  }

  /** The tables and slots on the way to a page, in closed form. */
  lemma WayDown(v: nat)
    ensures At(v, 3) == Key(3, v / 512) && Slot(v, 3) == v % 512
    ensures At(v, 2) == Key(2, v / 512 / 512) && Slot(v, 2) == v / 512 % 512
  {}

  /** The walker reads back exactly what the tables say of the page an address resolves to. */
  lemma {:induction false} ReadBack(pages: Words, tab: Tables, sl: int, root: nat, off: nat, va: nat, v: nat, level: int)
    requires WordTree(pages, tab, sl, root, off) && sl <= level <= 3 && At(v, level) in tab && Resolves(va / 4096, sl, v)
    ensures WalkWords(pages, off, tab[At(v, level)], va, level) == Address(FrameOf(pages, tab, v), va)
    decreases 3 - level
  {
    var k, i := At(v, level), Slot(v, level);
    assert Slot(va / 4096, level) == i;
    AtChild(v, level);
    WayDown(v);
    if level == 3 {
      ReadSmall(pages, tab, sl, root, off, va, v, k);
    } else if Child(k, i) in tab {
      ReadBelow(pages, tab, sl, root, off, va, k, i);
      ReadBack(pages, tab, sl, root, off, va, v, level + 1);
    } else if level == 2 {
      assert Slot(va / 4096, 3) == Slot(v, 3);
      WayDown(va / 4096);
      ReadLarge(pages, tab, sl, root, off, va, v, k, i);
    } else {
      ReadNothing(pages, tab, sl, root, off, va, k, i);
      NoTableNoFrame(pages, tab, sl, root, off, v, level + 1);
    }
  }

  lemma ReadBelow(pages: Words, tab: Tables, sl: int, root: nat, off: nat, va: nat, k: Key, i: nat)
    requires WordTree(pages, tab, sl, root, off) && k in tab && k.level < 3 && i < 512 && Slot(va / 4096, k.level) == i && Child(k, i) in tab
    ensures WalkWords(pages, off, tab[k], va, k.level) == WalkWords(pages, off, tab[Child(k, i)], va, k.level + 1)
  {
    assert WordOk(pages, tab, off, k, i);
    WalkPointer(pages, off, tab[k], va, k.level, i, pages[tab[k]][i], tab[Child(k, i)]);
  }

  lemma WalkPointer(pages: Words, off: nat, table: nat, va: nat, level: int, i: nat, w: nat, next: nat)
    requires level <= 3 && table < |pages| && i < |pages[table]| && i == Slot(va / 4096, level) && w == pages[table][i]
    requires IsPointer(w) && Ppn(w) == off + next
    ensures WalkWords(pages, off, table, va, level) == WalkWords(pages, off, next, va, level + 1)
  {
    WalkStep(pages, off, table, va, level, i, w);
  }

  lemma ReadNothing(pages: Words, tab: Tables, sl: int, root: nat, off: nat, va: nat, k: Key, i: nat)
    requires WordTree(pages, tab, sl, root, off) && k in tab && k.level < 2 && i < 512 && Slot(va / 4096, k.level) == i && Child(k, i) !in tab
    ensures WalkWords(pages, off, tab[k], va, k.level) == None
  {
    assert WordOk(pages, tab, off, k, i);
    ZeroWord();
    WalkStep(pages, off, tab[k], va, k.level, i, 0);
  }

  // ----- steps of the writer

  function SetWord(pages: Words, p: nat, i: nat, w: nat): Words
    requires p < |pages| && i < |pages[p]|
  {
    var page: seq<nat> := pages[p][i := w];
    pages[p := page]
  }

  function ZeroWords(): seq<nat> { seq<nat>(512, _ => 0) }

  ghost predicate CanAddWord(pages: Words, tab: Tables, sl: int, root: nat, off: nat, k: Key, i: nat, p: nat) {
    && WordTree(pages, tab, sl, root, off) && k in tab && k.level < 3 && i < 512 && Child(k, i) !in tab
    && tab[k] < TOTAL_PAGES && pages[tab[k]][i] == 0 && p < TOTAL_PAGES && p !in tab.Values
  }

  function AddedWord(pages: Words, tab: Tables, k: Key, i: nat, p: nat, off: nat): Words
    requires k in tab && p < |pages| && tab[k] < |pages| && tab[k] != p && i < |pages[tab[k]]|
  {
    SetWord(pages[p := ZeroWords()], tab[k], i, PointerWord(off + p))
  }

  lemma AddWordTree(pages: Words, tab: Tables, sl: int, root: nat, off: nat, k: Key, i: nat, p: nat)
    requires CanAddWord(pages, tab, sl, root, off, k, i, p)
    ensures tab[k] != p && WordTree(AddedWord(pages, tab, k, i, p, off), tab[Child(k, i) := p], sl, root, off)
  {
    AddShaped(tab, sl, root, k, i, p);
    PointerFields(off + p);
    var pages', tab' := AddedWord(pages, tab, k, i, p, off), tab[Child(k, i) := p];
    forall j, a: nat | j in tab' && a < 512 ensures WordOk(pages', tab', off, j, a) {
      if j == Child(k, i) {
        ChildParent(j, a);
        assert Child(j, a) in tab ==> Parent(Child(j, a)) in tab;
      } else {
        assert WordOk(pages, tab, off, j, a);
        assert tab[j] in tab.Values && Apart(tab, j, k);
        if Child(j, a) == Child(k, i) { ChildInjective(j, a, k, i); }
      }
    }
  }

  ghost predicate SameFrames(p0: Words, t0: Tables, p1: Words, t1: Tables) {
    forall v: nat :: FrameOf(p1, t1, v) == FrameOf(p0, t0, v)
  }

  lemma AddWordFrames(pages: Words, tab: Tables, sl: int, root: nat, off: nat, k: Key, i: nat, p: nat)
    requires CanAddWord(pages, tab, sl, root, off, k, i, p)
    ensures tab[k] != p && SameFrames(pages, tab, AddedWord(pages, tab, k, i, p, off), tab[Child(k, i) := p])
  {
    AddShaped(tab, sl, root, k, i, p);
    var pages', tab', c := AddedWord(pages, tab, k, i, p, off), tab[Child(k, i) := p], Child(k, i);
    forall v: nat ensures FrameOf(pages', tab', v) == FrameOf(pages, tab, v) {
      assert Apart(tab, Key(3, v / 512), k) && Apart(tab, Key(2, v / 512 / 512), k);
      AddWordAt(pages, tab, k, i, p, off, Key(3, v / 512), v % 512);
      AddWordAt(pages, tab, k, i, p, off, Key(2, v / 512 / 512), v / 512 % 512);
    }
  }

  /** The words that decide where a page goes, with a new table in place. */
  lemma AddWordAt(pages: Words, tab: Tables, k: Key, i: nat, p: nat, off: nat, j: Key, a: nat)
    requires k in tab && p < |pages| && tab[k] < |pages| && tab[k] != p && i < |pages[tab[k]]| && Child(k, i) !in tab && p !in tab.Values
    requires Apart(tab, j, k) && a < 512
    ensures var pages', tab' := AddedWord(pages, tab, k, i, p, off), tab[Child(k, i) := p];
      WordAt(pages', tab', j, a) == if j == Child(k, i) then 0 else if j == k && a == i then PointerWord(off + p) else WordAt(pages, tab, j, a)
  {
    if j in tab && j != Child(k, i) { assert tab[j] in tab.Values; }
  }

  /** Pages lo .. lo+n-1 go to the frames from f on, every other page goes where it went. */
  ghost predicate Framed(p0: Words, t0: Tables, p1: Words, t1: Tables, lo: nat, n: nat, f: nat, flags: nat) {
    forall v: nat :: FrameOf(p1, t1, v) == if lo <= v < lo + n then Mapped(f + (v - lo), flags) else FrameOf(p0, t0, v)
  }

  /** Address va of a range at vaddr, whose page is lo, goes to the same place in the range at paddr. */
  ghost predicate Goes(pages: Words, tab: Tables, lo: nat, vaddr: nat, paddr: nat, flags: nat, va: nat) {
    va >= vaddr && FrameOf(pages, tab, lo + (va - vaddr) / 4096) == Mapped((paddr + (va - vaddr)) / 4096, flags)
  }

  /** No page before the range, or `size` bytes or more behind its start, goes elsewhere. */
  ghost predicate BeyondKept(p0: Words, t0: Tables, p1: Words, t1: Tables, lo: nat, size: nat) {
    forall v: nat | v < lo || 4096 * (v - lo) >= size :: FrameOf(p1, t1, v) == FrameOf(p0, t0, v)
  }

  /** A framed range that holds `size` bytes, byte by byte. */
  lemma BytesFramed(p0: Words, t0: Tables, p1: Words, t1: Tables, lo: nat, n: nat, vaddr: nat, paddr: nat, size: nat, flags: nat)
    requires Framed(p0, t0, p1, t1, lo, n, paddr / 4096, flags) && paddr % 4096 == 0 && size <= 4096 * n
    ensures forall va: nat | vaddr <= va < vaddr + size :: Goes(p1, t1, lo, vaddr, paddr, flags, va)
    ensures BeyondKept(p0, t0, p1, t1, lo, 4096 * n)
  {
    forall va: nat | vaddr <= va < vaddr + size ensures Goes(p1, t1, lo, vaddr, paddr, flags, va) {
      var d := va - vaddr;
      assert d / 4096 < n && (paddr + d) / 4096 == paddr / 4096 + d / 4096;
    }
  }

  lemma RangeBytes(p0: Words, t0: Tables, p1: Words, t1: Tables, lo: nat, n: nat, vaddr: nat, paddr: nat, size: nat, flags: nat)
    requires Framed(p0, t0, p1, t1, lo, n, paddr / 4096, flags) && size <= 4096 * n < size + 4096
    ensures BeyondKept(p0, t0, p1, t1, lo, size)
    ensures paddr % 4096 == 0 ==> forall va: nat | vaddr <= va < vaddr + size :: Goes(p1, t1, lo, vaddr, paddr, flags, va)
  {
    forall v: nat | v < lo || 4096 * (v - lo) >= size ensures FrameOf(p1, t1, v) == FrameOf(p0, t0, v) {}
    if paddr % 4096 == 0 { BytesFramed(p0, t0, p1, t1, lo, n, vaddr, paddr, size, flags); }
  }

  lemma SmallTree(pages: Words, tab: Tables, sl: int, root: nat, off: nat, v: nat, w: nat)
    requires WordTree(pages, tab, sl, root, off) && At(v, 3) in tab && IsLeaf(w)
    ensures tab[At(v, 3)] < TOTAL_PAGES && Slot(v, 3) < 512
    ensures WordTree(SetWord(pages, tab[At(v, 3)], Slot(v, 3), w), tab, sl, root, off)
    ensures w != 0 && Framed(pages, tab, SetWord(pages, tab[At(v, 3)], Slot(v, 3), w), tab, v, 1, Ppn(w), Flags(w))
  {
    var k, i := At(v, 3), Slot(v, 3);
    var pages' := SetWord(pages, tab[k], i, w);
    forall j, a: nat | j in tab && a < 512 ensures WordOk(pages', tab, off, j, a) {
      assert WordOk(pages, tab, off, j, a) && Apart(tab, j, k);
    }
    assert k == Key(3, v / 512) && i == v % 512;
    forall u: nat ensures FrameOf(pages', tab, u) == if u == v then Mapped(Ppn(w), Flags(w)) else FrameOf(pages, tab, u) {
      assert Apart(tab, Key(3, u / 512), k) && Apart(tab, Key(2, u / 512 / 512), k);
      SetWordAt(pages, tab, k, i, w, Key(3, u / 512), u % 512);
      SetWordAt(pages, tab, k, i, w, Key(2, u / 512 / 512), u / 512 % 512);
    }
  }

  lemma SetWordAt(pages: Words, tab: Tables, k: Key, i: nat, w: nat, j: Key, a: nat)
    requires k in tab && tab[k] < |pages| && i < |pages[tab[k]]| && Apart(tab, j, k)
    ensures WordAt(SetWord(pages, tab[k], i, w), tab, j, a) == if j == k && a == i then w else WordAt(pages, tab, j, a)
  {}

  /** Writing an aligned 2 MB leaf; a 4 KB table that hung there is no longer one of the tables. */
  lemma LargeTree(pages: Words, tab: Tables, sl: int, root: nat, off: nat, v: nat, w: nat)
    requires WordTree(pages, tab, sl, root, off) && At(v, 2) in tab && IsLeaf(w) && Ppn(w) % 512 == 0 && v % 512 == 0
    ensures tab[At(v, 2)] < TOTAL_PAGES && Slot(v, 2) < 512
    ensures WordTree(SetWord(pages, tab[At(v, 2)], Slot(v, 2), w), tab - {At(v, 3)}, sl, root, off)
    ensures w != 0 && Framed(pages, tab, SetWord(pages, tab[At(v, 2)], Slot(v, 2), w), tab - {At(v, 3)}, v, 512, Ppn(w), Flags(w))
  {
    var k, i := At(v, 2), Slot(v, 2);
    AtChild(v, 2);
    var pages', tab' := SetWord(pages, tab[k], i, w), tab - {Child(k, i)};
    forall j, a: nat | j in tab' && a < 512 ensures WordOk(pages', tab', off, j, a) {
      assert WordOk(pages, tab, off, j, a) && Apart(tab, j, k);
      if Child(j, a) == Child(k, i) { ChildInjective(j, a, k, i); }
    }
    LastDropped(tab, sl, root, Child(k, i));
    WayDown(v);
    forall u: nat ensures FrameOf(pages', tab', u) == if v <= u < v + 512 then Mapped(Ppn(w) + (u - v), Flags(w)) else FrameOf(pages, tab, u) {
      LargeAt(pages, tab, sl, root, v, k, i, w, u);
    }
  }

  /** Without one of the last-level tables the rest is still a tree. */
  lemma LastDropped(tab: Tables, sl: int, root: nat, c: Key)
    requires Shaped(tab, sl, root) && c.level == 3 && sl < 3
    ensures Shaped(tab - {c}, sl, root)
  {
    forall j | j in tab - {c} && j.level > sl ensures Parent(j) in tab - {c} { assert Parent(j) in tab; }
    forall j, k ensures Apart(tab - {c}, j, k) { assert Apart(tab, j, k); }
  }

  lemma LargeAt(pages: Words, tab: Tables, sl: int, root: nat, v: nat, k: Key, i: nat, w: nat, u: nat)
    requires WordSized(pages) && Shaped(tab, sl, root) && v % 512 == 0 && w != 0
    requires k == Key(2, v / 512 / 512) && k in tab && i == v / 512 % 512
    ensures FrameOf(SetWord(pages, tab[k], i, w), tab - {Key(3, v / 512)}, u)
         == if v <= u < v + 512 then Mapped(Ppn(w) + (u - v), Flags(w)) else FrameOf(pages, tab, u)
  {
    assert Apart(tab, Key(3, u / 512), k) && Apart(tab, Key(2, u / 512 / 512), k);
    SetWordAt(pages, tab, k, i, w, Key(3, u / 512), u % 512);
    SetWordAt(pages, tab, k, i, w, Key(2, u / 512 / 512), u / 512 % 512);
    SameLarge(u, v);
  }

  /** Two pages share the 2 MB slot exactly when the second is within 512 of the first, aligned, one. */
  lemma SameLarge(u: nat, v: nat)
    requires v % 512 == 0
    ensures v <= u < v + 512 <==> u / 512 / 512 == v / 512 / 512 && u / 512 % 512 == v / 512 % 512
    ensures v <= u < v + 512 <==> u / 512 == v / 512
    ensures v <= u < v + 512 ==> u % 512 == u - v
  {
    var a, b := u / 512, v / 512;
    assert a == 512 * (a / 512) + a % 512 && b == 512 * (b / 512) + b % 512;
  }

  /** No 2 MB leaf covers the page. */
  predicate NotLarge(pages: Words, tab: Tables, v: nat) {
    At(v, 3) in tab || WordAt(pages, tab, At(v, 2), Slot(v, 2)) == 0
  }

  /** The walk down ends here: a 2 MB leaf covers the page. */
  predicate Stuck(pages: Words, tab: Tables, v: nat, level: int) {
    level == 2 && !NotLarge(pages, tab, v)
  }

  /** `is_leaf`. */
  predicate HasPermission(w: nat) { Reads(w) || Writes(w) || Executes(w) }

  /** The walk down for page v has got to `level`: with missing tables made, or, when a 2 MB leaf covers the page,
      with nothing changed and no further than level 2. */
  ghost predicate Came(p0: Words, t0: Tables, p1: Words, t1: Tables, v: nat, level: int, end: int, table: nat) {
    if NotLarge(p0, t0, v) then Stands(t1, v, level, table) && Grown(p0, t0, p1, t1, end)
    else p1 == p0 && t1 == t0 && Stands(t1, v, if level == 3 then 2 else level, table) && Grown(p0, t0, p1, t1, end)
  }

  lemma StillLarge(p0: Words, t0: Tables, p1: Words, t1: Tables, v: nat)
    requires !NotLarge(p0, t0, v) && p1 == p0 && t1 == t0
    ensures !NotLarge(p1, t1, v)
  {}

  /** A page under a 2 MB leaf has its tables down to level 2. */
  lemma LargePath(pages: Words, tab: Tables, sl: int, root: nat, v: nat, level: int)
    requires Shaped(tab, sl, root) && sl <= 2 && !NotLarge(pages, tab, v) && sl <= level <= 2
    ensures At(v, 2) in tab && At(v, level) in tab && (level < 2 ==> At(v, level + 1) in tab)
  {
    AncestorIn(tab, sl, root, v, 2, level);
    if level < 2 { AncestorIn(tab, sl, root, v, 2, level + 1); }
  }

  lemma SameFramesStep(p0: Words, t0: Tables, p1: Words, t1: Tables, p2: Words, t2: Tables)
    requires SameFrames(p0, t0, p1, t1) && SameFrames(p1, t1, p2, t2)
    ensures SameFrames(p0, t0, p2, t2)
  {}

  lemma FramedAfter(p0: Words, t0: Tables, p1: Words, t1: Tables, p2: Words, t2: Tables, lo: nat, n: nat, f: nat, flags: nat)
    requires SameFrames(p0, t0, p1, t1) && Framed(p1, t1, p2, t2, lo, n, f, flags)
    ensures Framed(p0, t0, p2, t2, lo, n, f, flags)
  {}

  lemma FramedNone(p: Words, t: Tables, lo: nat, f: nat, flags: nat)
    ensures Framed(p, t, p, t, lo, 0, f, flags)
  {}

  lemma FramedJoin(p0: Words, t0: Tables, p1: Words, t1: Tables, p2: Words, t2: Tables, lo: nat, n: nat, mid: nat, m: nat, f: nat, g: nat, flags: nat)
    requires Framed(p0, t0, p1, t1, lo, n, f, flags) && Framed(p1, t1, p2, t2, mid, m, g, flags) && mid == lo + n && g == f + n
    ensures Framed(p0, t0, p2, t2, lo, n + m, f, flags)
  {}

  // ----- the writer

  class GuestTables {
    const alloc: PageAllocator
    const root: nat
    const sl: int
    const off: nat
    var pages: Words
    ghost var tab: Tables

    ghost predicate Valid()
      reads this, alloc, alloc.bits
    {
      alloc.Valid() && WordTree(pages, tab, sl, root, off) && tab.Values <= alloc.Taken()
    }

    /** Pages in use by others than these tables. */
    ghost function Others(): set<nat>
      requires alloc.Valid()
      reads this, alloc, alloc.bits
    {
      alloc.Taken() - tab.Values
    }

    /** A zeroed root table for Sv48 (start level 0) or Sv39 (start level 1). */
    constructor (a: PageAllocator, startLevel: int, frames: nat, memory: Words)
      requires a.Valid() && 0 <= startLevel <= 1 && WordSized(memory) && Spare(a.Taken()) != {} && frames + TOTAL_PAGES <= PPN_RANGE
      modifies a.bits
      ensures Valid() && alloc == a && sl == startLevel && off == frames && tab.Keys == {Key(sl, 0)}
      ensures forall v: nat :: FrameOf(pages, tab, v) == Unmapped
    {
      var p: nat := a.AllocOnePage();
      assert p != TOTAL_PAGES by {
        var q: nat :| q in Spare(old(a.Taken()));
        assert FreeEven(q, old(a.Taken()));
      }
      alloc, root, sl, off := a, p, startLevel, frames;
      pages := memory[p := ZeroWords()];
      tab := map[Key(startLevel, 0) := p];
      new;
      assert tab[Key(sl, 0)] == root;
      forall k, i: nat | k in tab && i < 512 ensures WordOk(pages, tab, off, k, i) {}
    }

    method Hook(table: nat, slot: nat, fn: nat, ghost k: Key)
      requires CanAddWord(pages, tab, sl, root, off, k, slot, fn) && tab[k] == table
      modifies this`pages, this`tab
      ensures WordTree(pages, tab, sl, root, off) && tab == old(tab)[Child(k, slot) := fn]
      ensures SameFrames(old(pages), old(tab), pages, tab)
    {
      AddWordTree(pages, tab, sl, root, off, k, slot, fn);
      AddWordFrames(pages, tab, sl, root, off, k, slot, fn);
      pages := pages[fn := ZeroWords()];
      pages := SetWord(pages, table, slot, PointerWord(off + fn));
      tab := tab[Child(k, slot) := fn];
    }

    /** A new table under an empty entry. */
    method MakeTable(table: nat, level: int, slot: nat, ghost v: nat, ghost need: set<Key>) returns (fn: nat)
      requires Valid() && sl <= level < 3 && slot == Slot(v, level) && At(v, level) in tab && tab[At(v, level)] == table
      requires At(v, level + 1) !in tab && table < TOTAL_PAGES && pages[table][slot] == 0
      requires At(v, level + 1) in need && Budget(need, tab, alloc.Taken())
      modifies this`pages, this`tab, alloc.bits
      ensures Valid() && tab == old(tab)[At(v, level + 1) := fn] && Extends(old(tab), tab) && Others() == old(Others())
      ensures tab.Keys == old(tab).Keys + {At(v, level + 1)} && Budget(need, tab, alloc.Taken())
      ensures SameFrames(old(pages), old(tab), pages, tab)
    {
      AtChild(v, level);
      fn := AllocTable(alloc, tab, At(v, level + 1), need);
      Entered(tab, At(v, level + 1), fn, old(alloc.Taken()));
      Hook(table, slot, fn, At(v, level));
    }

    /** `pg_next_level`: the child table c under the entry, made if need be. A 2 MB leaf in the entry is reported
        as success with the table unchanged. */
    method NextLevel(table: nat, level: int, slot: nat, ghost v: nat, ghost k: Key, ghost c: Key, ghost need: set<Key>) returns (next: nat)
      requires Valid() && sl <= level < 3 && slot == Slot(v, level) && k == At(v, level) && k in tab && tab[k] == table
      requires c == At(v, level + 1) && c in need && Budget(need, tab, alloc.Taken())
      modifies this`pages, this`tab, alloc.bits
      ensures Valid() && Extends(old(tab), tab) && Others() == old(Others()) && Budget(need, tab, alloc.Taken())
      ensures SameFrames(old(pages), old(tab), pages, tab)
      ensures if Stuck(old(pages), old(tab), v, level) then next == table
              else c in tab && tab[c] == next && tab.Keys == old(tab).Keys + {c}
      ensures Stuck(old(pages), old(tab), v, level) || c in old(tab) ==>
        pages == old(pages) && tab == old(tab) && alloc.bits[..] == old(alloc.bits[..])
    {
      EntryUnder(v, level, slot);
      var entry := pages[table][slot];
      if !IsValid(entry) {
        next := MakeTable(table, level, slot, v, need);
      } else {
        assert c in tab ==> tab.Keys + {c} == tab.Keys;
        next := if HasPermission(entry) then table else Ppn(entry) - off;
      }
    }

    /** An entry above the last level is a 2 MB leaf, zero, or points to the child table. */
    lemma EntryUnder(v: nat, level: int, slot: nat)
      requires Valid() && sl <= level < 3 && slot == Slot(v, level) && At(v, level) in tab
      ensures slot < 512 && tab[At(v, level)] < TOTAL_PAGES
      ensures var w := pages[tab[At(v, level)]][slot];
        if Stuck(pages, tab, v, level) then IsValid(w) && HasPermission(w)
        else if At(v, level + 1) in tab then IsValid(w) && !HasPermission(w) && Ppn(w) == off + tab[At(v, level + 1)]
        else w == 0
    {
      AtChild(v, level);
      assert WordOk(pages, tab, off, At(v, level), slot);
    }

    /** One turn of the way down, seen from where the way began. */
    method OneDown(table: nat, level: int, slot: nat, end: int, ghost v: nat, ghost c: Key, ghost need: set<Key>,
                   ghost p0: Words, ghost t0: Tables, ghost others: set<nat>, ghost bits0: seq<nat>)
      returns (next: nat)
      requires Valid() && sl <= level < end <= 3 && slot == Slot(v, level) && Came(p0, t0, pages, tab, v, level, end, table)
      requires c == At(v, level + 1) && c in need && Budget(need, tab, alloc.Taken())
      requires Others() == others && (!NotLarge(p0, t0, v) ==> alloc.bits[..] == bits0)
      modifies this`pages, this`tab, alloc.bits
      ensures Valid() && Came(p0, t0, pages, tab, v, level + 1, end, next) && Budget(need, tab, alloc.Taken())
      ensures Others() == others && (!NotLarge(p0, t0, v) ==> alloc.bits[..] == bits0)
    {
      ghost var pages0, tab0 := pages, tab;
      if NotLarge(p0, t0, v) {
        StillNotLarge(p0, t0, pages0, tab0, v);
      } else {
        StillLarge(p0, t0, pages0, tab0, v);
        LargePath(pages0, tab0, sl, root, v, level);
      }
      next := NextLevel(table, level, slot, v, At(v, level), c, need);
      if NotLarge(p0, t0, v) { GrownStep(p0, t0, pages0, tab0, pages, tab, c, end); }
    }

    /** The loop of `__pg_map` down to the table that holds the leaf, level 3 for 4 KB, level 2 for 2 MB; under a
        2 MB leaf it goes no further than level 2. */
    method WalkDown(vaddr: nat, end: int, ghost v: nat, ghost need: set<Key>) returns (table: nat)
      requires Valid() && sl <= end <= 3 && Resolves(vaddr / 4096, sl, v)
      requires Between(v, sl + 1, end, need) && Budget(need, tab, alloc.Taken())
      modifies this`pages, this`tab, alloc.bits
      ensures Valid() && Came(old(pages), old(tab), pages, tab, v, end, end, table)
      ensures Others() == old(Others()) && Budget(need, tab, alloc.Taken())
      ensures !NotLarge(old(pages), old(tab), v) ==> alloc.bits[..] == old(alloc.bits[..])
    {
      table := root;
      var level := sl;
      GrownSelf(old(pages), old(tab), end);
      assert Stands(tab, v, sl, table);
      while level < end
        invariant sl <= level <= end && Valid() && Came(old(pages), old(tab), pages, tab, v, level, end, table)
        invariant Others() == old(Others()) && Budget(need, tab, alloc.Taken())
        invariant !NotLarge(old(pages), old(tab), v) ==> alloc.bits[..] == old(alloc.bits[..])
      {
        assert At(v, level + 1) in need;
        assert Slot(v, level) == Slot(vaddr / 4096, level);
        table := OneDown(table, level, Slot(vaddr / 4096, level), end, v, At(v, level + 1), need,
                         old(pages), old(tab), old(Others()), old(alloc.bits[..]));
        level := level + 1;
      }
    }

    /** `pg_map_4k`. It maps the page exactly when no 2 MB leaf covers it; under one, it writes the leaf into the
        level-2 table, at the slot the page has at level 3. (A page that goes to the very frame already is left
        out of the equivalence.) */
    method Map4k(vaddr: nat, paddr: nat, a: Attr, ghost v: nat, ghost need: set<Key>)
      requires Valid() && Resolves(vaddr / 4096, sl, v) && (a.read || a.write || a.exec)
      requires Between(v, sl + 1, 3, need) && Budget(need, tab, alloc.Taken()) && paddr / 4096 < PPN_RANGE
      modifies this`pages, this`tab, alloc.bits
      ensures NotLarge(old(pages), old(tab), v) ==>
        && Valid() && Extends(old(tab), tab) && Others() == old(Others()) && Budget(need, tab, alloc.Taken())
        && Framed(old(pages), old(tab), pages, tab, v, 1, paddr / 4096, LeafFlags(a))
      ensures !NotLarge(old(pages), old(tab), v) ==>
        Misplaced(old(pages), old(tab), pages, v, LeafWord(paddr / 4096, a)) && tab == old(tab) && alloc.bits[..] == old(alloc.bits[..])
      ensures (var m := FrameOf(old(pages), old(tab), v); !m.Mapped? || m.frame != paddr / 4096) ==>
        (MapsOnly(old(pages), pages, off, root, sl, v, paddr / 4096) <==> NotLarge(old(pages), old(tab), v))
    {
      ghost var w := LeafWord(paddr / 4096, a);
      ghost var p0, t0 := pages, tab;
      var table := WalkDown(vaddr, 3, v, need);
      ghost var pages1, tab1 := pages, tab;
      LeafFields(paddr / 4096, a);
      assert Slot(vaddr / 4096, 3) == Slot(v, 3) < 512;
      WayDown(v);
      assert table < TOTAL_PAGES;
      pages := SetWord(pages, table, Slot(vaddr / 4096, 3), LeafWord(paddr / 4096, a));
      if NotLarge(p0, t0, v) {
        SmallTree(pages1, tab1, sl, root, off, v, w);
        FramedAfter(p0, t0, pages1, tab1, pages, tab, v, 1, paddr / 4096, LeafFlags(a));
        FramedMapsOnly(p0, t0, pages, tab, sl, root, off, v, paddr / 4096, LeafFlags(a));
      } else {
        ghost var m := FrameOf(p0, t0, v);
        if !m.Mapped? || m.frame != paddr / 4096 { MisplacedFails(p0, t0, pages, sl, root, off, v, paddr / 4096, a); }
      }
    }

    /** `pg_map_2MB`. It maps the 512 pages, and leaks a table page exactly when a 4 KB table hung where the leaf
        goes. */
    method Map2m(vaddr: nat, paddr: nat, a: Attr, ghost v: nat, ghost need: set<Key>)
      requires Valid() && Resolves(vaddr / 4096, sl, v) && (a.read || a.write || a.exec) && (forall k | k in need :: k.level <= 2)
      requires v % 512 == 0 && paddr / 4096 % 512 == 0 && paddr / 4096 < PPN_RANGE
      requires Between(v, sl + 1, 2, need) && Budget(need, tab, alloc.Taken())
      modifies this`pages, this`tab, alloc.bits
      ensures Valid() && Budget(need, tab, alloc.Taken()) && Extends(old(tab) - {At(v, 3)}, tab) && NewUpTo(old(tab), tab, 2)
      ensures Framed(old(pages), old(tab), pages, tab, v, 512, paddr / 4096, LeafFlags(a))
      ensures Others() == old(Others()) + if At(v, 3) in old(tab) then {old(tab)[At(v, 3)]} else {}
      ensures Others() == old(Others()) <==> At(v, 3) !in old(tab)
    {
      ghost var w, c := LeafWord(paddr / 4096, a), At(v, 3);
      ghost var p0, t0 := pages, tab;
      var table := WalkDown(vaddr, 2, v, need);
      ghost var pages1, tab1 := pages, tab;
      LeafFields(paddr / 4096, a);
      LargeTree(pages, tab, sl, root, off, v, w);
      assert Slot(vaddr / 4096, 2) == Slot(v, 2);
      pages := SetWord(pages, table, Slot(vaddr / 4096, 2), LeafWord(paddr / 4096, a));
      tab := tab - {At(v, 3)};
      FramedAfter(p0, t0, pages1, tab1, pages, tab, v, 512, paddr / 4096, LeafFlags(a));
      Dropped(t0, tab1, c, need, alloc.Taken(), old(alloc.Taken()));
    }

    /** `pg_map`: a range of 4 KB pages. lo is the page vaddr resolves to. */
    method MapRange(vaddr: nat, paddr: nat, size: nat, a: Attr, ghost lo: nat, ghost need: set<Key>)
      requires Valid() && (a.read || a.write || a.exec) && vaddr / 4096 >= lo && paddr / 4096 + PageCount(size) <= PPN_RANGE
      requires AllOpen(pages, tab, sl, vaddr / 4096 - lo, need, lo, PageCount(size)) && Budget(need, tab, alloc.Taken())
      modifies this`pages, this`tab, alloc.bits
      ensures Valid() && Extends(old(tab), tab) && Others() == old(Others())
      ensures Framed(old(pages), old(tab), pages, tab, lo, PageCount(size), paddr / 4096, LeafFlags(a))
      ensures size <= 0xFFFF_FFFF_FFFF_F000 ==> BeyondKept(old(pages), old(tab), pages, tab, lo, size)
      ensures size <= 0xFFFF_FFFF_FFFF_F000 && paddr % 4096 == 0 ==>
        forall va: nat | vaddr <= va < vaddr + size :: Goes(pages, tab, lo, vaddr, paddr, LeafFlags(a), va)
    {
      MapPages(vaddr, paddr, PageCount(size), a, lo, need);
      if size <= 0xFFFF_FFFF_FFFF_F000 {
        PagesHold(size);
        RangeBytes(old(pages), old(tab), pages, tab, lo, PageCount(size), vaddr, paddr, size, LeafFlags(a));
      }
    }

    /** The loop of `pg_map`. */
    method MapPages(vaddr: nat, paddr: nat, n: nat, a: Attr, ghost lo: nat, ghost need: set<Key>)
      requires Valid() && (a.read || a.write || a.exec) && vaddr / 4096 >= lo && paddr / 4096 + n <= PPN_RANGE
      requires AllOpen(pages, tab, sl, vaddr / 4096 - lo, need, lo, n) && Budget(need, tab, alloc.Taken())
      modifies this`pages, this`tab, alloc.bits
      ensures Valid() && Extends(old(tab), tab) && Others() == old(Others())
      ensures Framed(old(pages), old(tab), pages, tab, lo, n, paddr / 4096, LeafFlags(a))
    {
      var i: nat, va, pa := 0, vaddr, paddr;
      ghost var f, flags := paddr / 4096, LeafFlags(a);
      FramedNone(pages, tab, lo, f, flags);
      while i < n
        invariant 0 <= i <= n && va == vaddr + 4096 * i && pa == paddr + 4096 * i
        invariant Valid() && Extends(old(tab), tab) && Others() == old(Others()) && Budget(need, tab, alloc.Taken())
        invariant Framed(old(pages), old(tab), pages, tab, lo, i, f, flags)
      {
        ghost var pages0, tab0, u := pages, tab, lo + i;
        PageSteps(vaddr, va, i);
        PageSteps(paddr, pa, i);
        assert Open(old(pages), old(tab), sl, vaddr / 4096 - lo, need, u);
        assert Resolves(va / 4096, sl, u) by { assert va / 4096 == u + (vaddr / 4096 - lo); }
        StillNotLarge(old(pages), old(tab), pages, tab, u);
        Map4k(va, pa, a, u, need);
        ExtendsStep(old(tab), tab0, tab);
        FramedJoin(old(pages), old(tab), pages0, tab0, pages, tab, lo, i, u, 1, f, pa / 4096, flags);
        i, va, pa := i + 1, va + 4096, pa + 4096;
      }
    }

    /** `pg_map_huge`: a range of 2 MB leaves, both addresses and the size brought to 2 MB boundaries. Where no
        4 KB table hung, no table page is leaked. */
    method MapHuge(vaddr: nat, paddr: nat, size: nat, a: Attr, ghost lo: nat, ghost need: set<Key>)
      requires Valid() && (a.read || a.write || a.exec)
      requires lo % 512 == 0 && Down(vaddr) / 4096 >= lo && Down(paddr) / 4096 + 512 * HugeCount(size) <= PPN_RANGE
      requires AllOpenHuge(sl, Down(vaddr) / 4096 - lo, need, lo, 512 * HugeCount(size))
      requires (forall k | k in need :: k.level <= 2) && Budget(need, tab, alloc.Taken())
      modifies this`pages, this`tab, alloc.bits
      ensures Valid() && KeepsUpper(old(tab), tab) && old(Others()) <= Others()
      ensures NoSmall(old(tab), lo, 512 * HugeCount(size)) ==> Others() == old(Others())
      ensures Framed(old(pages), old(tab), pages, tab, lo, 512 * HugeCount(size), Down(paddr) / 4096, LeafFlags(a))
      ensures size <= 0xFFFF_FFFF_FFE0_0000 ==> BeyondKept(old(pages), old(tab), pages, tab, lo, size + 0x1F_FFFF)
      ensures size <= 0xFFFF_FFFF_FFE0_0000 && paddr % 0x20_0000 == 0 ==>
        forall va: nat | vaddr <= va < vaddr + size :: Goes(pages, tab, lo, vaddr, paddr, LeafFlags(a), va)
    {
      MapHugePages(vaddr, paddr, HugeCount(size), a, lo, need);
      if size <= 0xFFFF_FFFF_FFE0_0000 {
        HugePagesHold(size);
        DownExact(paddr);
        BytesHuge(old(pages), old(tab), pages, tab, lo, HugeCount(size), vaddr, Down(paddr), size, LeafFlags(a));
      }
    }

    /** The loop of `pg_map_huge`. */
    method MapHugePages(vaddr: nat, paddr: nat, n: nat, a: Attr, ghost lo: nat, ghost need: set<Key>)
      requires Valid() && (a.read || a.write || a.exec)
      requires lo % 512 == 0 && Down(vaddr) / 4096 >= lo && Down(paddr) / 4096 + 512 * n <= PPN_RANGE
      requires AllOpenHuge(sl, Down(vaddr) / 4096 - lo, need, lo, 512 * n)
      requires (forall k | k in need :: k.level <= 2) && Budget(need, tab, alloc.Taken())
      modifies this`pages, this`tab, alloc.bits
      ensures Valid() && KeepsUpper(old(tab), tab) && old(Others()) <= Others()
      ensures NoSmall(old(tab), lo, 512 * n) ==> Others() == old(Others())
      ensures Framed(old(pages), old(tab), pages, tab, lo, 512 * n, Down(paddr) / 4096, LeafFlags(a))
    {
      var i: nat, va, pa := 0, Down(vaddr), Down(paddr);
      ghost var va0, pa0, flags := va, pa, LeafFlags(a);
      ghost var f, j := pa / 4096, 0;
      FramedNone(pages, tab, lo, f, flags);
      while i < n
        invariant 0 <= i <= n && j == 512 * i && va == va0 + 4096 * j && pa == pa0 + 4096 * j
        invariant Valid() && KeepsUpper(old(tab), tab) && NewUpTo(old(tab), tab, 2) && Budget(need, tab, alloc.Taken())
        invariant old(Others()) <= Others() && (NoSmall(old(tab), lo, 512 * n) ==> Others() == old(Others()))
        invariant Framed(old(pages), old(tab), pages, tab, lo, j, f, flags)
      {
        ghost var pages0, tab0, u := pages, tab, lo + j;
        PageSteps(va0, va, j);
        PageSteps(pa0, pa, j);
        HugeSteps(lo, paddr, i, u, pa);
        assert OpenHuge(sl, va0 / 4096 - lo, need, u);
        assert Resolves(va / 4096, sl, u) by { assert va / 4096 == u + (va0 / 4096 - lo); }
        if NoSmall(old(tab), lo, 512 * n) { StillNoTable(old(tab), tab, At(u, 3), 2); }
        Map2m(va, pa, a, u, need);
        UpperStep(old(tab), tab0, tab, At(u, 3));
        NewUpToJoin(old(tab), tab0, tab, 2);
        FramedJoin(old(pages), old(tab), pages0, tab0, pages, tab, lo, j, u, 512, f, pa / 4096, flags);
        i, j, va, pa := i + 1, j + 512, va + 0x20_0000, pa + 0x20_0000;
      }
    }
  }

  /** Mapping a range with 4 KB leaves and then walking: addresses of the range come back at their frames plus
      offset, all others as before. */
  method MapThenWalk(g: GuestTables, vaddr: nat, paddr: nat, size: nat, a: Attr, satp: nat, va: nat, ghost lo: nat, ghost need: set<Key>)
    returns (pa: Opt)
    requires g.Valid() && (a.read || a.write || a.exec) && vaddr / 4096 >= lo && paddr / 4096 + PageCount(size) <= PPN_RANGE
    requires AllOpen(g.pages, g.tab, g.sl, vaddr / 4096 - lo, need, lo, PageCount(size)) && Budget(need, g.tab, g.alloc.Taken())
    requires g.sl <= 1 && Names(satp, g.sl, g.root, g.off)
    modifies g`pages, g`tab, g.alloc.bits
    ensures g.Valid()
    ensures var v := Seen(va / 4096, g.sl);
      pa == if lo <= v < lo + PageCount(size) then Some(4096 * (paddr / 4096 + (v - lo)) + va % 4096)
            else Translate(old(g.pages), g.off, satp, va)
  {
    hide Translate, Seen, Budget, AllOpen, Names, Framed, WordTree, LeafFlags;
    ghost var p0, t0 := g.pages, g.tab;
    g.MapRange(vaddr, paddr, size, a, lo, need);
    pa := GuestVaToPa(g.pages, g.off, satp, va);
    MappedReads(p0, t0, g.root, g.pages, g.tab, g.root, g.sl, g.off, satp, satp, lo, PageCount(size), paddr / 4096, LeafFlags(a), va);
  }

  /** The same with 2 MB leaves, for the rounded range; a fresh request of cnt pages at page v is honoured exactly
      when both addresses lie alike within 2 MB and the rounded size reaches its last page. */
  method MapHugeThenWalk(g: GuestTables, vaddr: nat, paddr: nat, size: nat, a: Attr, satp: nat, va: nat, ghost v: nat, ghost need: set<Key>)
    returns (pa: Opt)
    requires g.Valid() && (a.read || a.write || a.exec) && v % 512 == vaddr / 4096 % 512 && vaddr / 4096 >= v && 0 < size
    requires Down(paddr) / 4096 + 512 * HugeCount(size) <= PPN_RANGE
    requires AllOpenHuge(g.sl, vaddr / 4096 - v, need, v - v % 512, 512 * HugeCount(size))
    requires (forall k | k in need :: k.level <= 2) && Budget(need, g.tab, g.alloc.Taken())
    requires g.sl <= 1 && Names(satp, g.sl, g.root, g.off)
    modifies g`pages, g`tab, g.alloc.bits
    ensures g.Valid()
    ensures PageCount(size) > 0 && Unused(old(g.pages), old(g.tab), v, PageCount(size)) ==>
      (Honoured(g.pages, g.tab, v, PageCount(size), paddr / 4096, LeafFlags(a))
       <==> vaddr / 4096 % 512 == paddr / 4096 % 512 && vaddr / 4096 % 512 + PageCount(size) <= 512 * HugeCount(size))
    ensures var u, lo := Seen(va / 4096, g.sl), v - v % 512;
      pa == if lo <= u < lo + 512 * HugeCount(size) then Some(4096 * (Down(paddr) / 4096 + (u - lo)) + va % 4096)
            else Translate(old(g.pages), g.off, satp, va)
  {
    hide Honoured, Unused, Translate, Seen, Budget, AllOpenHuge, Names, Framed, WordTree, LeafFlags;
    ghost var p0, t0, lo, n := g.pages, g.tab, v - v % 512, 512 * HugeCount(size);
    DownPage(vaddr);
    DownPage(paddr);
    g.MapHuge(vaddr, paddr, size, a, lo, need);
    pa := GuestVaToPa(g.pages, g.off, satp, va);
    MappedReads(p0, t0, g.root, g.pages, g.tab, g.root, g.sl, g.off, satp, satp, lo, n, Down(paddr) / 4096, LeafFlags(a), va);
    if PageCount(size) > 0 && Unused(p0, t0, v, PageCount(size)) {
      HugeHonours(p0, t0, g.pages, g.tab, v, paddr / 4096, PageCount(size), n, LeafFlags(a));
    }
  }

  lemma DownPage(x: nat)
    ensures Down(x) / 4096 == x / 4096 - x / 4096 % 512
  {
    OffsetSplit(x);
    var q := x / 4096;
    assert x == 4096 * q + x % 4096;
    DivModUnique(Down(x), 4096, q - q % 512, 0);
  }

  // ----- a 4 KB mapping under a 2 MB leaf

  /** For the walker, page v goes to frame f and every other address where it went. */
  ghost predicate MapsOnly(p0: Words, p1: Words, off: nat, root: nat, sl: int, v: nat, f: nat)
    requires sl <= 4
  {
    forall va: nat :: WalkWords(p1, off, root, va, sl)
                   == if Seen(va / 4096, sl) == v then Some(4096 * f + va % 4096) else WalkWords(p0, off, root, va, sl)
  }

  /** The leaf went into the level-2 table. */
  predicate Misplaced(p0: Words, t0: Tables, p1: Words, v: nat, w: nat) {
    && At(v, 2) in t0 && t0[At(v, 2)] < |p0| && v % 512 < |p0[t0[At(v, 2)]]|
    && p1 == SetWord(p0, t0[At(v, 2)], v % 512, w)
  }

  lemma FramedMapsOnly(p0: Words, t0: Tables, p1: Words, t1: Tables, sl: int, root: nat, off: nat, v: nat, f: nat, flags: nat)
    requires WordTree(p0, t0, sl, root, off) && WordTree(p1, t1, sl, root, off) && Framed(p0, t0, p1, t1, v, 1, f, flags)
    ensures MapsOnly(p0, p1, off, root, sl, v, f)
  {
    forall va: nat ensures WalkWords(p1, off, root, va, sl)
                        == if Seen(va / 4096, sl) == v then Some(4096 * f + va % 4096) else WalkWords(p0, off, root, va, sl)
    {
      RootReads(p0, t0, sl, root, off, va);
      RootReads(p1, t1, sl, root, off, va);
    }
  }

  lemma RootReads(pages: Words, tab: Tables, sl: int, root: nat, off: nat, va: nat)
    requires WordTree(pages, tab, sl, root, off)
    ensures WalkWords(pages, off, root, va, sl) == Address(FrameOf(pages, tab, Seen(va / 4096, sl)), va)
  {
    var u := Seen(va / 4096, sl);
    SeenResolves(va / 4096, sl);
    assert At(u, sl) == Key(sl, 0);
    ReadBack(pages, tab, sl, root, off, va, u, sl);
  }

  lemma TopStep(p0: Words, t0: Tables, p1: Words, sl: int, root: nat, off: nat, va: nat, c: Key, i: nat, w: nat, k: Key, s: nat)
    requires WordTree(p0, t0, sl, root, off) && c in t0 && c.level == 2 && i < 512 && t0[c] < TOTAL_PAGES && p1 == SetWord(p0, t0[c], i, w)
    requires k in t0 && k.level < 2 && s < 512 && Slot(va / 4096, k.level) == s && Child(k, s) in t0
    ensures WalkWords(p1, off, t0[k], va, k.level) == WalkWords(p1, off, t0[Child(k, s)], va, k.level + 1)
  {
    assert WordOk(p0, t0, off, k, s) && Apart(t0, k, c) && p1[t0[k]] == p0[t0[k]];
    WalkPointer(p1, off, t0[k], va, k.level, s, p1[t0[k]][s], t0[Child(k, s)]);
  }

  /** Above level 2 the walk does not notice a write to the level-2 table. */
  lemma {:induction false} TopUnchanged(p0: Words, t0: Tables, p1: Words, sl: int, root: nat, off: nat,
                                         va: nat, v: nat, u: nat, i: nat, w: nat, level: int)
    requires WordTree(p0, t0, sl, root, off) && sl <= level <= 2 && At(v, 2) in t0 && i < 512 && t0[At(v, 2)] < TOTAL_PAGES
    requires p1 == SetWord(p0, t0[At(v, 2)], i, w) && Resolves(va / 4096, sl, u) && At(u, 2) == At(v, 2) && At(u, level) in t0
    ensures WalkWords(p1, off, t0[At(u, level)], va, level) == WalkWords(p1, off, t0[At(v, 2)], va, 2)
    decreases 2 - level
  {
    if level < 2 {
      assert Slot(va / 4096, level) == Slot(u, level);
      AtChild(u, level);
      AncestorIn(t0, sl, root, u, 2, level + 1);
      TopStep(p0, t0, p1, sl, root, off, va, At(v, 2), i, w, At(u, level), Slot(u, level));
      TopUnchanged(p0, t0, p1, sl, root, off, va, v, u, i, w, level + 1);
    }
  }

  lemma {:induction false} SamePrefix(u: nat, v: nat, level: int)
    requires u / 512 == v / 512 && level <= 3
    ensures Prefix(u, level) == Prefix(v, level)
    decreases 3 - level
  {
    if level < 3 { SamePrefix(u, v, level + 1); }
  }

  /** The walk for page u of the 2 MB the level-2 leaf i stands for. */
  lemma WalkOfPage(p0: Words, t0: Tables, sl: int, root: nat, off: nat, v: nat, u: nat, k: Key, i: nat)
    requires WordTree(p0, t0, sl, root, off) && InRange(v, sl) && u / 512 == v / 512 && k == Key(2, v / 512 / 512) && k in t0
    requires i == v / 512 % 512 && Child(k, i) !in t0 && p0[t0[k]][i] != 0
    ensures Seen(u, sl) == u && (4096 * u) / 4096 == u && Resolves(u, sl, u)
    ensures IsLeaf(p0[t0[k]][i]) && Ppn(p0[t0[k]][i]) % 512 == 0
    ensures FrameOf(p0, t0, u) == Mapped(Ppn(p0[t0[k]][i]) + u % 512, Flags(p0[t0[k]][i]))
    ensures WalkWords(p0, off, root, 4096 * u, sl) == Some(4096 * (Ppn(p0[t0[k]][i]) + u % 512))
  {
    assert WordOk(p0, t0, off, k, i);
    WayDown(u);
    WayDown(v);
    SamePrefix(u, v, sl);
    SeenExact(u, sl);
    SeenResolves(u, sl);
    PageStart(u);
    RootReads(p0, t0, sl, root, off, 4096 * u);
  }

  lemma PageStart(u: nat)
    ensures (4096 * u) / 4096 == u && (4096 * u) % 4096 == 0 && (4096 * u) % 0x20_0000 == 4096 * (u % 512)
  {
    OffsetSplit(4096 * u);
  }

  /** The same walk after word w was written to slot n of that table. */
  lemma WalkAfterWrite(p0: Words, t0: Tables, p1: Words, sl: int, root: nat, off: nat, v: nat, u: nat, k: Key, i: nat, n: nat, w: nat)
    requires WordTree(p0, t0, sl, root, off) && InRange(v, sl) && u / 512 == v / 512 && k == Key(2, v / 512 / 512) && k in t0
    requires i == v / 512 % 512 && Child(k, i) !in t0 && p0[t0[k]][i] != 0 && n < 512 && p1 == SetWord(p0, t0[k], n, w) && IsLeaf(w)
    ensures WalkWords(p1, off, root, 4096 * u, sl)
            == Some(if n == i then Or(4096 * Ppn(w), 4096 * (u % 512)) else 4096 * (Ppn(p0[t0[k]][i]) + u % 512))
  {
    var va, x := 4096 * u, p0[t0[k]][i];
    WalkOfPage(p0, t0, sl, root, off, v, u, k, i);
    WayDown(u);
    WayDown(v);
    PageStart(u);
    assert At(u, sl) == Key(sl, 0);
    TopUnchanged(p0, t0, p1, sl, root, off, va, v, u, n, w, sl);
    WalkStep(p1, off, t0[k], va, 2, i, if n == i then w else x);
    LeafSizes();
    LargeLeafOr(Ppn(x), u % 512);
  }

  /** A leaf of frame f over one of frames from P on: some page of the 512 does not go where it should. */
  lemma SomePageWrong(f: nat, P: nat, s: nat) returns (j: nat)
    requires P % 512 == 0 && s < 512 && f != P + s
    ensures j < 512
    ensures if j == s then Or(4096 * f, 4096 * s) != 4096 * f else Or(4096 * f, 4096 * j) != 4096 * (P + j)
  {
    hide Or;
    if s != 0 {
      OrZero(4096 * f);
      LargeLeafOr(P, s);
      j := if f != P then 0 else s;
    } else {
      OrShift(f, 1, 12);
      OrShift(f, 2, 12);
      OrOneTwo(f);
      assert Pow2(12) == 4096;
      j := if Or(4096 * f, 4096) != 4096 * (P + 1) then 1 else 2;
    }
  }

  lemma LargeLeafOr(P: nat, s: nat)
    requires P % 512 == 0 && s < 512
    ensures Or(4096 * P, 4096 * s) == 4096 * (P + s)
  {
    DivModUnique(4096 * s, 0x20_0000, 0, 4096 * s);
    LargeLeaf(P, 4096 * s);
  }

  lemma {:induction false} OrShift(x: nat, y: nat, n: nat)
    ensures Or(Pow2(n) * x, Pow2(n) * y) == Pow2(n) * Or(x, y)
    decreases n
  {
    hide Or;
    if n > 0 {
      OrShift(x, y, n - 1);
      OrShiftStep(Pow2(n - 1), Pow2(n), x, y);
    }
  }

  lemma OrShiftStep(q: nat, p: nat, x: nat, y: nat)
    requires p == 2 * q && Or(q * x, q * y) == q * Or(x, y)
    ensures Or(p * x, p * y) == p * Or(x, y)
  {
    hide Or;
    OrDouble(q * x, q * y);
    Doubles(q, p, x);
    Doubles(q, p, y);
    Doubles(q, p, Or(x, y));
  }

  lemma Doubles(q: nat, p: nat, x: nat)
    requires p == 2 * q
    ensures p * x == 2 * (q * x)
  {}

  lemma OrDouble(x: nat, y: nat)
    ensures Or(2 * x, 2 * y) == 2 * Or(x, y)
  {
    if x == 0 && y == 0 {
    } else {
      assert (2 * x) / 2 == x && (2 * y) / 2 == y && (2 * x) % 2 == 0 && (2 * y) % 2 == 0;
    }
  }

  lemma OrBit(x: nat, y: nat)
    requires x > 0 || y > 0
    ensures Or(x, y) == 2 * Or(x / 2, y / 2) + if x % 2 == 1 || y % 2 == 1 then 1 else 0
  {}

  lemma OrOneTwo(f: nat)
    ensures Or(f, 1) == f - f % 2 + 1 && Or(f, 2) == f - f % 4 + 2 + f % 2
  {
    OrBit(f, 1);
    OrBit(f, 2);
    OrBit(f / 2, 1);
    OrZero(f / 2);
    OrZero(f / 2 / 2);
  }

  /** Under a 2 MB leaf the misplaced leaf does not do what was asked for: either the page still goes where it
      went, or its neighbours do not. */
  lemma MisplacedFails(p0: Words, t0: Tables, p1: Words, sl: int, root: nat, off: nat, v: nat, f: nat, a: Attr)
    requires WordTree(p0, t0, sl, root, off) && InRange(v, sl) && !NotLarge(p0, t0, v) && f < PPN_RANGE && (a.read || a.write || a.exec)
    requires Misplaced(p0, t0, p1, v, LeafWord(f, a)) && (var m := FrameOf(p0, t0, v); !m.Mapped? || m.frame != f)
    ensures !MapsOnly(p0, p1, off, root, sl, v, f)
  {
    hide Or, LeafWord, WalkWords;
    WayDown(v);
    AtChild(v, 2);
    var k, i, s, w := At(v, 2), v / 512 % 512, v % 512, LeafWord(f, a);
    assert WordOk(p0, t0, off, k, i);
    LeafFields(f, a);
    var P := Ppn(p0[t0[k]][i]);
    var j := s;
    WalkOfPage(p0, t0, sl, root, off, v, v, k, i);
    if s == i { j := SomePageWrong(f, P, s); }
    var u := v - s + j;
    WalkOfPage(p0, t0, sl, root, off, v, u, k, i);
    WalkAfterWrite(p0, t0, p1, sl, root, off, v, u, k, i, s, w);
    assert Seen((4096 * u) / 4096, sl) == u;
  }

  // ----- ranges

  /** `x & ~(MB_2 - 1)`. */
  function Down(x: nat): nat { x - x % 0x20_0000 }

  /** The size rounded up to 2 MB, in 64-bit arithmetic. */
  function HugeCount(size: nat): nat { ((size + 0x1f_ffff) % 0x1_0000_0000_0000_0000) / 0x20_0000 }

  /** The next multiple of 2 MB below, or x itself. */
  lemma DownExact(x: nat)
    ensures Down(x) % 0x20_0000 == 0 && Down(x) <= x < Down(x) + 0x20_0000 && (x % 0x20_0000 == 0 ==> Down(x) == x)
    ensures Down(x) % 4096 == 0
  {
    var q := x / 0x20_0000;
    assert Down(x) == 0x20_0000 * q == 4096 * (512 * q);
    DivModUnique(Down(x), 0x20_0000, q, 0);
    DivModUnique(Down(x), 4096, 512 * q, 0);
  }

  /** The 2 MB pages hold the size, with less than one to spare; the largest sizes wrap to none. */
  lemma HugePagesHold(size: nat)
    requires size < 0x1_0000_0000_0000_0000
    ensures size <= 0xFFFF_FFFF_FFE0_0000 ==> size <= 0x20_0000 * HugeCount(size) < size + 0x20_0000
    ensures size > 0xFFFF_FFFF_FFE0_0000 ==> HugeCount(size) == 0
  {}

  lemma BytesHuge(p0: Words, t0: Tables, p1: Words, t1: Tables, lo: nat, n: nat, vaddr: nat, paddr: nat, size: nat, flags: nat)
    requires Framed(p0, t0, p1, t1, lo, 512 * n, paddr / 4096, flags) && size <= 0x20_0000 * n < size + 0x20_0000 && paddr % 4096 == 0
    ensures BeyondKept(p0, t0, p1, t1, lo, size + 0x1F_FFFF)
    ensures forall va: nat | vaddr <= va < vaddr + size :: Goes(p1, t1, lo, vaddr, paddr, flags, va)
  {
    BytesFramed(p0, t0, p1, t1, lo, 512 * n, vaddr, paddr, size, flags);
    assert 4096 * (512 * n) == 0x20_0000 * n <= size + 0x1F_FFFF;
  }

  /** Page u of a range can be mapped by a 4 KB leaf: the walk for it stays in the tables, meets no 2 MB leaf, and
      its tables are budgeted for. */
  ghost predicate Open(pages: Words, tab: Tables, sl: int, delta: nat, need: set<Key>, u: nat) {
    Resolves(u + delta, sl, u) && NotLarge(pages, tab, u) && Between(u, sl + 1, 3, need)
  }

  ghost predicate AllOpen(pages: Words, tab: Tables, sl: int, delta: nat, need: set<Key>, lo: nat, n: nat) {
    forall u: nat {:trigger Open(pages, tab, sl, delta, need, u)} | lo <= u < lo + n :: Open(pages, tab, sl, delta, need, u)
  }

  /** Page u of a range can be mapped by a 2 MB leaf: the walk for it stays in the tables and its tables are
      budgeted for. */
  ghost predicate OpenHuge(sl: int, delta: nat, need: set<Key>, u: nat) {
    Resolves(u + delta, sl, u) && Between(u, sl + 1, 2, need)
  }

  ghost predicate AllOpenHuge(sl: int, delta: nat, need: set<Key>, lo: nat, n: nat) {
    forall u: nat {:trigger OpenHuge(sl, delta, need, u)} | lo <= u < lo + n :: OpenHuge(sl, delta, need, u)
  }

  /** No 4 KB table for any page of a range. */
  ghost predicate NoSmall(tab: Tables, lo: nat, n: nat) {
    forall u: nat {:trigger At(u, 3)} | lo <= u < lo + n :: At(u, 3) !in tab
  }

  /** Every table above the last level stays where it is. */
  ghost predicate KeepsUpper(t0: Tables, t1: Tables) {
    forall k {:trigger t0[k]} | k in t0 && k.level < 3 :: k in t1 && t1[k] == t0[k]
  }

  lemma UpperStep(t0: Tables, t1: Tables, t2: Tables, c: Key)
    requires KeepsUpper(t0, t1) && Extends(t1 - {c}, t2) && c.level == 3
    ensures KeepsUpper(t0, t2)
  {
    forall k | k in t0 && k.level < 3 ensures k in t2 && t2[k] == t0[k] { assert t1[k] == t0[k] && (t1 - {c})[k] == t1[k]; }
  }

  lemma PageSteps(start: nat, addr: nat, i: nat)
    requires addr == start + 4096 * i
    ensures addr / 4096 == start / 4096 + i
  {}

  lemma HugeSteps(lo: nat, paddr: nat, i: nat, u: nat, pa: nat)
    requires lo % 512 == 0 && u == lo + 512 * i && pa == Down(paddr) + 4096 * (512 * i)
    ensures u % 512 == 0 && pa / 4096 % 512 == 0
  {
    DivModUnique(u, 512, lo / 512 + i, 0);
    var q := paddr / 0x20_0000 + i;
    assert pa == 4096 * (512 * q);
    DivModUnique(pa, 4096, 512 * q, 0);
    DivModUnique(512 * q, 512, q, 0);
  }

  /** Pages v .. v+cnt-1 go to the frames from f on. */
  ghost predicate Honoured(pages: Words, tab: Tables, v: nat, cnt: nat, f: nat, flags: nat) {
    forall u: nat {:trigger FrameOf(pages, tab, u)} | v <= u < v + cnt :: FrameOf(pages, tab, u) == Mapped(f + (u - v), flags)
  }

  ghost predicate Unused(pages: Words, tab: Tables, v: nat, cnt: nat) {
    forall u: nat {:trigger FrameOf(pages, tab, u)} | v <= u < v + cnt :: FrameOf(pages, tab, u) == Unmapped
  }

  /** With n pages mapped from the 2 MB boundaries below both addresses, a fresh request is honoured exactly when
      both addresses lie alike within 2 MB and the mapped pages reach its last one. */
  lemma HugeHonours(p0: Words, t0: Tables, p1: Words, t1: Tables, v: nat, f: nat, cnt: nat, n: nat, flags: nat)
    requires cnt > 0 && Unused(p0, t0, v, cnt) && Framed(p0, t0, p1, t1, v - v % 512, n, f - f % 512, flags)
    ensures Honoured(p1, t1, v, cnt, f, flags) <==> v % 512 == f % 512 && v % 512 + cnt <= n
  {
    var last := v + cnt - 1;
    assert FrameOf(p0, t0, v) == Unmapped && FrameOf(p0, t0, last) == Unmapped;
    if Honoured(p1, t1, v, cnt, f, flags) {
      assert FrameOf(p1, t1, v) == Mapped(f, flags) && FrameOf(p1, t1, last) == Mapped(f + (last - v), flags);
    }
  }

  // ----- what the walker sees

  /** `guest_va_to_pa` as a function: mode 0 translates nothing, 8 is Sv39 and 9 is Sv48. */
  function Translate(pages: Words, off: nat, satp: nat, va: nat): Opt {
    var mode, ppn := satp / 0x1000_0000_0000_0000, satp % PPN_RANGE;
    if mode == 0 then Some(va)
    else if mode != 8 && mode != 9 then None
    else if ppn < off then None
    else WalkWords(pages, off, ppn - off, va, 9 - mode)
  }

  /** `guest_va_to_pa`. A table outside the modelled pages reads as unmapped. */
  method GuestVaToPa(pages: Words, off: nat, satp: nat, va: nat) returns (pa: Opt)
    ensures pa == Translate(pages, off, satp, va)
  {
    var mode := satp / 0x1000_0000_0000_0000;
    if mode == 0 { return Some(va); }
    var level;
    if mode == 8 { level := 1; } else if mode == 9 { level := 0; } else { return None; }
    var frame := satp % PPN_RANGE;
    while level <= 3
      invariant 0 <= level <= 4
      invariant Translate(pages, off, satp, va) == if frame < off then None else WalkWords(pages, off, frame - off, va, level)
    {
      var idx := Slot(va / 4096, level);
      if frame < off || frame - off >= |pages| || idx >= |pages[frame - off]| { return None; }
      var pte := pages[frame - off][idx];
      if !IsValid(pte) || (Writes(pte) && !Reads(pte)) { return None; }
      if Reads(pte) || Executes(pte) {
        return Some(Or(4096 * Ppn(pte), va % PageSize(level)));
      }
      frame := Ppn(pte);
      level := level + 1;
    }
    return None;
  }

  /** satp names this tree: its root frame, and the mode that starts at its level. */
  predicate Names(satp: nat, sl: int, root: nat, off: nat) {
    satp % PPN_RANGE == off + root && satp / 0x1000_0000_0000_0000 == 9 - sl
  }

  /** Mode in bits 63:60, any ASID in bits 59:44, the root's frame below: 8 starts at level 1 and 9 at level 0. */
  lemma SatpNames(asid: nat, sl: int, root: nat, off: nat)
    requires asid < 0x1_0000 && 0 <= sl <= 1 && off + root < PPN_RANGE
    ensures Names(0x1000_0000_0000_0000 * (if sl == 0 then 9 else 8) + 0x1000_0000_0000 * asid + off + root, sl, root, off)
  {
    var low := 0x1000_0000_0000 * asid + off + root;
    var satp := 0x1000_0000_0000_0000 * (9 - sl) + low;
    DivModUnique(satp, 0x1000_0000_0000_0000, 9 - sl, low);
    DivModUnique(satp, PPN_RANGE, 0x1_0000 * (9 - sl) + asid, off + root);
  }

  /** For every address, canonical or not, the guest's walk gives what the tables say. */
  lemma TranslateExact(pages: Words, tab: Tables, sl: int, root: nat, off: nat, satp: nat, va: nat)
    requires WordTree(pages, tab, sl, root, off) && sl <= 1 && Names(satp, sl, root, off)
    ensures Translate(pages, off, satp, va) == Address(FrameOf(pages, tab, Seen(va / 4096, sl)), va)
  {
    var v := Seen(va / 4096, sl);
    SeenResolves(va / 4096, sl);
    assert At(v, sl) == Key(sl, 0);
    ReadBack(pages, tab, sl, root, off, va, v, sl);
  }

  /** A freshly mapped range reads back at its frames, everything else as before. */
  lemma MappedReads(p0: Words, t0: Tables, r0: nat, p1: Words, t1: Tables, r1: nat, sl: int, off: nat, s0: nat, s1: nat,
                    lo: nat, n: nat, f: nat, flags: nat, va: nat)
    requires WordTree(p0, t0, sl, r0, off) && WordTree(p1, t1, sl, r1, off) && sl <= 1 && Framed(p0, t0, p1, t1, lo, n, f, flags)
    requires Names(s0, sl, r0, off) && Names(s1, sl, r1, off)
    ensures var v := Seen(va / 4096, sl);
      Translate(p1, off, s1, va) == if lo <= v < lo + n then Some(4096 * (f + (v - lo)) + va % 4096) else Translate(p0, off, s0, va)
  {
    TranslateExact(p0, t0, sl, r0, off, s0, va);
    TranslateExact(p1, t1, sl, r1, off, s1, va);
  }

  /** Mapped by 4 KB or by 2 MB leaves, a range looks the same: same address and same permissions everywhere. */
  lemma HugeLikeSmall(p0: Words, t0: Tables, p1: Words, t1: Tables, r1: nat, p2: Words, t2: Tables, r2: nat, sl: int, off: nat,
                      s1: nat, s2: nat, lo: nat, n: nat, f: nat, flags: nat, va: nat)
    requires WordTree(p1, t1, sl, r1, off) && WordTree(p2, t2, sl, r2, off) && sl <= 1
    requires Framed(p0, t0, p1, t1, lo, n, f, flags) && Framed(p0, t0, p2, t2, lo, n, f, flags)
    requires Names(s1, sl, r1, off) && Names(s2, sl, r2, off)
    ensures Translate(p1, off, s1, va) == Translate(p2, off, s2, va)
    ensures FrameOf(p1, t1, Seen(va / 4096, sl)) == FrameOf(p2, t2, Seen(va / 4096, sl))
  {
    TranslateExact(p1, t1, sl, r1, off, s1, va);
    TranslateExact(p2, t2, sl, r2, off, s2, va);
  }

  /** Nothing above the last level came between: no 2 MB leaf appears where no page is mapped. */
  lemma StillNotLarge(p0: Words, t0: Tables, p1: Words, t1: Tables, v: nat)
    requires NotLarge(p0, t0, v) && Extends(t0, t1) && FrameOf(p1, t1, v) == FrameOf(p0, t0, v)
    ensures NotLarge(p1, t1, v)
  {
    assert At(v, 3) == Key(3, v / 512) && At(v, 2) == Key(2, v / 512 / 512) && Slot(v, 2) == v / 512 % 512;
    if At(v, 3) in t0 {
      assert t1[At(v, 3)] == t0[At(v, 3)];
    } else {
      assert FrameOf(p0, t0, v) == Unmapped;
    }
  }

  /** New tables are no deeper than `end`. */
  ghost predicate NewUpTo(t0: Tables, t1: Tables, end: int) {
    forall k {:trigger k in t1} | k in t1 && k !in t0 :: k.level <= end
  }

  /** The walk for page v has reached this table. */
  ghost predicate Stands(tab: Tables, v: nat, level: int, table: nat) {
    At(v, level) in tab && tab[At(v, level)] == table
  }

  /** Tables were added, none deeper than `end`, and no page goes elsewhere. */
  ghost predicate Grown(p0: Words, t0: Tables, p1: Words, t1: Tables, end: int) {
    Extends(t0, t1) && NewUpTo(t0, t1, end) && SameFrames(p0, t0, p1, t1)
  }

  lemma GrownStep(p0: Words, t0: Tables, p1: Words, t1: Tables, p2: Words, t2: Tables, c: Key, end: int)
    requires Grown(p0, t0, p1, t1, end) && Extends(t1, t2) && t2.Keys == t1.Keys + {c} && c.level <= end && SameFrames(p1, t1, p2, t2)
    ensures Grown(p0, t0, p2, t2, end)
  {
    ExtendsStep(t0, t1, t2);
    NewUpToStep(t0, t1, t2, c, end);
    SameFramesStep(p0, t0, p1, t1, p2, t2);
  }

  lemma GrownSelf(p: Words, t: Tables, end: int)
    ensures Grown(p, t, p, t, end)
  {}

  lemma NewUpToJoin(t0: Tables, t1: Tables, t2: Tables, end: int)
    requires NewUpTo(t0, t1, end) && NewUpTo(t1, t2, end)
    ensures NewUpTo(t0, t2, end)
  {}

  /** Dropping a last-level table from the tree leaves its page taken. */
  lemma Dropped(t0: Tables, t1: Tables, c: Key, need: set<Key>, taken: set<nat>, taken0: set<nat>)
    requires (forall k | k in need :: k.level <= 2) && c.level == 3 && Extends(t0, t1) && NewUpTo(t0, t1, 2) && Budget(need, t1, taken)
    requires taken - t1.Values == taken0 - t0.Values && t1.Values <= taken && t0.Values <= taken0
    requires forall x {:trigger Apart(t1, x, c)} :: Apart(t1, x, c)
    ensures Budget(need, t1 - {c}, taken) && Extends(t0 - {c}, t1 - {c}) && NewUpTo(t0, t1 - {c}, 2) && (t1 - {c}).Values <= taken
    ensures taken - (t1 - {c}).Values == taken0 - t0.Values + if c in t0 then {t0[c]} else {}
    ensures c in t0 ==> t0[c] !in taken0 - t0.Values
  {
    assert Missing(need, t1 - {c}) == Missing(need, t1);
    assert c in t1 ==> c in t0;
    if c in t0 {
      assert t0[c] in t0.Values && t1[c] in t1.Values;
      forall x | x in t1.Values ensures x in (t1 - {c}).Values || x == t1[c] {
        var k :| k in t1 && t1[k] == x;
        if k != c { assert (t1 - {c})[k] == x; }
      }
      forall k | k in t1 - {c} ensures (t1 - {c})[k] != t1[c] { assert Apart(t1, k, c); }
    } else {
      assert t1 - {c} == t1;
    }
  }

  lemma StillNoTable(t0: Tables, t1: Tables, k: Key, end: int)
    requires NewUpTo(t0, t1, end) && k !in t0 && k.level > end
    ensures k !in t1
  {}

  lemma NewUpToStep(t0: Tables, t1: Tables, t2: Tables, c: Key, end: int)
    requires NewUpTo(t0, t1, end) && t2.Keys == t1.Keys + {c} && c.level <= end
    ensures NewUpTo(t0, t2, end)
  {
    forall k | k in t2 && k !in t0 ensures k.level <= end {
      assert k in t2.Keys;
    }
  }

  /** The tables on a page's path from level lo to level hi are among those of `need`. */
  ghost predicate Between(v: nat, lo: int, hi: int, need: set<Key>) {
    forall l {:trigger At(v, l)} | lo <= l <= hi :: At(v, l) in need
  }
}
