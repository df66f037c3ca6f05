/** Stage-2 translation tables as a value: the entries, the tree of table pages they form, and the
    page-to-entry translation the tree stands for. */
module Stage2Tree {
  import opened PageAlloc

  /** One 64-bit descriptor; the bit-field views of the union share these fields. */
  datatype Entry = Entry(valid: bool, table: bool, mattr: nat, read: bool, write: bool, sh: nat, af: bool,
                         base: nat, xn: bool, kind: nat)

  const ZERO := Entry(false, false, 0, false, false, 0, false, 0, false, 0)

  const MEM_NORMAL_RW: int := 0
  const MEM_DEVICE_NC: int := 1
  const MEM_DEVICE: int := 2
  const MEM_ACCESS_RWX: int := 0
  const MEM_ACCESS_RW: int := 1
  const MEM_ACCESS_NONE: int := 2

  /** MemAttr[3:0] and SH of a memory type. */
  function TypeAttr(attr: int): nat { if attr == MEM_DEVICE_NC then 5 else if attr == MEM_DEVICE then 1 else 15 }
  function TypeShare(attr: int): nat { if attr == MEM_DEVICE_NC || attr == MEM_DEVICE then 2 else 3 }

  /** `make_stage2_entry`: memory type and access narrow a permissive seed entry. */
  function MakeStage2Entry(pa: nat, attr: int, acc: int): Entry {
    Entry(true, true, TypeAttr(attr), true, true, TypeShare(attr), acc != MEM_ACCESS_NONE,
          (pa / 4096) % 0x10_0000_0000, acc == MEM_ACCESS_RW, attr % 16)
  }

  /** Every field of the entry, as the architecture reads it: memory attributes and shareability by memory type
      (0 normal, 1 non-cacheable, 2 device), the access flag off for no access, execute-never for data. */
  lemma EntryFields(pa: nat, attr: int, acc: int)
    ensures var e := MakeStage2Entry(pa, attr, acc);
      && e.valid && e.table && e.read && e.write && e.base == pa / 4096 % 0x10_0000_0000
      && (attr == 1 ==> e.mattr == 5 && e.sh == 2) && (attr == 2 ==> e.mattr == 1 && e.sh == 2)
      && (attr != 1 && attr != 2 ==> e.mattr == 15 && e.sh == 3)
      && (e.af <==> acc != 2) && (e.xn <==> acc == 1) && (0 <= attr < 16 ==> e.kind == attr)
  {}

  /** `pte_is_valid`. */
  predicate IsSet(e: Entry) {
    e.valid && e.base != 0
  }

  // ----- addresses

  /** Bits of a page number above those a table of this level resolves (9 per level, levels up to 3). */
  function Prefix(vpn: nat, level: int): nat
    decreases 4 - level
  {
    if level >= 4 then vpn else Prefix(vpn, level + 1) / 512
  }

  /** `pte_offset` of the page's address. */
  function Slot(vpn: nat, level: int): nat {
    Prefix(vpn, level + 1) % 512
  }

  /** Page numbers a tree whose root is of level `sl` tells apart. */
  predicate InRange(vpn: nat, sl: int) {
    Prefix(vpn, sl) == 0
  }

  // ----- the tree

  /** A table page is named by its level and the page-number prefix it translates. */
  datatype Key = Key(level: int, prefix: nat)

  function Child(k: Key, i: nat): Key { Key(k.level + 1, k.prefix * 512 + i) }
  function Parent(k: Key): Key { Key(k.level - 1, k.prefix / 512) }
  function At(vpn: nat, level: int): Key { Key(level, Prefix(vpn, level)) }

  type Pages = seq<seq<Entry>>
  type Tables = map<Key, nat>

  ghost predicate Sized(pages: Pages) {
    |pages| == TOTAL_PAGES && forall p | 0 <= p < TOTAL_PAGES :: |pages[p]| == 512
  }

  /** Two tables do not share a page. */
  predicate Apart(tab: Tables, j: Key, k: Key) {
    j in tab && k in tab && tab[j] == tab[k] ==> j == k
  }

  /** Which tables there are: one root, every other table under its parent, no page used twice. */
  ghost predicate Shaped(tab: Tables, sl: int, root: nat) {
    && 0 <= sl <= 3 && Key(sl, 0) in tab && tab[Key(sl, 0)] == root
    && (forall k | k in tab :: sl <= k.level <= 3 && tab[k] < TOTAL_PAGES && (k.level == sl ==> k.prefix == 0))
    && (forall k {:trigger Parent(k)} | k in tab && k.level > sl :: Parent(k) in tab)
    && (forall j, k {:trigger Apart(tab, j, k)} :: Apart(tab, j, k))
  }

  /** Entry i of table k: a pointer to the child table when there is one, all zero otherwise; at the last
      level, a mapping or all zero. */
  ghost predicate EntryOk(pages: Pages, tab: Tables, off: nat, k: Key, i: nat)
    requires Sized(pages) && k in tab && tab[k] < TOTAL_PAGES && i < 512
  {
    var e := pages[tab[k]][i];
    if k.level == 3 then e.valid || e == ZERO
    else if Child(k, i) in tab then e.valid && e.table && e.base == off + tab[Child(k, i)]
    else e == ZERO
  }

  ghost predicate Tree(pages: Pages, tab: Tables, sl: int, root: nat, off: nat) {
    && Sized(pages) && Shaped(tab, sl, root) && off > 0
    && (forall k, i: nat {:trigger EntryOk(pages, tab, off, k, i)} | k in tab && i < 512 :: EntryOk(pages, tab, off, k, i))
  }

  ghost predicate HasValid(page: seq<Entry>) {
    exists i | 0 <= i < |page| :: page[i].valid
  }

  /** Every table but the root and those in `open` has a valid entry. */
  ghost predicate Pruned(pages: Pages, tab: Tables, sl: int, open: set<Key>)
    requires Sized(pages)
  {
    forall k {:trigger tab[k]} | k in tab && k.level > sl && k !in open && tab[k] < TOTAL_PAGES :: HasValid(pages[tab[k]])
  }

  /** The last-level entry of a page number. */
  function Trans(pages: Pages, tab: Tables, vpn: nat): Entry {
    var k := Key(3, vpn / 512);
    if k in tab && tab[k] < |pages| && vpn % 512 < |pages[tab[k]]| then pages[tab[k]][vpn % 512] else ZERO
  }

  // ----- arithmetic of keys

  lemma ChildParent(k: Key, i: nat)
    requires i < 512
    ensures Parent(Child(k, i)) == k && Child(k, i).prefix % 512 == i
  {}

  lemma AtChild(vpn: nat, level: int)
    requires 0 <= level <= 3
    ensures At(vpn, level + 1) == Child(At(vpn, level), Slot(vpn, level)) && Slot(vpn, level) < 512
    ensures Parent(At(vpn, level + 1)) == At(vpn, level)
  {}

  lemma ChildInjective(j: Key, a: nat, k: Key, b: nat)
    requires a < 512 && b < 512 && Child(j, a) == Child(k, b)
    ensures j == k && a == b
  {
    ChildParent(j, a);
    ChildParent(k, b);
  }

  // ----- steps

  function SetEntry(pages: Pages, p: nat, i: nat, e: Entry): Pages
    requires p < |pages| && i < |pages[p]|
  {
    pages[p := pages[p][i := e]]
  }

  function ZeroPage(): seq<Entry> { seq(512, _ => ZERO) }

  /** A new table page p under entry i of table k. */
  ghost predicate CanAdd(pages: Pages, tab: Tables, sl: int, root: nat, off: nat, k: Key, i: nat, p: nat) {
    && Tree(pages, tab, sl, root, off) && k in tab && k.level < 3 && i < 512 && Child(k, i) !in tab
    && p < TOTAL_PAGES && p !in tab.Values
  }

  function Added(pages: Pages, tab: Tables, k: Key, i: nat, p: nat, e: Entry): Pages
    requires k in tab && p < |pages| && tab[k] < |pages| && tab[k] != p && i < |pages[tab[k]]|
  {
    SetEntry(pages[p := ZeroPage()], tab[k], i, e)
  }

  lemma AddShaped(tab: Tables, sl: int, root: nat, k: Key, i: nat, p: nat)
    requires Shaped(tab, sl, root) && k in tab && k.level < 3 && i < 512 && Child(k, i) !in tab
    requires p < TOTAL_PAGES && p !in tab.Values
    ensures tab[k] != p && tab[k] < TOTAL_PAGES && Shaped(tab[Child(k, i) := p], sl, root)
  {
    var c := Child(k, i);
    ChildParent(k, i);
    var tab' := tab[c := p];
    assert tab[k] in tab.Values;
    forall j | j in tab' && j.level > sl ensures Parent(j) in tab' {
      if j != c { assert Parent(j) in tab; }
    }
    forall j, l ensures Apart(tab', j, l) {
      assert Apart(tab, j, l) && (j in tab ==> tab[j] in tab.Values) && (l in tab ==> tab[l] in tab.Values);
    }
  }

  lemma AddTree(pages: Pages, tab: Tables, sl: int, root: nat, off: nat, k: Key, i: nat, p: nat, e: Entry)
    requires CanAdd(pages, tab, sl, root, off, k, i, p) && e.valid && e.table && e.base == off + p
    ensures tab[k] != p && tab[k] < TOTAL_PAGES
    ensures Tree(Added(pages, tab, k, i, p, e), tab[Child(k, i) := p], sl, root, off)
  {
    AddShaped(tab, sl, root, k, i, p);
    var pages', tab' := Added(pages, tab, k, i, p, e), tab[Child(k, i) := p];
    forall j, a: nat | j in tab' && a < 512 ensures EntryOk(pages', tab', off, j, a) {
      if j == Child(k, i) {
        // no table hangs below the new one yet
        ChildParent(j, a);
        assert Child(j, a) in tab ==> Parent(Child(j, a)) in tab;
      } else {
        assert EntryOk(pages, tab, off, j, a);
        assert tab[j] in tab.Values && Apart(tab, j, k);
        if Child(j, a) == Child(k, i) { ChildInjective(j, a, k, i); }
      }
    }
  }

  lemma AddKeeps(pages: Pages, tab: Tables, sl: int, root: nat, off: nat, k: Key, i: nat, p: nat, e: Entry, open: set<Key>)
    requires CanAdd(pages, tab, sl, root, off, k, i, p) && e.valid && Pruned(pages, tab, sl, open)
    ensures tab[k] != p && tab[k] < TOTAL_PAGES
    ensures var pages', tab' := Added(pages, tab, k, i, p, e), tab[Child(k, i) := p];
      && Sized(pages') && Pruned(pages', tab', sl, open - {k} + {Child(k, i)})
      && forall v: nat :: Trans(pages', tab', v) == Trans(pages, tab, v)
  {
    AddShaped(tab, sl, root, k, i, p);
    var pages', tab', c := Added(pages, tab, k, i, p, e), tab[Child(k, i) := p], Child(k, i);
    forall j | j in tab' && j.level > sl && j !in open - {k} + {c} && tab'[j] < TOTAL_PAGES ensures HasValid(pages'[tab'[j]]) {
      assert j in tab && tab[j] in tab.Values && Apart(tab, j, k);
      if j == k {
        assert pages'[tab'[k]][i].valid;
      } else {
        assert pages'[tab'[j]] == pages[tab[j]];
      }
    }
    forall v: nat ensures Trans(pages', tab', v) == Trans(pages, tab, v) {
      var l := Key(3, v / 512);
      if l in tab { assert tab[l] in tab.Values && Apart(tab, l, k); }
    }
  }

  /** Writing last-level entry i of table k. */
  lemma LeafTree(pages: Pages, tab: Tables, sl: int, root: nat, off: nat, k: Key, i: nat, e: Entry)
    requires Tree(pages, tab, sl, root, off) && k in tab && k.level == 3 && i < 512 && (e.valid || e == ZERO)
    ensures tab[k] < TOTAL_PAGES && Tree(SetEntry(pages, tab[k], i, e), tab, sl, root, off)
  {
    var pages' := SetEntry(pages, tab[k], i, e);
    forall j, a: nat | j in tab && a < 512 ensures EntryOk(pages', tab, off, j, a) {
      assert EntryOk(pages, tab, off, j, a) && Apart(tab, j, k);
    }
  }

  lemma LeafKeeps(pages: Pages, tab: Tables, sl: int, root: nat, off: nat, k: Key, i: nat, e: Entry, open: set<Key>)
    requires Tree(pages, tab, sl, root, off) && k in tab && k.level == 3 && i < 512 && Pruned(pages, tab, sl, open)
    ensures tab[k] < TOTAL_PAGES && Sized(SetEntry(pages, tab[k], i, e))
    ensures var pages' := SetEntry(pages, tab[k], i, e);
      && Pruned(pages', tab, sl, if e.valid then open - {k} else open + {k})
      && forall v: nat :: Trans(pages', tab, v) == if v == k.prefix * 512 + i then e else Trans(pages, tab, v)
  {
    var pages' := SetEntry(pages, tab[k], i, e);
    forall j | j in tab && j.level > sl && j !in (if e.valid then open - {k} else open + {k}) && tab[j] < TOTAL_PAGES
      ensures HasValid(pages'[tab[j]])
    {
      assert Apart(tab, j, k);
      if j == k { assert pages'[tab[k]][i].valid; } else { assert pages'[tab[j]] == pages[tab[j]]; }
    }
    forall v: nat ensures Trans(pages', tab, v) == if v == k.prefix * 512 + i then e else Trans(pages, tab, v) {
      assert Apart(tab, Key(3, v / 512), k);
    }
  }

  /** Unhooking the empty child table under entry i of table k. */
  lemma DropShaped(pages: Pages, tab: Tables, sl: int, root: nat, off: nat, k: Key, i: nat)
    requires Tree(pages, tab, sl, root, off) && k in tab && k.level < 3 && i < 512 && Child(k, i) in tab
    requires tab[Child(k, i)] < TOTAL_PAGES && !HasValid(pages[tab[Child(k, i)]])
    ensures Shaped(tab - {Child(k, i)}, sl, root)
    ensures forall j | j in tab && j.level > sl :: Parent(j) != Child(k, i)
  {
    var c := Child(k, i);
    forall j | j in tab && j.level > sl ensures Parent(j) != c {
      var i := j.prefix % 512;
      assert Child(Parent(j), i) == j;
      assert EntryOk(pages, tab, off, c, i);
    }
    forall j | j in tab - {c} && j.level > sl ensures Parent(j) in tab - {c} { assert Parent(j) in tab; }
    forall j, l ensures Apart(tab - {c}, j, l) { assert Apart(tab, j, l); }
  }

  lemma DropTree(pages: Pages, tab: Tables, sl: int, root: nat, off: nat, k: Key, i: nat)
    requires Tree(pages, tab, sl, root, off) && k in tab && k.level < 3 && i < 512 && Child(k, i) in tab
    requires tab[Child(k, i)] < TOTAL_PAGES && !HasValid(pages[tab[Child(k, i)]])
    ensures tab[k] < TOTAL_PAGES && Tree(SetEntry(pages, tab[k], i, ZERO), tab - {Child(k, i)}, sl, root, off)
  {
    DropShaped(pages, tab, sl, root, off, k, i);
    var pages', tab' := SetEntry(pages, tab[k], i, ZERO), tab - {Child(k, i)};
    forall j, a: nat | j in tab' && a < 512 ensures EntryOk(pages', tab', off, j, a) {
      assert EntryOk(pages, tab, off, j, a) && Apart(tab, j, k);
      if Child(j, a) == Child(k, i) { ChildInjective(j, a, k, i); }
    }
  }

  lemma DropKeeps(pages: Pages, tab: Tables, sl: int, root: nat, off: nat, k: Key, i: nat, open: set<Key>)
    requires Tree(pages, tab, sl, root, off) && k in tab && k.level < 3 && i < 512 && Child(k, i) in tab
    requires tab[Child(k, i)] < TOTAL_PAGES && !HasValid(pages[tab[Child(k, i)]]) && Pruned(pages, tab, sl, open)
    ensures tab[k] < TOTAL_PAGES && Sized(SetEntry(pages, tab[k], i, ZERO))
    ensures var pages', tab' := SetEntry(pages, tab[k], i, ZERO), tab - {Child(k, i)};
      && Pruned(pages', tab', sl, open - {Child(k, i)} + {k})
      && forall v: nat :: Trans(pages', tab', v) == Trans(pages, tab, v)
  {
    var pages', tab', c := SetEntry(pages, tab[k], i, ZERO), tab - {Child(k, i)}, Child(k, i);
    forall j | j in tab' && j.level > sl && j !in open - {c} + {k} && tab'[j] < TOTAL_PAGES ensures HasValid(pages'[tab'[j]]) {
      assert Apart(tab, j, k) && pages'[tab'[j]] == pages[tab[j]];
    }
    forall v: nat ensures Trans(pages', tab', v) == Trans(pages, tab, v) {
      assert Apart(tab, Key(3, v / 512), k);
      if Key(3, v / 512) == c {
        assert EntryOk(pages, tab, off, c, v % 512);
        assert !pages[tab[c]][v % 512].valid;
      }
    }
  }

  // ----- paths

  /** A table on a page's path below the root, for the levels from `level` on. */
  function Path(vpn: nat, level: int): set<Key>
    decreases 4 - level
  {
    if level > 3 then {} else {At(vpn, level)} + Path(vpn, level + 1)
  }

  /** A table's ancestors exist. */
  lemma {:induction false} AncestorIn(tab: Tables, sl: int, root: nat, vpn: nat, level: int, upper: int)
    requires Shaped(tab, sl, root) && sl <= upper <= level <= 3 && At(vpn, level) in tab
    ensures At(vpn, upper) in tab
    decreases level - upper
  {
    if upper < level {
      AtChild(vpn, level - 1);
      assert Parent(At(vpn, level)) in tab;
      AncestorIn(tab, sl, root, vpn, level - 1, upper);
    }
  }

  /** A page without a table on its path translates to nothing. */
  lemma NoTableNoTrans(pages: Pages, tab: Tables, sl: int, root: nat, off: nat, vpn: nat, level: int)
    requires Tree(pages, tab, sl, root, off) && sl <= level <= 3 && At(vpn, level) !in tab
    ensures Trans(pages, tab, vpn) == ZERO
  {
    if At(vpn, 3) in tab { AncestorIn(tab, sl, root, vpn, 3, level); }
    assert At(vpn, 3) == Key(3, vpn / 512);
  }

  // ----- canonical shape

  /** Every table of a pruned tree is on the path of some mapped page. */
  lemma {:induction false} TableWitness(pages: Pages, tab: Tables, sl: int, root: nat, off: nat, k: Key) returns (vpn: nat)
    requires Tree(pages, tab, sl, root, off) && Pruned(pages, tab, sl, {}) && k in tab && k.level > sl
    ensures Trans(pages, tab, vpn).valid && At(vpn, k.level) == k && At(vpn, 3) in tab
    decreases 3 - k.level
  {
    assert HasValid(pages[tab[k]]);
    var i: nat :| i < 512 && pages[tab[k]][i].valid;
    assert EntryOk(pages, tab, off, k, i);
    if k.level == 3 {
      vpn := k.prefix * 512 + i;
    } else {
      var c := Child(k, i);
      vpn := TableWitness(pages, tab, sl, root, off, c);
      AtChild(vpn, k.level);
      ChildParent(k, i);
    }
  }

  /** The mapped pages determine which tables exist. */
  lemma TablesDetermined(p1: Pages, t1: Tables, p2: Pages, t2: Tables, sl: int, root: nat, off: nat)
    requires Tree(p1, t1, sl, root, off) && Pruned(p1, t1, sl, {}) && Tree(p2, t2, sl, root, off) && Pruned(p2, t2, sl, {})
    requires forall v: nat :: Trans(p1, t1, v).valid == Trans(p2, t2, v).valid
    ensures t1.Keys == t2.Keys
  {
    forall k | k in t1 ensures k in t2 { TableCarries(p1, t1, p2, t2, sl, root, off, k); }
    forall k | k in t2 ensures k in t1 { TableCarries(p2, t2, p1, t1, sl, root, off, k); }
  }

  lemma TableCarries(p1: Pages, t1: Tables, p2: Pages, t2: Tables, sl: int, root: nat, off: nat, k: Key)
    requires Tree(p1, t1, sl, root, off) && Pruned(p1, t1, sl, {}) && Tree(p2, t2, sl, root, off)
    requires forall v: nat :: Trans(p1, t1, v).valid ==> Trans(p2, t2, v).valid
    requires k in t1
    ensures k in t2
  {
    if k.level > sl {
      var v := TableWitness(p1, t1, sl, root, off, k);
      assert Trans(p2, t2, v).valid;
      assert At(v, 3) == Key(3, v / 512);
      AncestorIn(t2, sl, root, v, 3, k.level);
    } else {
      assert k == Key(sl, 0);
    }
  }

  // ----- the hardware-style walk

  /** `__walk_page_table`: follow the entries from a table page; 0 when some entry on the way is invalid. */
  function Walk(pages: Pages, off: nat, table: nat, vpn: nat, level: int): nat
    decreases 4 - level
  {
    if level > 3 || table >= |pages| || Slot(vpn, level) >= |pages[table]| then 0
    else
      var e := pages[table][Slot(vpn, level)];
      if !e.valid then 0
      else if level == 3 || !e.table then e.base * 4096
      else if e.base < off then 0
      else Walk(pages, off, e.base - off, vpn, level + 1)
  }

  /** The walk from the root finds exactly the translation. */
  lemma {:induction false} WalkFindsTrans(pages: Pages, tab: Tables, sl: int, root: nat, off: nat, vpn: nat, level: int)
    requires Tree(pages, tab, sl, root, off) && sl <= level <= 3 && At(vpn, level) in tab
    ensures Walk(pages, off, tab[At(vpn, level)], vpn, level)
         == if Trans(pages, tab, vpn).valid then Trans(pages, tab, vpn).base * 4096 else 0
    decreases 3 - level
  {
    var k, i := At(vpn, level), Slot(vpn, level);
    assert EntryOk(pages, tab, off, k, i);
    AtChild(vpn, level);
    if level == 3 {
      assert k == Key(3, vpn / 512) && i == vpn % 512;
    } else if Child(k, i) in tab {
      WalkFindsTrans(pages, tab, sl, root, off, vpn, level + 1);
    } else {
      NoTableNoTrans(pages, tab, sl, root, off, vpn, level + 1);
    }
  }
}
