/** Stage-2 mapping and unmapping: walks that allocate table pages on demand and free them when emptied. */
module Stage2 {
  import opened PageAlloc
  import opened Stage2Tree
  import opened Bitmap

  // ----- addresses as the tables see them

  /** The page number whose nine-bit digits from `level` down are those of vpn: what a walk that starts
      at `level` resolves vpn to. */
  function Seen(vpn: nat, level: int): nat
    decreases 4 - level
  {
    if level > 3 then 0 else 512 * Seen(vpn / 512, level + 1) + vpn % 512
  }

  lemma {:induction false} PrefixShift(vpn: nat, level: int)
    requires level <= 3
    ensures Prefix(vpn / 512, level + 1) == Prefix(vpn, level)
    decreases 4 - level
  {
    if level < 3 { PrefixShift(vpn, level + 1); }
  }

  lemma {:induction false} SeenPrefix(vpn: nat, sl: int)
    requires sl <= 4
    ensures Prefix(Seen(vpn, sl), sl) == 0
    decreases 4 - sl
  {
    if sl <= 3 {
      SeenPrefix(vpn / 512, sl + 1);
      PrefixShift(Seen(vpn, sl), sl);
    }
  }

  /** The walk indexes every level exactly as for the page number it resolves to. */
  lemma {:induction false} SeenSlot(vpn: nat, sl: int, level: int)
    requires sl <= level <= 3
    ensures Slot(Seen(vpn, sl), level) == Slot(vpn, level)
    decreases 3 - level
  {
    var s := Seen(vpn, sl);
    if level < 3 {
      SeenSlot(vpn / 512, sl + 1, level + 1);
      PrefixShift(s, level + 1);
      PrefixShift(vpn, level + 1);
      assert s / 512 == Seen(vpn / 512, sl + 1);
    }
  }

  /** A walk from level sl takes page exactly as it takes vpn. */
  ghost predicate Resolves(page: nat, sl: int, vpn: nat) {
    InRange(vpn, sl) && forall l {:trigger Slot(page, l)} | sl <= l <= 3 :: Slot(vpn, l) == Slot(page, l)
  }

  lemma SeenResolves(page: nat, sl: int)
    requires sl <= 4
    ensures Resolves(page, sl, Seen(page, sl))
  {
    SeenPrefix(page, sl);
    forall l | sl <= l <= 3 ensures Slot(Seen(page, sl), l) == Slot(page, l) { SeenSlot(page, sl, l); }
  }

  /** A walk resolves a page to itself exactly when the start level covers it. */
  lemma {:induction false} SeenExact(vpn: nat, sl: int)
    requires sl <= 4
    ensures Seen(vpn, sl) == vpn <==> InRange(vpn, sl)
    decreases 4 - sl
  {
    if sl <= 3 {
      SeenExact(vpn / 512, sl + 1);
      PrefixShift(vpn, sl);
      assert Seen(vpn, sl) / 512 == Seen(vpn / 512, sl + 1);
    }
  }

  // ----- page budget

  predicate FreeEven(p: nat, taken: set<nat>) {
    p % 2 == 0 && p !in taken
  }

  /** The pages `alloc_one_page` can still hand out. */
  function Spare(taken: set<nat>): set<nat> {
    set p: nat | p < TOTAL_PAGES && FreeEven(p, taken)
  }

  /** The tables below the root that map n pages from vpn on. */
  function Needed(vpn: nat, n: nat, level: int): set<Key>
    decreases n
  {
    if n == 0 then {} else Path(vpn, level) + Needed(vpn + 1, n - 1, level)
  }

  lemma SpareTake(taken: set<nat>, p: nat)
    requires p < TOTAL_PAGES && FreeEven(p, taken)
    ensures |Spare(taken + {p})| + 1 == |Spare(taken)|
  {
    assert Spare(taken) == Spare(taken + {p}) + {p};
  }

  lemma PathIn(vpn: nat, upper: int, level: int)
    requires upper <= level <= 3
    ensures At(vpn, level) in Path(vpn, upper)
    decreases level - upper
  {
    if upper < level { PathIn(vpn, upper + 1, level); }
  }

  lemma {:induction false} NeededGrow(vpn: nat, n: nat, level: int)
    ensures Needed(vpn, n + 1, level) == Needed(vpn, n, level) + Path(vpn + n, level)
    decreases n
  {
    if n > 0 { NeededGrow(vpn + 1, n - 1, level); }
  }

  /** The tables of t1 are those of t0 and `more`. */
  ghost predicate Gains(t0: Tables, t1: Tables, more: set<Key>) {
    forall k {:trigger GainAt(t0, t1, more, k)} :: GainAt(t0, t1, more, k)
  }

  predicate GainAt(t0: Tables, t1: Tables, more: set<Key>, k: Key) {
    k in t1 <==> k in t0 || k in more
  }

  /** On the way from t0 to the tables of a path, `rest` is still to come. */
  ghost predicate PartWay(t0: Tables, t1: Tables, rest: set<Key>, path: set<Key>) {
    forall k {:trigger PartAt(t0, t1, rest, path, k)} :: PartAt(t0, t1, rest, path, k)
  }

  predicate PartAt(t0: Tables, t1: Tables, rest: set<Key>, path: set<Key>, k: Key) {
    (k in t1 || k in rest) <==> (k in t0 || k in path)
  }

  lemma PathStart(t: Tables, path: set<Key>)
    ensures PartWay(t, t, path, path)
  {}

  lemma PathStep(vpn: nat, level: int, t0: Tables, t1: Tables, t2: Tables, path: set<Key>)
    requires level <= 3 && PartWay(t0, t1, Path(vpn, level), path) && Gains(t1, t2, {At(vpn, level)})
    ensures PartWay(t0, t2, Path(vpn, level + 1), path)
  {
    var p, q, c := Path(vpn, level), Path(vpn, level + 1), {At(vpn, level)};
    forall k ensures PartAt(t0, t2, q, path, k) { assert PartAt(t0, t1, p, path, k) && GainAt(t1, t2, c, k); }
  }

  lemma PathEnd(vpn: nat, t0: Tables, t1: Tables, path: set<Key>)
    requires PartWay(t0, t1, Path(vpn, 4), path)
    ensures Gains(t0, t1, path)
  {
    forall k ensures GainAt(t0, t1, path, k) { assert PartAt(t0, t1, Path(vpn, 4), path, k); }
  }

  /** The tables on a page's path are among those of `need`. */
  ghost predicate Within(vpn: nat, level: int, need: set<Key>) {
    forall l {:trigger At(vpn, l)} | level <= l <= 3 :: At(vpn, l) in need
  }

  /** Of the tables t1, those not in t0 are the ones n pages from vpn on need. */
  ghost predicate Made(vpn: nat, n: nat, level: int, t0: Tables, t1: Tables) {
    Gains(t0, t1, Needed(vpn, n, level))
  }

  lemma MadeStep(vpn: nat, n: nat, level: int, v: nat, t0: Tables, t1: Tables, t2: Tables)
    requires Made(vpn, n, level, t0, t1) && v == vpn + n && Gains(t1, t2, Path(v, level))
    ensures Made(vpn, n + 1, level, t0, t2)
  {
    NeededGrow(vpn, n, level);
    var p, q, more := Needed(vpn, n, level), Needed(vpn, n + 1, level), Path(v, level);
    forall k ensures GainAt(t0, t2, q, k) { assert GainAt(t0, t1, p, k) && GainAt(t1, t2, more, k); }
  }

  ghost predicate AllWithin(vpn: nat, n: nat, level: int, need: set<Key>) {
    forall v: nat {:trigger Within(v, level, need)} | vpn <= v < vpn + n :: Within(v, level, need)
  }

  lemma NeededWithin(vpn: nat, n: nat, level: int)
    ensures AllWithin(vpn, n, level, Needed(vpn, n, level))
  {
    forall v: nat | vpn <= v < vpn + n ensures Within(v, level, Needed(vpn, n, level)) {
      WithinNeeded(vpn, n, level, v - vpn);
    }
  }

  lemma {:induction false} WithinNeeded(vpn: nat, n: nat, level: int, j: nat)
    requires j < n
    ensures Within(vpn + j, level, Needed(vpn, n, level))
    decreases n
  {
    if j > 0 {
      WithinNeeded(vpn + 1, n - 1, level, j - 1);
    } else {
      forall l | level <= l <= 3 ensures At(vpn, l) in Path(vpn, level) { PathIn(vpn, level, l); }
    }
  }

  lemma {:induction false} PrefixMono(a: nat, b: nat, level: int)
    requires a <= b
    ensures Prefix(a, level) <= Prefix(b, level)
    decreases 4 - level
  {
    if level < 4 { PrefixMono(a, b, level + 1); }
  }

  /** Tables of `need` still to be made. */
  function Missing(need: set<Key>, tab: Tables): set<Key> {
    set k | k in need && k !in tab
  }

  /** There is a page for every one of them. */
  predicate Budget(need: set<Key>, tab: Tables, taken: set<nat>) {
    |Missing(need, tab)| <= |Spare(taken)|
  }

  /** Tables not yet made against even pages not yet taken: enough as long as half the pages are there for the
      tables wanted and the pages in use together. */
  lemma BudgetMeans(need: set<Key>, tab: Tables, taken: set<nat>)
    ensures Budget(need, tab, taken) <==> |need - tab.Keys| <= |set p: nat | p < TOTAL_PAGES && p % 2 == 0 && p !in taken|
    ensures |need| + |taken| <= TOTAL_PAGES / 2 ==> Budget(need, tab, taken)
  {
    assert Missing(need, tab) == need - tab.Keys;
    assert Spare(taken) == set p: nat | p < TOTAL_PAGES && p % 2 == 0 && p !in taken;
    EvenCount(TOTAL_PAGES / 2);
    Larger(need - tab.Keys, need);
    Larger(Evens(TOTAL_PAGES / 2) - taken, Spare(taken));
  }

  function Evens(n: nat): set<nat> {
    set p: nat | p < 2 * n && p % 2 == 0
  }

  lemma {:induction false} EvenCount(n: nat)
    ensures |Evens(n)| == n
    decreases n
  {
    if n == 0 {
      assert Evens(n) == {};
    } else {
      EvenCount(n - 1);
      assert Evens(n) == Evens(n - 1) + {2 * n - 2};
    }
  }

  lemma {:induction false} Larger<T>(a: set<T>, b: set<T>)
    requires a <= b
    ensures |a| <= |b|
  {
    assert b == a + (b - a);
  }

  lemma BudgetStep(need: set<Key>, tab: Tables, c: Key, fn: nat, taken: set<nat>)
    requires c in need && c !in tab && fn < TOTAL_PAGES && FreeEven(fn, taken) && Budget(need, tab, taken)
    ensures Budget(need, tab[c := fn], taken + {fn})
  {
    SpareTake(taken, fn);
    assert Missing(need, tab) == Missing(need, tab[c := fn]) + {c};
  }

  /** A page for a missing table c, paid from the budget for `need`. */
  method AllocTable(alloc: PageAllocator, ghost tab: Tables, ghost c: Key, ghost need: set<Key>) returns (fn: nat)
    requires alloc.Valid() && c in need && c !in tab && Budget(need, tab, alloc.Taken())
    modifies alloc.bits
    ensures alloc.Valid() && fn < TOTAL_PAGES && fn !in old(alloc.Taken()) && alloc.Taken() == old(alloc.Taken()) + {fn}
    ensures Budget(need, tab[c := fn], alloc.Taken())
  {
    ghost var taken := alloc.Taken();
    assert c in Missing(need, tab);
    fn := alloc.AllocOnePage();
    assert fn != TOTAL_PAGES by {
      var p: nat :| p in Spare(taken);
      assert FreeEven(p, taken);
    }
    BudgetStep(need, tab, c, fn, taken);
  }

  // ----- steps of the walk

  lemma ValuesAdded(tab: Tables, c: Key, p: nat)
    requires c !in tab
    ensures tab[c := p].Values == tab.Values + {p}
  {
    forall x | x in tab.Values + {p} ensures x in tab[c := p].Values {
      if x == p {
        assert tab[c := p][c] == p;
      } else {
        var j :| j in tab && tab[j] == x;
        assert tab[c := p][j] == x;
      }
    }
  }

  /** Tables are injective, so dropping a key drops its page. */
  lemma ValuesDropped(tab: Tables, sl: int, root: nat, c: Key)
    requires Shaped(tab, sl, root) && c in tab
    ensures (tab - {c}).Values == tab.Values - {tab[c]}
  {
    forall x | x in tab.Values - {tab[c]} ensures x in (tab - {c}).Values {
      var j :| j in tab && tab[j] == x;
      assert (tab - {c})[j] == x;
    }
    forall j | j in tab - {c} ensures (tab - {c})[j] != tab[c] { assert Apart(tab, j, c); }
  }

  function TableEntry(fn: nat, off: nat): Entry {
    MakeStage2Entry(4096 * (off + fn), MEM_NORMAL_RW, MEM_ACCESS_RWX)
  }

  lemma TableEntryPoints(fn: nat, off: nat)
    requires off + fn < 0x10_0000_0000
    ensures TableEntry(fn, off).valid && TableEntry(fn, off).table && TableEntry(fn, off).base == off + fn
  {
    assert 4096 * (off + fn) / 4096 == off + fn;
  }

  /** Entering a child table closes its parent: the pointer to the child is a valid entry. */
  lemma EnterChild(pages: Pages, tab: Tables, sl: int, root: nat, off: nat, k: Key, i: nat)
    requires Tree(pages, tab, sl, root, off) && k in tab && k.level < 3 && i < 512 && Child(k, i) in tab
    requires Pruned(pages, tab, sl, {k})
    ensures Pruned(pages, tab, sl, {})
  {
    assert EntryOk(pages, tab, off, k, i);
    assert pages[tab[k]][i].valid;
  }

  /** t1 has every table of t0, on the same page. */
  ghost predicate Extends(t0: Tables, t1: Tables) {
    forall k {:trigger t0[k]} | k in t0 :: k in t1 && t1[k] == t0[k]
  }

  lemma ExtendsStep(t0: Tables, t1: Tables, t2: Tables)
    requires Extends(t0, t1) && Extends(t1, t2)
    ensures Extends(t0, t2)
  {
    forall k | k in t0 ensures k in t2 && t2[k] == t0[k] { assert t1[k] == t0[k]; }
  }

  /** Bookkeeping of one new table. */
  lemma Entered(tab: Tables, c: Key, p: nat, taken: set<nat>)
    requires c !in tab && p !in taken && tab.Values <= taken
    ensures Extends(tab, tab[c := p]) && tab[c := p].Keys == tab.Keys + {c}
    ensures tab[c := p].Values <= taken + {p} && taken + {p} - tab[c := p].Values == taken - tab.Values
  {
    ValuesAdded(tab, c, p);
  }

  lemma AddedPages(pages: Pages, tab: Tables, k: Key, c: Key, i: nat, p: nat, e: Entry)
    requires k in tab && c !in tab && p < |pages| && tab[k] < |pages| && tab[k] != p && i < |pages[tab[k]]|
    ensures SamePages(pages, SetEntry(pages[p := ZeroPage()], tab[k], i, e), tab[c := p])
  {
    ValuesAdded(tab, c, p);
    assert tab[k] in tab.Values;
  }

  /** Only pages of the tree were written. */
  ghost predicate SamePages(p0: Pages, p1: Pages, t1: Tables) {
    |p0| == |p1| && forall p | 0 <= p < |p0| && p !in t1.Values :: p1[p] == p0[p]
  }

  lemma SamePagesStep(p0: Pages, p1: Pages, t1: Tables, p2: Pages, t2: Tables)
    requires SamePages(p0, p1, t1) && SamePages(p1, p2, t2) && Extends(t1, t2)
    ensures SamePages(p0, p2, t2)
  {
    forall x | x in t1.Values ensures x in t2.Values {
      var k :| k in t1 && t1[k] == x;
      assert t2[k] == x;
    }
  }

  ghost predicate SameTrans(p0: Pages, t0: Tables, p1: Pages, t1: Tables) {
    forall v: nat :: Trans(p1, t1, v) == Trans(p0, t0, v)
  }

  /** One page's translation is e, the others are as before. */
  ghost predicate Remapped(p0: Pages, t0: Tables, p1: Pages, t1: Tables, vpn: nat, e: Entry) {
    forall v: nat :: Trans(p1, t1, v) == if v == vpn then e else Trans(p0, t0, v)
  }

  lemma SameTransStep(p0: Pages, t0: Tables, p1: Pages, t1: Tables, p2: Pages, t2: Tables)
    requires SameTrans(p0, t0, p1, t1) && SameTrans(p1, t1, p2, t2)
    ensures SameTrans(p0, t0, p2, t2)
  {}

  lemma RemappedStep(p0: Pages, t0: Tables, p1: Pages, t1: Tables, p2: Pages, t2: Tables, vpn: nat, e: Entry)
    requires (SameTrans(p0, t0, p1, t1) && Remapped(p1, t1, p2, t2, vpn, e)) ||
             (Remapped(p0, t0, p1, t1, vpn, e) && SameTrans(p1, t1, p2, t2))
    ensures Remapped(p0, t0, p2, t2, vpn, e)
  {}

  // ----- ranges

  /** Pages vpn .. vpn+n-1 map, in order, to the frames from pa on; every other page is as before. */
  /** Unmapping below and collapsing here together. */
  lemma CollapsedStep(p0: Pages, t0: Tables, p1: Pages, t1: Tables, p2: Pages, t2: Tables, vpn: nat, level: int)
    requires Remapped(p0, t0, p1, t1, vpn, ZERO) && SameTrans(p1, t1, p2, t2)
    requires Extends(t1, t0) && Extends(t2, t1) && SamePages(p0, p1, t0) && SamePages(p1, p2, t1)
    requires forall k | k in t0 && k.level <= level + 1 :: k in t1
    requires forall k | k in t1 && k.level <= level :: k in t2
    ensures Remapped(p0, t0, p2, t2, vpn, ZERO) && Extends(t2, t0) && SamePages(p0, p2, t0)
    ensures forall k | k in t0 && k.level <= level :: k in t2
  {
    ExtendsStep(t2, t1, t0);
    SamePagesWiden(p1, p2, t1, t0);
    SamePagesStep(p0, p1, t0, p2, t0);
    RemappedStep(p0, t0, p1, t1, p2, t2, vpn, ZERO);
  }

  lemma SamePagesWiden(p1: Pages, p2: Pages, t1: Tables, t0: Tables)
    requires SamePages(p1, p2, t1) && Extends(t1, t0)
    ensures SamePages(p1, p2, t0)
  {
    forall x | x in t1.Values ensures x in t0.Values {
      var k :| k in t1 && t1[k] == x;
      assert t0[k] == x;
    }
  }

  ghost predicate MappedRange(p0: Pages, t0: Tables, p1: Pages, t1: Tables, vpn: nat, n: nat, pa: nat, attr: int, acc: int) {
    forall v: nat :: Trans(p1, t1, v)
      == if vpn <= v < vpn + n then MakeStage2Entry(pa + 4096 * (v - vpn), attr, acc) else Trans(p0, t0, v)
  }

  /** n pages from vpn on are mapped and the tables they need are made, nothing else has changed. */
  ghost predicate Mapped(p0: Pages, t0: Tables, p1: Pages, t1: Tables, vpn: nat, n: nat, pa: nat, attr: int, acc: int, sl: int) {
    && MappedRange(p0, t0, p1, t1, vpn, n, pa, attr, acc) && Made(vpn, n, sl + 1, t0, t1)
    && Extends(t0, t1) && SamePages(p0, p1, t1)
  }

  lemma MappedStep(p0: Pages, t0: Tables, p1: Pages, t1: Tables, p2: Pages, t2: Tables, vpn: nat, i: nat, paddr: nat, attr: int, acc: int,
                   v: nat, pa: nat, sl: int)
    requires Mapped(p0, t0, p1, t1, vpn, i, paddr, attr, acc, sl) && v == vpn + i && pa == paddr + 4096 * i
    requires Remapped(p1, t1, p2, t2, v, MakeStage2Entry(pa, attr, acc)) && Gains(t1, t2, Path(v, sl + 1))
    requires Extends(t1, t2) && SamePages(p1, p2, t2)
    ensures Mapped(p0, t0, p2, t2, vpn, i + 1, paddr, attr, acc, sl)
  {
    ExtendsStep(t0, t1, t2);
    SamePagesStep(p0, p1, t1, p2, t2);
    MappedRangeStep(p0, t0, p1, t1, p2, t2, vpn, i, paddr, attr, acc, v, pa);
    MadeStep(vpn, i, sl + 1, v, t0, t1, t2);
  }

  lemma MappedStart(p: Pages, t: Tables, vpn: nat, pa: nat, attr: int, acc: int, sl: int)
    requires sl >= 0
    ensures Mapped(p, t, p, t, vpn, 0, pa, attr, acc, sl)
  {}

  lemma WithinAt(vpn: nat, n: nat, level: int, need: set<Key>, v: nat)
    requires AllWithin(vpn, n, level, need) && vpn <= v < vpn + n
    ensures Within(v, level, need)
  {}

  ghost predicate ClearedRange(p0: Pages, t0: Tables, p1: Pages, t1: Tables, vpn: nat, n: nat) {
    forall v: nat :: Trans(p1, t1, v) == if vpn <= v < vpn + n then ZERO else Trans(p0, t0, v)
  }

  ghost predicate AllSet(pages: Pages, tab: Tables, vpn: nat, n: nat) {
    forall v: nat | vpn <= v < vpn + n :: IsSet(Trans(pages, tab, v))
  }

  lemma MappedRangeStep(p0: Pages, t0: Tables, p1: Pages, t1: Tables, p2: Pages, t2: Tables, vpn: nat, n: nat,
                        pa: nat, attr: int, acc: int, v: nat, pv: nat)
    requires MappedRange(p0, t0, p1, t1, vpn, n, pa, attr, acc) && v == vpn + n && pv == pa + 4096 * n
    requires Remapped(p1, t1, p2, t2, v, MakeStage2Entry(pv, attr, acc))
    ensures MappedRange(p0, t0, p2, t2, vpn, n + 1, pa, attr, acc)
  {
    forall v: nat ensures Trans(p2, t2, v)
      == if vpn <= v < vpn + n + 1 then MakeStage2Entry(pa + 4096 * (v - vpn), attr, acc) else Trans(p0, t0, v) {}
  }

  lemma ClearedRangeStep(p0: Pages, t0: Tables, p1: Pages, t1: Tables, p2: Pages, t2: Tables, vpn: nat, n: nat)
    requires ClearedRange(p0, t0, p1, t1, vpn, n) && Remapped(p1, t1, p2, t2, vpn + n, ZERO)
    ensures ClearedRange(p0, t0, p2, t2, vpn, n + 1)
  {}

  /** The start level covers pages vpn .. vpn+n-1. */
  ghost predicate Covered(vpn: nat, n: nat, sl: int) {
    n > 0 ==> InRange(vpn + n - 1, sl)
  }

  /** The walk takes page j of a covered range at its own page number. */
  lemma CoveredAt(vaddr: nat, vpn: nat, n: nat, sl: int, j: nat, va: nat, v: nat)
    requires j < n && vpn == vaddr / 4096 && Covered(vpn, n, sl) && va == vaddr + 4096 * j && v == vpn + j
    ensures va / 4096 == v && Resolves(va / 4096, sl, v)
  {
    PrefixMono(vaddr / 4096 + j, vaddr / 4096 + n - 1, sl);
  }

  ghost predicate Fresh(pages: Pages, tab: Tables, vpn: nat, n: nat) {
    forall v: nat | vpn <= v < vpn + n :: !Trans(pages, tab, v).valid
  }

  /** The frame number page j of a range gets. */
  function Frame(pa: nat, j: nat): nat { (pa / 4096 + j) % 0x10_0000_0000 }

  /** A mapped range can be unmapped exactly when no frame number is zero. */
  lemma MappedSet(p0: Pages, t0: Tables, p1: Pages, t1: Tables, vpn: nat, n: nat, pa: nat, attr: int, acc: int)
    requires MappedRange(p0, t0, p1, t1, vpn, n, pa, attr, acc)
    ensures AllSet(p1, t1, vpn, n) <==> forall j: nat | j < n :: Frame(pa, j) != 0
  {
    forall j: nat | j < n ensures IsSet(Trans(p1, t1, vpn + j)) <==> Frame(pa, j) != 0 {
      assert (pa + 4096 * j) / 4096 == pa / 4096 + j;
    }
    if forall j: nat | j < n :: Frame(pa, j) != 0 {
      forall v: nat | vpn <= v < vpn + n ensures IsSet(Trans(p1, t1, v)) {
        assert v == vpn + (v - vpn) && Frame(pa, v - vpn) != 0;
      }
    }
  }

  lemma RestoredTrans(p0: Pages, t0: Tables, p1: Pages, t1: Tables, p2: Pages, t2: Tables, sl: int, root: nat, off: nat,
                      vpn: nat, n: nat, pa: nat, attr: int, acc: int)
    requires Tree(p0, t0, sl, root, off) && Fresh(p0, t0, vpn, n)
    requires MappedRange(p0, t0, p1, t1, vpn, n, pa, attr, acc) && ClearedRange(p1, t1, p2, t2, vpn, n)
    ensures SameTrans(p0, t0, p2, t2)
    ensures forall v: nat :: Trans(p0, t0, v).valid == Trans(p2, t2, v).valid
  {
    forall v: nat ensures Trans(p2, t2, v) == Trans(p0, t0, v) {
      var k := Key(3, v / 512);
      if k in t0 { assert EntryOk(p0, t0, off, k, v % 512); }
    }
  }

  lemma SameTables(t0: Tables, t1: Tables, t2: Tables)
    requires Extends(t0, t1) && Extends(t2, t1) && t0.Keys == t2.Keys
    ensures t0 == t2
  {
    forall k | k in t0 ensures t2[k] == t0[k] { assert k in t2.Keys; assert t1[k] == t0[k] == t2[k]; }
  }

  /** A fresh range mapped and cleared again leaves the tree it started from. */
  lemma Restored(p0: Pages, t0: Tables, p1: Pages, t1: Tables, p2: Pages, t2: Tables, sl: int, root: nat, off: nat,
                 vpn: nat, n: nat, pa: nat, attr: int, acc: int)
    requires Tree(p0, t0, sl, root, off) && Pruned(p0, t0, sl, {}) && Fresh(p0, t0, vpn, n)
    requires Tree(p2, t2, sl, root, off) && Pruned(p2, t2, sl, {}) && Extends(t0, t1) && Extends(t2, t1)
    requires MappedRange(p0, t0, p1, t1, vpn, n, pa, attr, acc) && ClearedRange(p1, t1, p2, t2, vpn, n)
    ensures SameTrans(p0, t0, p2, t2) && t2 == t0
  {
    RestoredTrans(p0, t0, p1, t1, p2, t2, sl, root, off, vpn, n, pa, attr, acc);
    TablesDetermined(p0, t0, p2, t2, sl, root, off);
    SameTables(t0, t1, t2);
  }

  /** Equal but for the same set of own pages, two bitmaps are the same words. */
  lemma SameWords(w0: seq<nat>, w1: seq<nat>, own: set<nat>)
    requires Words64(w0) && Words64(w1) && 64 * |w0| == 64 * |w1| == TOTAL_PAGES
    requires own <= SetBelow(w0, TOTAL_PAGES) && own <= SetBelow(w1, TOTAL_PAGES)
    requires SetBelow(w0, TOTAL_PAGES) - own == SetBelow(w1, TOTAL_PAGES) - own
    ensures w0 == w1
  {
    forall x | x in SetBelow(w0, TOTAL_PAGES) ensures x in SetBelow(w1, TOTAL_PAGES) {
      assert x !in own ==> x in SetBelow(w0, TOTAL_PAGES) - own;
    }
    forall x | x in SetBelow(w1, TOTAL_PAGES) ensures x in SetBelow(w0, TOTAL_PAGES) {
      assert x !in own ==> x in SetBelow(w1, TOTAL_PAGES) - own;
    }
    SameMap(w0, w1);
  }

  /** The lookup of any address is decided by the page number the walk sees. */
  lemma LookupSeen(pages: Pages, tab: Tables, sl: int, root: nat, off: nat, page: nat)
    requires Tree(pages, tab, sl, root, off)
    ensures var e := Trans(pages, tab, Seen(page, sl));
      Walk(pages, off, root, page, sl) == if e.valid then e.base * 4096 else 0
  {
    SeenResolves(page, sl);
    WalkSame(pages, off, root, page, Seen(page, sl), sl, sl);
    WalkFindsTrans(pages, tab, sl, root, off, Seen(page, sl), sl);
  }

  lemma {:induction false} WalkSame(pages: Pages, off: nat, table: nat, page: nat, vpn: nat, sl: int, level: int)
    requires Resolves(page, sl, vpn) && sl <= level
    ensures Walk(pages, off, table, page, level) == Walk(pages, off, table, vpn, level)
    decreases 4 - level
  {
    if level <= 3 && table < |pages| && Slot(page, level) < |pages[table]| {
      var e := pages[table][Slot(page, level)];
      if e.valid && level < 3 && e.table && e.base >= off { WalkSame(pages, off, e.base - off, page, vpn, sl, level + 1); }
    }
  }

  /** Two pages share their translation slot exactly when they agree below the start level's range: an
      address the start level does not cover is mapped and looked up as another one. */
  lemma OutOfRangeAliases(page: nat, sl: int)
    requires sl <= 4 && !InRange(page, sl)
    ensures Seen(page, sl) != page && InRange(Seen(page, sl), sl)
  {
    SeenExact(page, sl);
    SeenPrefix(page, sl);
  }

  /** `map_size` rounded up to pages, in 64-bit arithmetic. */
  function PageCount(size: nat): nat {
    ((size + 4095) % 0x1_0000_0000_0000_0000) / 4096
  }

  /** The pages hold the size, with less than a page to spare; the last 4095 sizes wrap to no page. */
  lemma PagesHold(size: nat)
    requires size < 0x1_0000_0000_0000_0000
    ensures size <= 0xFFFF_FFFF_FFFF_F000 ==> size <= 4096 * PageCount(size) < size + 4096
    ensures size > 0xFFFF_FFFF_FFFF_F000 ==> PageCount(size) == 0
  {}

  /** Address va of a range at vaddr goes to the same place in the range at paddr. */
  ghost predicate Lands(pages: Pages, tab: Tables, vaddr: nat, paddr: nat, va: nat) {
    var e := Trans(pages, tab, va / 4096);
    va >= vaddr && e.valid && e.table && e.base == (paddr + (va - vaddr)) / 4096 % 0x10_0000_0000
  }

  /** No page from the end of the range on, or before its start, is translated differently. */
  ghost predicate OutsideKept(p0: Pages, t0: Tables, p1: Pages, t1: Tables, vaddr: nat, size: nat) {
    forall v: nat | 4096 * v + 4096 <= vaddr || vaddr + size <= 4096 * v :: Trans(p1, t1, v) == Trans(p0, t0, v)
  }

  lemma InPage(vaddr: nat, size: nat, va: nat)
    requires vaddr % 4096 == 0 && size <= 0xFFFF_FFFF_FFFF_F000 && vaddr <= va < vaddr + size
    ensures vaddr / 4096 <= va / 4096 < vaddr / 4096 + PageCount(size) && (va - vaddr) / 4096 == va / 4096 - vaddr / 4096
  {
    PagesHold(size);
  }

  lemma PastEnd(vaddr: nat, size: nat, v: nat)
    requires vaddr % 4096 == 0 && size <= 0xFFFF_FFFF_FFFF_F000 && (4096 * v + 4096 <= vaddr || vaddr + size <= 4096 * v)
    ensures !(vaddr / 4096 <= v < vaddr / 4096 + PageCount(size))
  {
    PagesHold(size);
  }

  lemma FrameShift(paddr: nat, d: nat)
    requires paddr % 4096 == 0
    ensures (paddr + d) / 4096 == (paddr + 4096 * (d / 4096)) / 4096
  {}

  /** A mapped range, byte by byte. */
  lemma BytesMapped(p0: Pages, t0: Tables, p1: Pages, t1: Tables, vaddr: nat, paddr: nat, size: nat, attr: int, acc: int)
    requires vaddr % 4096 == 0 && size <= 0xFFFF_FFFF_FFFF_F000 && MappedRange(p0, t0, p1, t1, vaddr / 4096, PageCount(size), paddr, attr, acc)
    ensures OutsideKept(p0, t0, p1, t1, vaddr, size)
    ensures paddr % 4096 == 0 ==> forall va: nat | vaddr <= va < vaddr + size :: Lands(p1, t1, vaddr, paddr, va)
  {
    forall v: nat | 4096 * v + 4096 <= vaddr || vaddr + size <= 4096 * v ensures Trans(p1, t1, v) == Trans(p0, t0, v) {
      PastEnd(vaddr, size, v);
    }
    if paddr % 4096 == 0 {
      forall va: nat | vaddr <= va < vaddr + size ensures Lands(p1, t1, vaddr, paddr, va) {
        InPage(vaddr, size, va);
        FrameShift(paddr, va - vaddr);
      }
    }
  }

  /** An unmapped range, byte by byte. */
  lemma BytesCleared(p0: Pages, t0: Tables, p1: Pages, t1: Tables, vaddr: nat, size: nat)
    requires vaddr % 4096 == 0 && size <= 0xFFFF_FFFF_FFFF_F000 && ClearedRange(p0, t0, p1, t1, vaddr / 4096, PageCount(size))
    ensures OutsideKept(p0, t0, p1, t1, vaddr, size)
    ensures forall va: nat | vaddr <= va < vaddr + size :: !Trans(p1, t1, va / 4096).valid
  {
    forall v: nat | 4096 * v + 4096 <= vaddr || vaddr + size <= 4096 * v ensures Trans(p1, t1, v) == Trans(p0, t0, v) {
      PastEnd(vaddr, size, v);
    }
    forall va: nat | vaddr <= va < vaddr + size ensures !Trans(p1, t1, va / 4096).valid { InPage(vaddr, size, va); }
  }

  /** Every page of the range is set exactly when every byte's page is. */
  lemma BytesSet(pages: Pages, tab: Tables, vaddr: nat, size: nat)
    requires vaddr % 4096 == 0 && size <= 0xFFFF_FFFF_FFFF_F000
    ensures AllSet(pages, tab, vaddr / 4096, PageCount(size))
       <==> forall va: nat | vaddr <= va < vaddr + size :: IsSet(Trans(pages, tab, va / 4096))
  {
    PagesHold(size);
    forall va: nat | vaddr <= va < vaddr + size && AllSet(pages, tab, vaddr / 4096, PageCount(size))
      ensures IsSet(Trans(pages, tab, va / 4096)) {
      InPage(vaddr, size, va);
    }
    if forall va: nat | vaddr <= va < vaddr + size :: IsSet(Trans(pages, tab, va / 4096)) {
      forall v: nat | vaddr / 4096 <= v < vaddr / 4096 + PageCount(size) ensures IsSet(Trans(pages, tab, v)) {
        assert (4096 * v) / 4096 == v && vaddr <= 4096 * v < vaddr + size;
      }
    }
  }

  /** Some frame of the range is zero exactly when some byte's frame is. */
  lemma BytesFrameZero(paddr: nat, size: nat)
    requires paddr % 4096 == 0 && size <= 0xFFFF_FFFF_FFFF_F000
    ensures (exists j: nat :: j < PageCount(size) && Frame(paddr, j) == 0)
       <==> exists pa: nat :: paddr <= pa < paddr + size && pa / 4096 % 0x10_0000_0000 == 0
  {
    PagesHold(size);
    if j: nat :| j < PageCount(size) && Frame(paddr, j) == 0 {
      assert (paddr + 4096 * j) / 4096 == paddr / 4096 + j && paddr <= paddr + 4096 * j < paddr + size;
    }
    if pa: nat :| paddr <= pa < paddr + size && pa / 4096 % 0x10_0000_0000 == 0 {
      InPage(paddr, size, pa);
      assert Frame(paddr, pa / 4096 - paddr / 4096) == 0;
    }
  }

  // ----- the tables

  class Stage2Mm {
    const alloc: PageAllocator
    const root: nat
    const sl: int
    const off: nat
    var pages: Pages
    ghost var tab: Tables

    ghost predicate Owned()
      reads this, alloc, alloc.bits
    {
      && alloc.Valid() && Tree(pages, tab, sl, root, off) && off + TOTAL_PAGES <= 0x10_0000_0000
      && tab.Values <= alloc.Taken()
    }

    /** A tree of allocator-owned pages without an empty table below the root. */
    ghost predicate Valid()
      reads this, alloc, alloc.bits
    {
      Owned() && Pruned(pages, tab, sl, {})
    }

    /** Pages in use by others than this tree. */
    ghost function Others(): set<nat>
      requires alloc.Valid()
      reads this, alloc, alloc.bits
    {
      alloc.Taken() - tab.Values
    }

    /** The last-level entry that decides where page vpn goes. */
    ghost function T(vpn: nat): Entry
      reads this
    {
      Trans(pages, tab, vpn)
    }

    /** `s2_alloc_root_pages` for a one-page root, and an empty tree on it. */
    constructor (a: PageAllocator, startLevel: int, frames: nat, memory: Pages)
      requires a.Valid() && 0 <= startLevel <= 3 && Sized(memory) && Spare(a.Taken()) != {}
      requires 0 < frames <= 0x10_0000_0000 - TOTAL_PAGES
      modifies a.bits
      ensures Valid() && alloc == a && sl == startLevel && off == frames
      ensures forall vpn: nat :: T(vpn) == ZERO
      ensures root !in old(a.Taken()) && a.Taken() == old(a.Taken()) + {root} && tab.Keys == {Key(sl, 0)}
    {
      var p: nat := a.AllocOnePage();
      assert p != TOTAL_PAGES by {
        var q: nat :| q in Spare(old(a.Taken()));
        assert FreeEven(q, old(a.Taken()));
      }
      alloc, root, sl, off := a, p, startLevel, frames;
      pages := memory[p := ZeroPage()];
      tab := map[Key(startLevel, 0) := p];
      new;
      assert tab[Key(sl, 0)] == root;
      forall k, i: nat | k in tab && i < 512 ensures EntryOk(pages, tab, off, k, i) {}
    }

    /** Zeroes the new page and points entry `slot` of table k at it. */
    method Hook(table: nat, slot: nat, fn: nat, ghost k: Key)
      requires CanAdd(pages, tab, sl, root, off, k, slot, fn) && tab[k] == table && off + TOTAL_PAGES <= 0x10_0000_0000
      requires Pruned(pages, tab, sl, {k})
      modifies this`pages, this`tab
      ensures Tree(pages, tab, sl, root, off) && tab == old(tab)[Child(k, slot) := fn]
      ensures Pruned(pages, tab, sl, {Child(k, slot)})
      ensures SameTrans(old(pages), old(tab), pages, tab) && SamePages(old(pages), pages, tab)
    {
      var entry := TableEntry(fn, off);
      TableEntryPoints(fn, off);
      AddTree(pages, tab, sl, root, off, k, slot, fn, entry);
      AddKeeps(pages, tab, sl, root, off, k, slot, fn, entry, {k});
      assert {k} - {k} + {Child(k, slot)} == {Child(k, slot)};
      AddedPages(pages, tab, k, Child(k, slot), slot, fn, entry);
      pages := pages[fn := ZeroPage()];
      pages := SetEntry(pages, table, slot, entry);
      tab := tab[Child(k, slot) := fn];
    }

    /** `s2_next_level_map` above the last level: the child table under the entry, made if need be. */
    method NextLevelMap(table: nat, level: int, slot: nat, ghost vpn: nat, ghost need: set<Key>) returns (next: nat)
      requires Owned() && sl <= level < 3 && slot == Slot(vpn, level) && At(vpn, level) in tab && tab[At(vpn, level)] == table
      requires Pruned(pages, tab, sl, {At(vpn, level)})
      requires At(vpn, level + 1) in need && Budget(need, tab, alloc.Taken())
      modifies this`pages, this`tab, alloc.bits
      ensures Owned() && At(vpn, level + 1) in tab && tab[At(vpn, level + 1)] == next
      ensures Extends(old(tab), tab) && Others() == old(Others()) && Gains(old(tab), tab, {At(vpn, level + 1)})
      ensures Budget(need, tab, alloc.Taken())
      ensures Pruned(pages, tab, sl, {At(vpn, level + 1)})
      ensures SameTrans(old(pages), old(tab), pages, tab) && SamePages(old(pages), pages, tab)
    {
      ghost var k, c := At(vpn, level), At(vpn, level + 1);
      AtChild(vpn, level);
      assert EntryOk(pages, tab, off, k, slot);
      var entry := pages[table][slot];
      if !IsSet(entry) {
        var fn := AllocTable(alloc, tab, c, need);
        Entered(tab, c, fn, old(alloc.Taken()));
        Hook(table, slot, fn, k);
        return fn;
      }
      EnterChild(pages, tab, sl, root, off, k, slot);
      next := entry.base - off;
    }

    /** The way down to the last-level table of a page, making the tables that are missing. */
    method WalkDown(vaddr: nat, ghost vpn: nat, ghost need: set<Key>) returns (table: nat)
      requires Valid() && Resolves(vaddr / 4096, sl, vpn) && Within(vpn, sl + 1, need)
      requires Budget(need, tab, alloc.Taken())
      modifies this`pages, this`tab, alloc.bits
      ensures Owned() && At(vpn, 3) in tab && tab[At(vpn, 3)] == table && Pruned(pages, tab, sl, {At(vpn, 3)})
      ensures Extends(old(tab), tab) && Others() == old(Others())
      ensures SameTrans(old(pages), old(tab), pages, tab)
      ensures Gains(old(tab), tab, Path(vpn, sl + 1))
      ensures Budget(need, tab, alloc.Taken())
      ensures SamePages(old(pages), pages, tab)
    {
      var level := sl;
      table := root;
      ghost var path := Path(vpn, sl + 1);
      PathStart(tab, path);
      while level < 3
        invariant sl <= level <= 3 && Owned() && At(vpn, level) in tab && tab[At(vpn, level)] == table
        invariant Pruned(pages, tab, sl, {At(vpn, level)})
        invariant Extends(old(tab), tab) && Others() == old(Others())
        invariant SameTrans(old(pages), old(tab), pages, tab)
        invariant PartWay(old(tab), tab, Path(vpn, level + 1), path)
        invariant Budget(need, tab, alloc.Taken())
        invariant SamePages(old(pages), pages, tab)
      {
        ghost var pages0, tab0 := pages, tab;
        table := NextLevelMap(table, level, Slot(vaddr / 4096, level), vpn, need);
        ExtendsStep(old(tab), tab0, tab);
        PathStep(vpn, level + 1, old(tab), tab0, tab, path);
        SamePagesStep(old(pages), pages0, tab0, pages, tab);
        SameTransStep(old(pages), old(tab), pages0, tab0, pages, tab);
        level := level + 1;
      }
      PathEnd(vpn, old(tab), tab, path);
    }

    /** `stage2_map_4k`: exactly one page's translation changes. `need` budgets the tables still to come. */
    method Map4k(vaddr: nat, paddr: nat, attr: int, acc: int, ghost vpn: nat, ghost need: set<Key>)
      requires Valid() && Resolves(vaddr / 4096, sl, vpn)
      requires Within(vpn, sl + 1, need) && Budget(need, tab, alloc.Taken())
      modifies this`pages, this`tab, alloc.bits
      ensures Valid() && Extends(old(tab), tab) && Others() == old(Others())
      ensures Remapped(old(pages), old(tab), pages, tab, vpn, MakeStage2Entry(paddr, attr, acc))
      ensures Gains(old(tab), tab, Path(vpn, sl + 1))
      ensures Budget(need, tab, alloc.Taken())
      ensures SamePages(old(pages), pages, tab)
    {
      var table := WalkDown(vaddr, vpn, need);
      ghost var pages0 := pages;
      WriteLeaf(table, Slot(vaddr / 4096, 3), MakeStage2Entry(paddr, attr, acc), vpn);
      SamePagesStep(old(pages), pages0, tab, pages, tab);
      RemappedStep(old(pages), old(tab), pages0, tab, pages, tab, vpn, MakeStage2Entry(paddr, attr, acc));
    }

    /** One last-level entry of table k is written. */
    method WriteLeaf(table: nat, slot: nat, e: Entry, ghost vpn: nat)
      requires Owned() && At(vpn, 3) in tab && tab[At(vpn, 3)] == table && slot == Slot(vpn, 3) && (e.valid || e == ZERO)
      requires Pruned(pages, tab, sl, {At(vpn, 3)})
      modifies this`pages
      ensures Owned() && Pruned(pages, tab, sl, if e.valid then {} else {At(vpn, 3)})
      ensures Remapped(old(pages), tab, pages, tab, vpn, e) && SamePages(old(pages), pages, tab)
    {
      ghost var k := At(vpn, 3);
      assert k.prefix * 512 + slot == vpn;
      LeafTree(pages, tab, sl, root, off, k, slot, e);
      LeafKeeps(pages, tab, sl, root, off, k, slot, e, {k});
      assert {k} - {k} == {} && {k} + {k} == {k};
      assert tab[k] in tab.Values;
      pages := SetEntry(pages, table, slot, e);
    }

    /** The loop over a table's entries: whether none is valid. */
    method AllInvalid(table: nat) returns (all: bool)
      requires Sized(pages) && table < TOTAL_PAGES
      ensures all <==> !HasValid(pages[table])
    {
      all := true;
      var i := 0;
      while i < 512
        invariant 0 <= i <= 512 && (all <==> forall j | 0 <= j < i :: !pages[table][j].valid)
      {
        if pages[table][i].valid { all := false; }
        i := i + 1;
      }
    }

    /** Gives back the empty child table under entry `slot` of table k. */
    method Prune(table: nat, slot: nat, next: nat, ghost k: Key)
      requires Owned() && k in tab && k.level < 3 && tab[k] == table && slot < 512 && Child(k, slot) in tab
      requires tab[Child(k, slot)] == next && next < TOTAL_PAGES && !HasValid(pages[next])
      requires Pruned(pages, tab, sl, {Child(k, slot)})
      modifies this`pages, this`tab, alloc.bits
      ensures Owned() && Pruned(pages, tab, sl, {k}) && tab == old(tab) - {Child(k, slot)} && Others() == old(Others())
      ensures SameTrans(old(pages), old(tab), pages, tab) && SamePages(old(pages), pages, old(tab))
    {
      ghost var c := Child(k, slot);
      DropTree(pages, tab, sl, root, off, k, slot);
      DropKeeps(pages, tab, sl, root, off, k, slot, {c});
      assert {c} - {c} + {k} == {k};
      ValuesDropped(tab, sl, root, c);
      assert tab[k] in tab.Values && tab[c] in tab.Values;
      alloc.FreeOnePage(next);
      pages := SetEntry(pages, table, slot, ZERO);
      tab := tab - {c};
    }

    /** The way back up: the child table goes if it was left without a valid entry. */
    method Collapse(table: nat, slot: nat, next: nat, ghost k: Key)
      requires Owned() && k in tab && k.level < 3 && tab[k] == table && slot < 512 && Child(k, slot) in tab
      requires tab[Child(k, slot)] == next && Pruned(pages, tab, sl, {Child(k, slot)})
      modifies this`pages, this`tab, alloc.bits
      ensures Owned() && Pruned(pages, tab, sl, {k}) && Others() == old(Others())
      ensures Extends(tab, old(tab)) && forall j | j in old(tab) && j.level <= k.level :: j in tab
      ensures SameTrans(old(pages), old(tab), pages, tab) && SamePages(old(pages), pages, old(tab))
    {
      var all := AllInvalid(next);
      if all { Prune(table, slot, next, k); }
    }

    /** `stage2_unmap_page`: the page's entry goes, and with it each table this empties. A page that is
        not mapped is fatal, with nothing changed. */
    method UnmapPage(table: nat, level: int, vaddr: nat, ghost vpn: nat) returns (fatal: bool)
      requires Valid() && sl <= level <= 3 && Resolves(vaddr / 4096, sl, vpn) && At(vpn, level) in tab && tab[At(vpn, level)] == table
      modifies this`pages, this`tab, alloc.bits
      ensures fatal <==> !IsSet(old(T(vpn)))
      ensures Owned() && Pruned(pages, tab, sl, if fatal then {} else {At(vpn, level)})
      ensures fatal ==> pages == old(pages) && tab == old(tab)
      ensures !fatal ==> Remapped(old(pages), old(tab), pages, tab, vpn, ZERO)
      ensures Extends(tab, old(tab)) && Others() == old(Others())
      ensures forall k | k in old(tab) && k.level <= level :: k in tab
      ensures SamePages(old(pages), pages, old(tab))
      decreases 3 - level
    {
      ghost var k, slot := At(vpn, level), Slot(vpn, level);
      AtChild(vpn, level);
      assert EntryOk(pages, tab, off, k, slot);
      var cur := pages[table][Slot(vaddr / 4096, level)];
      if !cur.valid || cur.base == 0 {
        if level < 3 { NoTableNoTrans(pages, tab, sl, root, off, vpn, level + 1); }
        return true;
      }
      if level == 3 {
        WriteLeaf(table, Slot(vaddr / 4096, level), ZERO, vpn);
        return false;
      }
      var next := cur.base - off;
      fatal := UnmapPage(next, level + 1, vaddr, vpn);
      if fatal { return; }
      ghost var pages1, tab1 := pages, tab;
      Collapse(table, Slot(vaddr / 4096, level), next, k);
      CollapsedStep(old(pages), old(tab), pages1, tab1, pages, tab, vpn, level);
    }

    /** One page of the loop, seen from where the loop began. */
    method MapNext(va: nat, pa: nat, attr: int, acc: int, ghost vpn: nat, ghost i: nat, ghost v: nat, ghost need: set<Key>,
                   ghost p0: Pages, ghost t0: Tables, ghost others: set<nat>, ghost paddr: nat)
      requires Valid() && Resolves(va / 4096, sl, v) && v == vpn + i && pa == paddr + 4096 * i
      requires Within(v, sl + 1, need) && Budget(need, tab, alloc.Taken()) && Others() == others
      requires Mapped(p0, t0, pages, tab, vpn, i, paddr, attr, acc, sl)
      modifies this`pages, this`tab, alloc.bits
      ensures Valid() && Budget(need, tab, alloc.Taken()) && Others() == others
      ensures Mapped(p0, t0, pages, tab, vpn, i + 1, paddr, attr, acc, sl)
    {
      ghost var pages1, tab1 := pages, tab;
      Map4k(va, pa, attr, acc, v, need);
      MappedStep(p0, t0, pages1, tab1, pages, tab, vpn, i, paddr, attr, acc, v, pa, sl);
    }

    /** The loop of `stage2_map` over n pages. */
    method MapPages(vaddr: nat, paddr: nat, n: nat, attr: int, acc: int, ghost vpn: nat, ghost need: set<Key>)
      requires Valid() && vpn == vaddr / 4096 && Covered(vpn, n, sl)
      requires AllWithin(vpn, n, sl + 1, need) && Budget(need, tab, alloc.Taken())
      modifies this`pages, this`tab, alloc.bits
      ensures Valid() && Others() == old(Others()) && Budget(need, tab, alloc.Taken())
      ensures Mapped(old(pages), old(tab), pages, tab, vpn, n, paddr, attr, acc, sl)
    {
      hide Mapped, AllWithin, Covered, Budget, Within;
      var va, pa, i: nat := vaddr, paddr, 0;
      MappedStart(pages, tab, vpn, paddr, attr, acc, sl);
      while i < n
        invariant 0 <= i <= n && va == vaddr + 4096 * i && pa == paddr + 4096 * i
        invariant Valid() && Others() == old(Others()) && Budget(need, tab, alloc.Taken())
        invariant Mapped(old(pages), old(tab), pages, tab, vpn, i, paddr, attr, acc, sl)
      {
        ghost var v := vpn + i;
        CoveredAt(vaddr, vpn, n, sl, i, va, v);
        WithinAt(vpn, n, sl + 1, need, v);
        MapNext(va, pa, attr, acc, vpn, i, v, need, old(pages), old(tab), old(Others()), paddr);
        i, va, pa := i + 1, va + 4096, pa + 4096;
      }
    }

    /** `stage2_map` of a range the start level covers. */
    method MapRange(vaddr: nat, paddr: nat, size: nat, attr: int, acc: int, ghost need: set<Key>)
      requires Valid() && Covered(vaddr / 4096, PageCount(size), sl)
      requires AllWithin(vaddr / 4096, PageCount(size), sl + 1, need) && Budget(need, tab, alloc.Taken())
      modifies this`pages, this`tab, alloc.bits
      ensures Valid() && Extends(old(tab), tab) && Others() == old(Others()) && SamePages(old(pages), pages, tab)
      ensures MappedRange(old(pages), old(tab), pages, tab, vaddr / 4096, PageCount(size), paddr, attr, acc)
      ensures Made(vaddr / 4096, PageCount(size), sl + 1, old(tab), tab)
      ensures Budget(need, tab, alloc.Taken())
      ensures vaddr % 4096 == 0 && size <= 0xFFFF_FFFF_FFFF_F000 ==> OutsideKept(old(pages), old(tab), pages, tab, vaddr, size)
      ensures vaddr % 4096 == 0 && size <= 0xFFFF_FFFF_FFFF_F000 && paddr % 4096 == 0 ==>
        forall va: nat | vaddr <= va < vaddr + size :: Lands(pages, tab, vaddr, paddr, va)
    {
      MapPages(vaddr, paddr, PageCount(size), attr, acc, vaddr / 4096, need);
      if vaddr % 4096 == 0 && size <= 0xFFFF_FFFF_FFFF_F000 { BytesMapped(old(pages), old(tab), pages, tab, vaddr, paddr, size, attr, acc); }
    }

    /** The loop of `stage2_unmap` over n pages; fatal at the first page that is not mapped. */
    method UnmapPages(vaddr: nat, n: nat, ghost vpn: nat) returns (fatal: bool)
      requires Valid() && vpn == vaddr / 4096 && Covered(vpn, n, sl)
      modifies this`pages, this`tab, alloc.bits
      ensures Valid() && Extends(tab, old(tab)) && Others() == old(Others()) && SamePages(old(pages), pages, old(tab))
      ensures fatal <==> !AllSet(old(pages), old(tab), vpn, n)
      ensures !fatal ==> ClearedRange(old(pages), old(tab), pages, tab, vpn, n)
    {
      var va, i: nat := vaddr, 0;
      while i < n
        invariant 0 <= i <= n && va == vaddr + 4096 * i
        invariant Valid() && Extends(tab, old(tab)) && Others() == old(Others()) && SamePages(old(pages), pages, old(tab))
        invariant ClearedRange(old(pages), old(tab), pages, tab, vpn, i) && AllSet(old(pages), old(tab), vpn, i)
      {
        ghost var pages0, tab0, v := pages, tab, vpn + i;
        CoveredAt(vaddr, vpn, n, sl, i, va, v);
        assert T(v) == old(T(v));
        fatal := UnmapPage(root, sl, va, v);
        if fatal { return; }
        ExtendsStep(tab, tab0, old(tab));
        SamePagesStep(old(pages), pages0, old(tab), pages, old(tab));
        ClearedRangeStep(old(pages), old(tab), pages0, tab0, pages, tab, vpn, i);
        i, va := i + 1, va + 4096;
      }
      fatal := false;
    }

    /** `stage2_unmap` of a range the start level covers. */
    method UnmapRange(vaddr: nat, size: nat) returns (fatal: bool)
      requires Valid() && Covered(vaddr / 4096, PageCount(size), sl)
      modifies this`pages, this`tab, alloc.bits
      ensures Valid() && Extends(tab, old(tab)) && Others() == old(Others()) && SamePages(old(pages), pages, old(tab))
      ensures fatal <==> !AllSet(old(pages), old(tab), vaddr / 4096, PageCount(size))
      ensures !fatal ==> ClearedRange(old(pages), old(tab), pages, tab, vaddr / 4096, PageCount(size))
      ensures vaddr % 4096 == 0 && size <= 0xFFFF_FFFF_FFFF_F000 ==>
        (fatal <==> exists va: nat :: vaddr <= va < vaddr + size && !IsSet(Trans(old(pages), old(tab), va / 4096)))
      ensures vaddr % 4096 == 0 && size <= 0xFFFF_FFFF_FFFF_F000 && !fatal ==> OutsideKept(old(pages), old(tab), pages, tab, vaddr, size)
      ensures vaddr % 4096 == 0 && size <= 0xFFFF_FFFF_FFFF_F000 && !fatal ==>
        forall va: nat | vaddr <= va < vaddr + size :: !Trans(pages, tab, va / 4096).valid
    {
      fatal := UnmapPages(vaddr, PageCount(size), vaddr / 4096);
      if vaddr % 4096 == 0 && size <= 0xFFFF_FFFF_FFFF_F000 {
        BytesSet(old(pages), old(tab), vaddr, size);
        if !fatal { BytesCleared(old(pages), old(tab), pages, tab, vaddr, size); }
      }
    }

    /** Mapping a fresh range and unmapping it again restores every translation, the set of tables and the
        allocator's bitmap. It goes wrong exactly when some frame number is zero. */
    method MapThenUnmap(vaddr: nat, paddr: nat, size: nat, attr: int, acc: int) returns (fatal: bool)
      requires Valid() && Covered(vaddr / 4096, PageCount(size), sl)
      requires Budget(Needed(vaddr / 4096, PageCount(size), sl + 1), tab, alloc.Taken())
      requires Fresh(pages, tab, vaddr / 4096, PageCount(size))
      modifies this`pages, this`tab, alloc.bits
      ensures Valid() && (fatal <==> exists j: nat :: j < PageCount(size) && Frame(paddr, j) == 0)
      ensures paddr % 4096 == 0 && size <= 0xFFFF_FFFF_FFFF_F000 ==>
        (fatal <==> exists pa: nat :: paddr <= pa < paddr + size && pa / 4096 % 0x10_0000_0000 == 0)
      ensures !fatal ==> SameTrans(old(pages), old(tab), pages, tab) && tab == old(tab) && alloc.bits[..] == old(alloc.bits[..])
    {
      ghost var p0, t0, vpn, n, taken := pages, tab, vaddr / 4096, PageCount(size), alloc.Taken();
      if paddr % 4096 == 0 && size <= 0xFFFF_FFFF_FFFF_F000 { BytesFrameZero(paddr, size); }
      NeededWithin(vpn, n, sl + 1);
      MapRange(vaddr, paddr, size, attr, acc, Needed(vpn, n, sl + 1));
      ghost var p1, t1 := pages, tab;
      MappedSet(p0, t0, p1, t1, vpn, n, paddr, attr, acc);
      fatal := UnmapRange(vaddr, size);
      if !fatal {
        Restored(p0, t0, p1, t1, pages, tab, sl, root, off, vpn, n, paddr, attr, acc);
        SameWords(old(alloc.bits[..]), alloc.bits[..], tab.Values);
      }
    }
  }
}
