/** Guest memory regions and the demand-fault handler that fills the stage-2 tables from them. */
module GuestFault {
  import opened PageAlloc
  import opened Stage2Tree
  import opened Stage2

  const RANGE64: nat := 0x1_0000_0000_0000_0000

  /** An emulated device's operations; Absent when a region has no usable driver. */
  datatype Device = Absent | Present(canRead: bool, canWrite: bool)
  datatype Region = Region(gpa: nat, hpa: nat, size: nat, attr: int, dev: Device)

  datatype Outcome = Resume | NoCurrentVcpu | UnmappedIpa | NonMmioAccessFault | EmulateFailed | UnsupportedAbort

  // ----- regions

  predicate Holds(r: Region, a: nat) {
    r.gpa <= a < (r.gpa + r.size) % RANGE64
  }

  function IsOverlapping(gpa1: nat, size1: nat, gpa2: nat, size2: nat): bool {
    !((gpa1 + size1) % RANGE64 <= gpa2 || gpa1 >= (gpa2 + size2) % RANGE64)
  }

  /** Without wrap-around, two non-empty ranges overlap exactly when they share an address. */
  lemma OverlapIsSharing(r: Region, s: Region)
    requires r.gpa + r.size < RANGE64 && s.gpa + s.size < RANGE64 && r.size > 0 && s.size > 0
    ensures IsOverlapping(r.gpa, r.size, s.gpa, s.size) <==> exists a: nat :: Holds(r, a) && Holds(s, a)
  {
    if IsOverlapping(r.gpa, r.size, s.gpa, s.size) {
      var a := if r.gpa < s.gpa then s.gpa else r.gpa;
      assert Holds(r, a) && Holds(s, a);
    }
  }

  /** Index of the first region holding the address; |regions| when none does. */
  function FirstHolding(regions: seq<Region>, a: nat): (i: nat)
    ensures i <= |regions| && (i < |regions| ==> Holds(regions[i], a))
    ensures forall j | 0 <= j < i :: !Holds(regions[j], a)
  {
    if regions == [] then 0 else if Holds(regions[0], a) then 0 else 1 + FirstHolding(regions[1..], a)
  }

  lemma FirstHoldingIs(regions: seq<Region>, a: nat, i: nat)
    requires i <= |regions| && (i < |regions| ==> Holds(regions[i], a)) && forall j | 0 <= j < i :: !Holds(regions[j], a)
    ensures FirstHolding(regions, a) == i
  {}

  /** `guest_mem_find_region`. */
  method FindRegion(regions: seq<Region>, a: nat) returns (i: nat)
    ensures i == FirstHolding(regions, a)
  {
    i := 0;
    while i < |regions|
      invariant 0 <= i <= |regions| && forall j | 0 <= j < i :: !Holds(regions[j], a)
    {
      if Holds(regions[i], a) { break; }
      i := i + 1;
    }
    FirstHoldingIs(regions, a, i);
  }

  /** Page-aligned regions, no two of which `is_overlapping` rejects. */
  ghost predicate WellFormed(regions: seq<Region>) {
    && (forall i | 0 <= i < |regions| :: Aligned(regions[i]))
    && (forall i, j | 0 <= i < j < |regions| :: !IsOverlapping(regions[i].gpa, regions[i].size, regions[j].gpa, regions[j].size))
  }

  ghost predicate Aligned(r: Region) {
    && r.gpa % 4096 == 0 && r.size % 4096 == 0 && r.hpa % 4096 == 0 && r.size > 0
    && r.gpa + r.size < RANGE64 && r.hpa + r.size < RANGE64
  }

  /** At most one region holds an address, so the order of the list does not matter. */
  lemma HolderUnique(regions: seq<Region>, a: nat, i: nat)
    requires WellFormed(regions) && i < |regions| && Holds(regions[i], a)
    ensures FirstHolding(regions, a) == i
  {
    var k := FirstHolding(regions, a);
    assert k < i ==> !IsOverlapping(regions[k].gpa, regions[k].size, regions[i].gpa, regions[i].size);
  }

  /** A region holds a whole page or none of it. */
  lemma HoldsPage(r: Region, a: nat)
    requires Aligned(r)
    ensures Holds(r, a) <==> Holds(r, 4096 * (a / 4096))
  {
    assert r.gpa == 4096 * (r.gpa / 4096) && r.size == 4096 * (r.size / 4096);
  }

  lemma {:induction false} FirstHoldingPage(regions: seq<Region>, a: nat)
    requires forall i | 0 <= i < |regions| :: Aligned(regions[i])
    ensures FirstHolding(regions, a) == FirstHolding(regions, 4096 * (a / 4096))
  {
    if regions != [] {
      HoldsPage(regions[0], a);
      FirstHoldingPage(regions[1..], a);
    }
  }

  // ----- what the tables should say

  /** The leaf a region gives page v. */
  function Leaf(r: Region, v: nat): Entry
    requires r.gpa <= 4096 * v
  {
    MakeStage2Entry(r.hpa + (4096 * v - r.gpa), MEM_NORMAL_RW, r.attr)
  }

  /** The leaf the regions give page v; ZERO outside all of them. */
  function Wanted(regions: seq<Region>, v: nat): Entry {
    var i := FirstHolding(regions, 4096 * v);
    if i < |regions| then Leaf(regions[i], v) else ZERO
  }

  /** An installed leaf sends every address of its page to hpa + (ipa - gpa), with the region's access. */
  lemma WantedMeans(regions: seq<Region>, a: nat, i: nat)
    requires WellFormed(regions) && i < |regions| && Holds(regions[i], a) && regions[i].hpa + regions[i].size <= 0x1_0000_0000_0000
    ensures var e, r := Wanted(regions, a / 4096), regions[i];
      && e.valid && 4096 * e.base + a % 4096 == r.hpa + (a - r.gpa)
      && (e.af <==> r.attr != MEM_ACCESS_NONE) && (e.xn <==> r.attr == MEM_ACCESS_RW) && e.read && e.write
  {
    HoldsPage(regions[i], a);
    HolderUnique(regions, 4096 * (a / 4096), i);
    var r, v := regions[i], a / 4096;
    assert Wanted(regions, v) == Leaf(r, v);
    PageOffset(r.hpa, r.gpa, a);
  }

  lemma PageOffset(hpa: nat, gpa: nat, a: nat)
    requires hpa % 4096 == 0 && gpa % 4096 == 0 && gpa <= a && hpa + (a - gpa) < 0x1_0000_0000_0000
    ensures gpa <= 4096 * (a / 4096)
    ensures var pa := hpa + (4096 * (a / 4096) - gpa);
      pa / 4096 < 0x10_0000_0000 && 4096 * ((pa / 4096) % 0x10_0000_0000) + a % 4096 == hpa + (a - gpa)
  {
    var pa := hpa + (4096 * (a / 4096) - gpa);
    assert pa == 4096 * (hpa / 4096 + a / 4096 - gpa / 4096);
  }

  /** Every installed leaf is the one the regions give. */
  ghost predicate Agrees(regions: seq<Region>, pages: Pages, tab: Tables) {
    forall v: nat :: Trans(pages, tab, v) == ZERO || Trans(pages, tab, v) == Wanted(regions, v)
  }

  // ----- faults

  datatype Access = Access(ipa: nat, fetch: bool, write: bool)

  /** `fault_ipa`: HPFAR gives the page, FAR the offset in it. */
  function FaultIpa(hpfar: nat, far: nat): nat {
    ((hpfar / 16) % 0x10_0000_0000) * 4096 + far % 4096
  }

  /** The reported address is the one that faulted, for every 48-bit address. */
  lemma FaultIpaExact(ipa: nat, far: nat, low: nat)
    requires far % 4096 == ipa % 4096 && low < 16
    ensures FaultIpa(16 * (ipa / 4096) + low, far) == ipa <==> ipa < 0x1_0000_0000_0000
  {
    assert (16 * (ipa / 4096) + low) / 16 == ipa / 4096;
  }

  predicate IsTranslationFault(fsc: int) { 0x04 <= fsc <= 0x07 }
  predicate IsAccessFault(fsc: int) { 0x08 <= fsc <= 0x0B }

  /** Where a walk stops: the entry it stops at, all zero when that is invalid, and its level. */
  datatype Stop = Stop(e: Entry, level: int)

  /** The status code the hardware reports for it; 0 for none. A translation fault is 4 plus the level, an
      access flag fault 8 plus the level, a permission fault 12 plus the level. */
  function FaultOf(w: Stop, fetch: bool): int {
    if !w.e.valid then 4 + w.level else if !w.e.af then 8 + w.level else if fetch && w.e.xn then 12 + w.level else 0
  }

  /** The access goes to memory once its leaf is there. */
  predicate Direct(e: Entry, a: Access) {
    e.valid && e.af && !(a.fetch && e.xn)
  }

  predicate Emulates(r: Region, a: Access) {
    r.dev.Present? && if a.write then r.dev.canWrite else r.dev.canRead
  }

  /** The hardware's walk from a table of this level on. */
  function HardwareWalk(pages: Pages, off: nat, table: nat, vpn: nat, level: int): Stop
    decreases 4 - level
  {
    if level > 3 || table >= |pages| || Slot(vpn, level) >= |pages[table]| then Stop(ZERO, level)
    else
      var e := pages[table][Slot(vpn, level)];
      if !e.valid then Stop(ZERO, level)
      else if level == 3 then Stop(e, level)
      else if e.base < off then Stop(ZERO, level)
      else HardwareWalk(pages, off, e.base - off, vpn, level + 1)
  }

  /** The walk ends at the page's translation; where there is none, at the first table of its path that has no
      next one. */
  lemma {:induction false} HardwareWalkEnds(pages: Pages, tab: Tables, sl: int, root: nat, off: nat, vpn: nat, level: int)
    requires Tree(pages, tab, sl, root, off) && sl <= level <= 3 && At(vpn, level) in tab
    ensures var w := HardwareWalk(pages, off, tab[At(vpn, level)], vpn, level);
      && w.e == Trans(pages, tab, vpn) && level <= w.level <= 3 && At(vpn, w.level) in tab
      && (w.level < 3 ==> At(vpn, w.level + 1) !in tab && !w.e.valid)
    decreases 3 - level
  {
    var k, i := At(vpn, level), Slot(vpn, level);
    assert EntryOk(pages, tab, off, k, i);
    AtChild(vpn, level);
    if level == 3 {
      assert k == Key(3, vpn / 512) && i == vpn % 512;
    } else if Child(k, i) in tab {
      HardwareWalkEnds(pages, tab, sl, root, off, vpn, level + 1);
    } else {
      NoTableNoTrans(pages, tab, sl, root, off, vpn, level + 1);
    }
  }

  /** Installing the wanted leaf keeps the agreement. */
  lemma AgreesInstalled(regions: seq<Region>, p0: Pages, t0: Tables, p1: Pages, t1: Tables, v: nat)
    requires Agrees(regions, p0, t0) && Remapped(p0, t0, p1, t1, v, Wanted(regions, v))
    ensures Agrees(regions, p1, t1)
  {}

  /** Mapping one page from its region installs the wanted leaf. */
  lemma InstalledPage(regions: seq<Region>, p0: Pages, t0: Tables, p1: Pages, t1: Tables, v: nat, u: nat, i: nat, pa: nat)
    requires Agrees(regions, p0, t0) && i == FirstHolding(regions, 4096 * v) && i < |regions| && u == v
    requires pa == regions[i].hpa + (4096 * v - regions[i].gpa)
    requires MappedRange(p0, t0, p1, t1, u, 1, pa, MEM_NORMAL_RW, regions[i].attr)
    ensures Remapped(p0, t0, p1, t1, v, Wanted(regions, v)) && Agrees(regions, p1, t1)
  {
    assert Wanted(regions, v) == Leaf(regions[i], v) == MakeStage2Entry(pa, MEM_NORMAL_RW, regions[i].attr);
    assert Remapped(p0, t0, p1, t1, v, Wanted(regions, v));
    AgreesInstalled(regions, p0, t0, p1, t1, v);
  }

  lemma Untouched(regions: seq<Region>, p: Pages, t: Tables, v: nat)
    ensures Wanted(regions, v) != ZERO ==> Wanted(regions, v).valid
    ensures Trans(p, t, v) == Wanted(regions, v) ==> Remapped(p, t, p, t, v, Wanted(regions, v))
  {}

  // ----- runs of accesses

  /** The access ends well: straight to memory, or emulated. */
  predicate Servable(regions: seq<Region>, a: Access, emulated: bool) {
    var w := Wanted(regions, a.ipa / 4096);
    w != ZERO && (Direct(w, a) || (!w.af && !a.fetch && emulated && Emulable(regions, a)))
  }

  /** Which accesses these are: of memory, all but fetches from data regions; of a device (a region without
      access), data accesses that the device supports and that succeed; outside every region, none. */
  lemma ServableMeans(regions: seq<Region>, a: Access, emulated: bool, i: nat)
    requires WellFormed(regions) && i < |regions| && regions[i].gpa <= a.ipa < regions[i].gpa + regions[i].size
    ensures var r := regions[i];
      Servable(regions, a, emulated)
      <==> if r.attr == MEM_ACCESS_NONE
           then !a.fetch && emulated && r.dev.Present? && (if a.write then r.dev.canWrite else r.dev.canRead)
           else !(a.fetch && r.attr == MEM_ACCESS_RW)
  {
    var v := a.ipa / 4096;
    HoldsPage(regions[i], a.ipa);
    HolderUnique(regions, a.ipa, i);
    HolderUnique(regions, 4096 * v, i);
  }

  lemma NowhereServable(regions: seq<Region>, a: Access, emulated: bool)
    requires WellFormed(regions) && forall i | 0 <= i < |regions| :: !(regions[i].gpa <= a.ipa < regions[i].gpa + regions[i].size)
    ensures !Servable(regions, a, emulated)
  {
    FirstHoldingPage(regions, a.ipa);
  }

  function Touched(trace: seq<Access>): set<nat> {
    if trace == [] then {} else Touched(trace[..|trace| - 1]) + {trace[|trace| - 1].ipa / 4096}
  }

  /** How many accesses of the run are for a device. */
  function Traps(regions: seq<Region>, trace: seq<Access>): nat {
    if trace == [] then 0
    else
      var a := trace[|trace| - 1];
      Traps(regions, trace[..|trace| - 1]) + if Direct(Wanted(regions, a.ipa / 4096), a) then 0 else 1
  }

  /** Touched pages that had no leaf at first. */
  function Missing(touched: set<nat>, pages: Pages, tab: Tables): set<nat> {
    set v | v in touched && Trans(pages, tab, v) == ZERO
  }

  /** Exactly the touched pages have their wanted leaf. */
  ghost predicate Filled(regions: seq<Region>, p0: Pages, t0: Tables, p1: Pages, t1: Tables, touched: set<nat>) {
    forall v: nat :: Trans(p1, t1, v) == if v in touched then Wanted(regions, v) else Trans(p0, t0, v)
  }

  /** How far a run has come: leaves, faults and pc. */
  ghost predicate Progress(regions: seq<Region>, p0: Pages, t0: Tables, p1: Pages, t1: Tables, trace: seq<Access>, faults: nat, moved: int) {
    && Filled(regions, p0, t0, p1, t1, Touched(trace))
    && faults == |Missing(Touched(trace), p0, t0)| + Traps(regions, trace)
    && moved == 4 * Traps(regions, trace)
  }

  lemma Append(regions: seq<Region>, trace: seq<Access>, a: Access)
    ensures Touched(trace + [a]) == Touched(trace) + {a.ipa / 4096}
    ensures Traps(regions, trace + [a]) == Traps(regions, trace) + if Direct(Wanted(regions, a.ipa / 4096), a) then 0 else 1
  {
    assert (trace + [a])[..|trace|] == trace;
  }

  lemma FilledStep(regions: seq<Region>, p0: Pages, t0: Tables, p1: Pages, t1: Tables, p2: Pages, t2: Tables, touched: set<nat>, v: nat)
    requires Filled(regions, p0, t0, p1, t1, touched) && Remapped(p1, t1, p2, t2, v, Wanted(regions, v))
    ensures Filled(regions, p0, t0, p2, t2, touched + {v})
  {}

  lemma MissingInsert(touched: set<nat>, pages: Pages, tab: Tables, v: nat)
    ensures |Missing(touched + {v}, pages, tab)|
         == |Missing(touched, pages, tab)| + if v !in touched && Trans(pages, tab, v) == ZERO then 1 else 0
  {
    var m, m' := Missing(touched, pages, tab), Missing(touched + {v}, pages, tab);
    if v !in touched && Trans(pages, tab, v) == ZERO {
      assert m' == m + {v};
    } else {
      assert m' == m;
    }
  }

  /** One more access: the faults it takes are those the counts grow by. */
  lemma RunStep(regions: seq<Region>, p0: Pages, t0: Tables, p1: Pages, t1: Tables, p2: Pages, t2: Tables, trace: seq<Access>,
                faults: nat, moved: int, a: Access, emulated: bool, f: nat, served: bool, step: int, next: seq<Access>)
    requires Progress(regions, p0, t0, p1, t1, trace, faults, moved) && Servable(regions, a, emulated) && next == trace + [a]
    requires Converged(regions, p1, t1, p2, t2, a, emulated, f, served)
    requires step == if served && !Direct(Wanted(regions, a.ipa / 4096), a) then 4 else 0
    requires AllWanted(regions, trace)
    ensures served && Progress(regions, p0, t0, p2, t2, next, faults + f, moved + step)
  {
    Append(regions, trace, a);
    TouchedWanted(regions, trace);
    FilledStep(regions, p0, t0, p1, t1, p2, t2, Touched(trace), a.ipa / 4096);
    MissingInsert(Touched(trace), p0, t0, a.ipa / 4096);
  }

  ghost predicate AllWanted(regions: seq<Region>, trace: seq<Access>) {
    forall k | 0 <= k < |trace| :: Wanted(regions, trace[k].ipa / 4096) != ZERO
  }

  lemma {:induction false} TouchedWanted(regions: seq<Region>, trace: seq<Access>)
    requires AllWanted(regions, trace)
    ensures forall v | v in Touched(trace) :: Wanted(regions, v) != ZERO
  {
    if trace != [] { TouchedWanted(regions, trace[..|trace| - 1]); }
  }

  lemma PrefixNext(trace: seq<Access>, i: nat)
    requires i < |trace|
    ensures trace[..i + 1] == trace[..i] + [trace[i]]
  {}

  class GuestMm {
    const mm: Stage2Mm
    const regions: seq<Region>
    var pc: nat

    ghost predicate Valid()
      reads this, mm, mm.alloc, mm.alloc.bits
    {
      mm.Valid() && Agrees(regions, mm.pages, mm.tab) && forall i | 0 <= i < |regions| :: Aligned(regions[i])
    }

    constructor (m: Stage2Mm, rs: seq<Region>)
      requires m.Valid() && Agrees(rs, m.pages, m.tab) && forall i | 0 <= i < |rs| :: Aligned(rs[i])
      ensures Valid() && mm == m && regions == rs && pc == 0
    {
      mm, regions, pc := m, rs, 0;
    }

    /** The tables `need` names can still be paid for. */
    ghost predicate Affords(need: set<Key>)
      reads mm, mm.alloc, mm.alloc.bits
      requires mm.alloc.Valid()
    {
      Budget(need, mm.tab, mm.alloc.Taken())
    }

    /** `map_stage2_page`. */
    method MapStage2Page(hasVcpu: bool, ipa: nat, ghost need: set<Key>) returns (o: Outcome)
      requires Valid() && InRange(ipa / 4096, mm.sl) && Within(ipa / 4096, mm.sl + 1, need) && Affords(need)
      modifies mm`pages, mm`tab, mm.alloc.bits
      ensures Valid() && Affords(need)
      ensures o == if !hasVcpu then NoCurrentVcpu else if Wanted(regions, ipa / 4096) == ZERO then UnmappedIpa else Resume
      ensures o == Resume ==> Remapped(old(mm.pages), old(mm.tab), mm.pages, mm.tab, ipa / 4096, Wanted(regions, ipa / 4096))
      ensures o != Resume ==> SameTrans(old(mm.pages), old(mm.tab), mm.pages, mm.tab)
    {
      if !hasVcpu { return NoCurrentVcpu; }
      var i := FindRegion(regions, ipa);
      FirstHoldingPage(regions, ipa);
      if i == |regions| { return UnmappedIpa; }
      var r := regions[i];
      var aligned := 4096 * (ipa / 4096);
      var hpa := r.hpa + (aligned - r.gpa);
      OneCovered(ipa / 4096, mm.sl, need);
      mm.MapRange(aligned, hpa, 4096, MEM_NORMAL_RW, r.attr, need);
      InstalledPage(regions, old(mm.pages), old(mm.tab), mm.pages, mm.tab, ipa / 4096, aligned / 4096, i, hpa);
      return Resume;
    }

    /** `emulate_mmio_access`; `emulated` is whether the device's operation succeeds. */
    method EmulateMmioAccess(hasVcpu: bool, a: Access, emulated: bool) returns (o: Outcome)
      modifies this`pc
      ensures o == Resume <==> hasVcpu && emulated && Emulable(regions, a)
      ensures pc == old(pc) + if o == Resume then 4 else 0
    {
      if !hasVcpu { return NoCurrentVcpu; }
      var i := FindRegion(regions, a.ipa);
      if i == |regions| { return UnmappedIpa; }
      var r := regions[i];
      if r.dev.Absent? { return NonMmioAccessFault; }
      if a.write && !r.dev.canWrite { return EmulateFailed; }
      if !a.write && !r.dev.canRead { return EmulateFailed; }
      if !emulated { return EmulateFailed; }
      pc := pc + 4;
      return Resume;
    }

    /** `handle_instruction_abort` and `handle_data_abort`. */
    method HandleAbort(hasVcpu: bool, a: Access, fsc: int, emulated: bool, ghost need: set<Key>) returns (o: Outcome)
      requires Valid() && InRange(a.ipa / 4096, mm.sl) && Within(a.ipa / 4096, mm.sl + 1, need) && Affords(need)
      modifies mm`pages, mm`tab, mm.alloc.bits, this`pc
      ensures Valid() && Affords(need)
      ensures 4 <= fsc <= 7 ==> pc == old(pc) && (o == Resume <==> hasVcpu && Wanted(regions, a.ipa / 4096) != ZERO)
      ensures 4 <= fsc <= 7 && o == Resume ==>
        Remapped(old(mm.pages), old(mm.tab), mm.pages, mm.tab, a.ipa / 4096, Wanted(regions, a.ipa / 4096))
      ensures 4 <= fsc <= 7 && o != Resume ==> SameTrans(old(mm.pages), old(mm.tab), mm.pages, mm.tab)
      ensures !(4 <= fsc <= 7) ==> mm.pages == old(mm.pages) && mm.tab == old(mm.tab) && pc == old(pc) + if o == Resume then 4 else 0
      ensures 8 <= fsc <= 11 && !a.fetch ==> (o == Resume <==> hasVcpu && emulated && Emulable(regions, a))
      ensures !(4 <= fsc <= 7) && !(8 <= fsc <= 11 && !a.fetch) ==> o == UnsupportedAbort
    {
      if IsTranslationFault(fsc) {
        o := MapStage2Page(hasVcpu, a.ipa, need);
      } else if !a.fetch && IsAccessFault(fsc) {
        o := EmulateMmioAccess(hasVcpu, a, emulated);
      } else {
        o := UnsupportedAbort;
      }
    }

    /** The hardware tries an access once: it walks, and enters the handler with the walk's status code. */
    method Try(a: Access, emulated: bool, ghost need: set<Key>) returns (fsc: int, o: Outcome, ghost level: int)
      requires Valid() && InRange(a.ipa / 4096, mm.sl) && Within(a.ipa / 4096, mm.sl + 1, need) && Affords(need)
      modifies mm`pages, mm`tab, mm.alloc.bits, this`pc
      ensures Valid() && Affords(need) && mm.sl <= level <= 3
      ensures At(a.ipa / 4096, level) in old(mm.tab) && (level < 3 ==> At(a.ipa / 4096, level + 1) !in old(mm.tab))
      ensures old(mm.T(a.ipa / 4096)) == ZERO ==>
        fsc == 4 + level <= 7 && level >= 0 && pc == old(pc) &&
        Brought(regions, old(mm.pages), old(mm.tab), mm.pages, mm.tab, a.ipa / 4096, o == Resume)
      ensures old(mm.T(a.ipa / 4096)) != ZERO ==>
        var w := Wanted(regions, a.ipa / 4096);
        && old(mm.T(a.ipa / 4096)) == w && mm.pages == old(mm.pages) && mm.tab == old(mm.tab)
        && LeafCodes(w, a) == (if fsc == 0 then [] else [fsc]) && (fsc == 0 || fsc > 7)
        && (o == Resume <==> fsc == 0 || (fsc == 11 && !a.fetch && emulated && Emulable(regions, a)))
        && pc == old(pc) + if fsc != 0 && o == Resume then 4 else 0
    {
      HardwareWalkEnds(mm.pages, mm.tab, mm.sl, mm.root, mm.off, a.ipa / 4096, mm.sl);
      var found := HardwareWalk(mm.pages, mm.off, mm.root, a.ipa / 4096, mm.sl);
      level := found.level;
      fsc, o := FaultOf(found, a.fetch), Resume;
      assert found.e == mm.T(a.ipa / 4096);
      if fsc != 0 { o := HandleAbort(true, a, fsc, emulated, need); }
    }

    /** A guest access as the hardware drives it: walk, fault into the handler, retry, until it is served
        or the handler fails. The status codes are a translation fault of the level at which the page's path
        ended, if it had no leaf, and then the last-level fault its leaf raises, if any. */
    method GuestAccess(a: Access, emulated: bool, ghost need: set<Key>) returns (faults: nat, served: bool, ghost codes: seq<int>, ghost level: int)
      requires Valid() && InRange(a.ipa / 4096, mm.sl) && Within(a.ipa / 4096, mm.sl + 1, need) && Affords(need)
      modifies mm`pages, mm`tab, mm.alloc.bits, this`pc
      ensures Valid() && Affords(need)
      ensures Converged(regions, old(mm.pages), old(mm.tab), mm.pages, mm.tab, a, emulated, faults, served)
      ensures mm.sl <= level <= 3 && At(a.ipa / 4096, level) in old(mm.tab) && (level < 3 ==> At(a.ipa / 4096, level + 1) !in old(mm.tab))
      ensures |codes| == faults
      ensures codes == (if old(mm.T(a.ipa / 4096)) == ZERO then [4 + level] else []) + LeafCodes(Wanted(regions, a.ipa / 4096), a)
      ensures pc == old(pc) + if served && !Direct(Wanted(regions, a.ipa / 4096), a) then 4 else 0
    {
      hide Wanted, Tree, Budget;
      ghost var v, p0, t0 := a.ipa / 4096, mm.pages, mm.tab;
      ghost var w := Wanted(regions, v);
      faults, codes, level := 0, [], 0;
      Untouched(regions, p0, t0, v);
      while true
        invariant Valid() && Affords(need) && faults <= 1 && pc == old(pc)
        invariant faults == 0 ==> mm.pages == p0 && mm.tab == t0 && codes == []
        invariant faults == 1 ==> Trans(p0, t0, v) == ZERO && Brought(regions, p0, t0, mm.pages, mm.tab, v, true)
        invariant faults == 1 ==> codes == [4 + level] && mm.sl <= level <= 3 && At(v, level) in t0
        invariant faults == 1 && level < 3 ==> At(v, level + 1) !in t0
        decreases 2 - faults
      {
        var fsc, o, end := Try(a, emulated, need);
        if faults == 0 { level := end; }
        if fsc != 0 { faults, codes := faults + 1, codes + [fsc]; }
        if fsc == 0 || o != Resume || !IsTranslationFault(fsc) {
          served := fsc == 0 || o == Resume;
          return;
        }
      }
    }

    /** Demand paging converges: over any run of accesses that can be served, in any order, there is one
        fault per page that had no leaf and one per device access, and the pc moves past exactly the latter. */
    method Run(trace: seq<Access>, emulated: seq<bool>, ghost need: set<Key>) returns (faults: nat)
      requires Valid() && Affords(need) && |emulated| == |trace|
      requires forall k | 0 <= k < |trace| :: Servable(regions, trace[k], emulated[k])
      requires forall k | 0 <= k < |trace| :: InRange(trace[k].ipa / 4096, mm.sl) && Within(trace[k].ipa / 4096, mm.sl + 1, need)
      modifies mm`pages, mm`tab, mm.alloc.bits, this`pc
      ensures Valid() && Affords(need)
      ensures Progress(regions, old(mm.pages), old(mm.tab), mm.pages, mm.tab, trace, faults, pc - old(pc))
    {
      hide LeafCodes, Budget, Wanted, Tree, Direct;
      faults := 0;
      var i := 0;
      ghost var p0, t0 := mm.pages, mm.tab;
      assert AllWanted(regions, trace) by { assert forall k | 0 <= k < |trace| :: Servable(regions, trace[k], emulated[k]); }
      while i < |trace|
        invariant 0 <= i <= |trace| && Valid() && Affords(need) && AllWanted(regions, trace)
        invariant Progress(regions, p0, t0, mm.pages, mm.tab, trace[..i], faults, pc - old(pc))
      {
        ghost var p1, t1, pc1 := mm.pages, mm.tab, pc;
        var a := trace[i];
        assert Servable(regions, a, emulated[i]);
        var f, served, codes, level := GuestAccess(a, emulated[i], need);
        ghost var step, next := pc - pc1, trace[..i + 1];
        PrefixNext(trace, i);
        RunStep(regions, p0, t0, p1, t1, mm.pages, mm.tab, trace[..i], faults, pc1 - old(pc), a, emulated[i], f, served, step, next);
        faults := faults + f;
        i := i + 1;
      }
      assert trace[..i] == trace;
    }
  }

  /** What one access leads to: no fault once the leaf is there and lets it through, one to bring the leaf
      in, one for what the device emulates. */
  ghost predicate Converged(regions: seq<Region>, p0: Pages, t0: Tables, p1: Pages, t1: Tables, a: Access, emulated: bool,
                            faults: nat, served: bool) {
    var v := a.ipa / 4096;
    var w := Wanted(regions, v);
    if w == ZERO then
      faults == 1 && !served && SameTrans(p0, t0, p1, t1)
    else
      && Remapped(p0, t0, p1, t1, v, w)
      && faults == (if Trans(p0, t0, v) == ZERO then 1 else 0) + (if Direct(w, a) then 0 else 1)
      && (served <==> Direct(w, a) || (!w.af && !a.fetch && emulated && Emulable(regions, a)))
  }

  /** A translation fault brings in the wanted leaf, when there is one. */
  ghost predicate Brought(regions: seq<Region>, p0: Pages, t0: Tables, p1: Pages, t1: Tables, v: nat, resumed: bool) {
    && (resumed <==> Wanted(regions, v) != ZERO)
    && if resumed then Remapped(p0, t0, p1, t1, v, Wanted(regions, v)) else SameTrans(p0, t0, p1, t1)
  }

  /** The last-level fault an installed leaf raises, if any. */
  function LeafCodes(w: Entry, a: Access): seq<int> {
    if w == ZERO then [] else if !w.af then [11] else if a.fetch && w.xn then [15] else []
  }

  /** Some region holds the address and its device does this kind of access. */
  predicate Emulable(regions: seq<Region>, a: Access) {
    var i := FirstHolding(regions, a.ipa);
    i < |regions| && Emulates(regions[i], a)
  }

  lemma OneCovered(v: nat, sl: int, need: set<Key>)
    requires InRange(v, sl) && Within(v, sl + 1, need)
    ensures PageCount(4096) == 1 && Covered(v, 1, sl) && AllWithin(v, 1, sl + 1, need) && (4096 * v) / 4096 == v
  {}
}
