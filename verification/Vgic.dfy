/** The virtual GIC: a bounded queue of pending interrupts per vCPU, flushed into empty list registers, and
    the CPU-interface registers saved and restored on every switch. */
module Vgic {
  const MAX_PENDING: nat := 8
  const MAX_LRS: nat := 16
  const MAX_APRS: nat := 4
  const LR_PEND: nat := 0x4000_0000_0000_0000
  const LR_GROUP1: nat := 0x1000_0000_0000_0000
  const LR_PRIO_UNIT: nat := 0x1_0000_0000_0000
  const VINTID_RANGE: nat := 0x1_0000_0000
  const WORD: nat := 0x1_0000_0000_0000_0000

  // ----- list registers

  /** Neither pending (bit 62) nor active (bit 63). */
  predicate IsEmpty(lr: nat) {
    (lr / LR_PEND) % 4 == 0
  }

  /** In a 64-bit register these are the two highest bits. */
  lemma EmptyExactly(lr: nat)
    requires lr < WORD
    ensures IsEmpty(lr) <==> lr < 0x4000_0000_0000_0000
  {}

  function Vintid(lr: nat): nat { lr % VINTID_RANGE }

  /** A pending group-1 entry of priority 0xa0, not tied to a physical interrupt. The fields do not overlap,
      so their sum is their bitwise or. */
  function MakeLr(virq: int): nat {
    virq % VINTID_RANGE + LR_GROUP1 + LR_PEND + 0xA0 * LR_PRIO_UNIT
  }

  lemma MakeLrFields(virq: int)
    ensures var lr := MakeLr(virq);
      && lr < WORD && !IsEmpty(lr) && Vintid(lr) == virq % VINTID_RANGE
      && (lr / LR_PEND) % 4 == 1                 // pending, not active
      && (lr / (2 * LR_GROUP1)) % 2 == 0         // HW = 0
      && (lr / LR_GROUP1) % 2 == 1 && (lr / LR_PRIO_UNIT) % 0x100 == 0xA0
  {}

  /** Index of the lowest empty list register; |lrs| when there is none. */
  function FirstEmpty(lrs: seq<nat>): (i: nat)
    ensures i <= |lrs| && (i < |lrs| ==> IsEmpty(lrs[i])) && forall j | 0 <= j < i :: !IsEmpty(lrs[j])
  {
    if lrs == [] then 0 else if IsEmpty(lrs[0]) then 0 else 1 + FirstEmpty(lrs[1..])
  }

  /** The interrupts of q in the registers `slots`, one each, everything else as in before. */
  ghost predicate Placed(before: seq<nat>, after: seq<nat>, q: seq<int>, slots: seq<nat>) {
    && |after| == |before| && |slots| == |q|
    && (forall j | 0 <= j < |slots| :: slots[j] < |before| && IsEmpty(before[slots[j]]) && after[slots[j]] == MakeLr(q[j]))
    && (forall j, k | 0 <= j < k < |slots| :: slots[j] < slots[k])
    && (forall i | 0 <= i < |before| && i !in slots :: after[i] == before[i])
  }

  ghost predicate NoneEmpty(lrs: seq<nat>) {
    forall i | 0 <= i < |lrs| :: !IsEmpty(lrs[i])
  }

  /** The first interrupts of the queue went to empty registers, in order; the rest waits, and waits only
      because no register is empty. */
  ghost predicate Flushed(before: seq<nat>, after: seq<nat>, q: seq<int>, rest: seq<int>, slots: seq<nat>) {
    && |slots| <= |q| && rest == q[|slots|..] && Placed(before, after, q[..|slots|], slots)
    && (rest != [] ==> NoneEmpty(after))
  }

  function Empties(lrs: seq<nat>): set<nat> {
    set i: nat | i < |lrs| && IsEmpty(lrs[i])
  }

  /** What a flush moves: as many as there are, or as fit. */
  lemma FlushedCount(before: seq<nat>, after: seq<nat>, q: seq<int>, rest: seq<int>, slots: seq<nat>)
    requires Flushed(before, after, q, rest, slots)
    ensures |slots| == if |q| <= |Empties(before)| then |q| else |Empties(before)|
    ensures Empties(after) == Empties(before) - SlotSet(slots)
  {
    var used := SlotSet(slots);
    SlotsSize(slots);
    forall i: nat | i < |before| ensures IsEmpty(after[i]) <==> IsEmpty(before[i]) && i !in slots {
      if i in slots {
        var j :| 0 <= j < |slots| && slots[j] == i;
        MakeLrFields(q[j]);
      }
    }
    assert used <= Empties(before);
    SubsetSize(used, Empties(before));
    if rest == [] {
      assert |q| == |slots|;
    } else {
      assert Empties(before) == used;
    }
  }

  function SlotSet(slots: seq<nat>): set<nat> {
    set s | s in slots
  }

  lemma {:induction false} SlotsSize(slots: seq<nat>)
    requires forall j, k | 0 <= j < k < |slots| :: slots[j] < slots[k]
    ensures |SlotSet(slots)| == |slots|
  {
    if slots != [] {
      var n := |slots| - 1;
      var init := slots[..n];
      SlotsSize(init);
      assert slots == init + [slots[n]];
      assert slots[n] !in SlotSet(init);
      assert SlotSet(slots) == SlotSet(init) + {slots[n]};
    }
  }

  lemma {:induction false} SubsetSize(a: set<nat>, b: set<nat>)
    requires a <= b
    ensures |a| <= |b|
    decreases a
  {
    if x :| x in a { SubsetSize(a - {x}, b - {x}); }
  }

  /** One more interrupt goes to the lowest empty register. */
  lemma PlaceOne(before: seq<nat>, lrs: seq<nat>, q: seq<int>, slots: seq<nat>, s: nat, i: nat)
    requires |slots| == i < |q| && Placed(before, lrs, q[..i], slots) && AllBusyTo(lrs, slots)
    requires s == FirstEmpty(lrs) < |lrs|
    ensures Placed(before, lrs[s := MakeLr(q[i])], q[..i + 1], slots + [s]) && AllBusyTo(lrs[s := MakeLr(q[i])], slots + [s])
  {
    MakeLrFields(q[i]);
    forall j | 0 <= j < i ensures slots[j] < s && q[..i + 1][j] == q[..i][j] {}
    assert s !in slots;
  }

  /** No register up to the last one used is empty. */
  ghost predicate AllBusyTo(lrs: seq<nat>, slots: seq<nat>) {
    forall j, k | 0 <= j < |slots| && 0 <= k <= slots[j] && k < |lrs| :: !IsEmpty(lrs[k])
  }

  // ----- registers and saved state

  /** The CPU-interface registers a switch deals with. */
  datatype Image = Image(hcr: nat, vmcr: nat, ap0r: seq<nat>, ap1r: seq<nat>, lr: seq<nat>)

  /** ICH_HCR_EL2 with its enable bit set. */
  function Enabled(hcr: nat): nat { if hcr % 2 == 0 then hcr + 1 else hcr }

  /** Bit 0 is set, the bits above it stay. */
  lemma EnabledBits(hcr: nat)
    ensures Enabled(hcr) % 2 == 1 && Enabled(hcr) / 2 == hcr / 2
  {}

  /** VENG1 (bit 1), VEOIM (bit 9) and the priority mask 0xff (bits 31:24). */
  const DEFAULT_VMCR: nat := 2 + 512 + 0xFF * 0x100_0000

  function Zeros(n: nat): seq<nat> { seq(n, _ => 0) }

  /** The reset state: enabled, default VMCR, nothing active, no interrupt held. */
  function Reset(aprs: nat, lrs: nat): Image {
    Image(1, DEFAULT_VMCR, Zeros(aprs), Zeros(aprs), Zeros(lrs))
  }

  /** An image with n list registers: the ones it has, and empty ones where it has too few. */
  function Fitted(x: Image, n: nat): Image {
    x.(lr := if |x.lr| <= n then x.lr + Zeros(n - |x.lr|) else x.lr[..n])
  }

  /** A pCPU's CPU interface: lrCount list registers and aprCount active-priority registers of each group. */
  class CpuInterface {
    const lrCount: nat
    const aprCount: nat
    var hcr: nat
    var vmcr: nat
    var ap0r: seq<nat>
    var ap1r: seq<nat>
    var lr: seq<nat>

    ghost predicate Valid()
      reads this
    {
      && 0 < lrCount <= MAX_LRS && 0 < aprCount <= MAX_APRS
      && |lr| == lrCount && |ap0r| == aprCount && |ap1r| == aprCount
    }

    ghost function Regs(): Image
      reads this
    {
      Image(hcr, vmcr, ap0r, ap1r, lr)
    }

    /** `gic_vcpu_init_pcpu`; `vtr` is ICH_VTR_EL2. */
    constructor (vtr: nat)
      ensures lrCount == if vtr % 32 < MAX_LRS then vtr % 32 + 1 else MAX_LRS
      ensures Valid() && Regs() == Reset(aprCount, lrCount)
      ensures hcr == 1 && vmcr == 0xFF00_0202 && forall i | 0 <= i < lrCount :: lr[i] == 0
    {
      var n := if vtr % 32 + 1 < MAX_LRS then vtr % 32 + 1 else MAX_LRS;
      lrCount, aprCount := n, 1;
      hcr, vmcr, ap0r, ap1r, lr := 1, DEFAULT_VMCR, Zeros(1), Zeros(1), Zeros(n);
    }

    /** The loops that write the first n list registers, and the active-priority registers. */
    method LoadLrs(from: seq<nat>, n: nat)
      requires Valid() && n <= lrCount && n <= |from|
      modifies this`lr
      ensures Valid() && lr == from[..n] + old(lr)[n..]
    {
      var i := 0;
      while i < n
        invariant Valid() && 0 <= i <= n && lr == from[..i] + old(lr)[i..]
      {
        lr := lr[i := from[i]];
        i := i + 1;
      }
    }

    method LoadAprs(from0: seq<nat>, from1: seq<nat>)
      requires Valid() && aprCount <= |from0| && aprCount <= |from1|
      modifies this`ap0r, this`ap1r
      ensures Valid() && ap0r == from0[..aprCount] && ap1r == from1[..aprCount]
    {
      var i := 0;
      while i < aprCount
        invariant Valid() && 0 <= i <= aprCount
        invariant forall j | 0 <= j < i :: ap0r[j] == from0[j] && ap1r[j] == from1[j]
      {
        ap0r, ap1r := ap0r[i := from0[i]], ap1r[i := from1[i]];
        i := i + 1;
      }
    }

    /** The search of `gic_vcpu_flush_lr` for a free register. */
    method FindEmpty() returns (s: nat)
      ensures s == FirstEmpty(lr)
    {
      s := 0;
      while s < |lr|
        invariant 0 <= s <= |lr| && forall j | 0 <= j < s :: !IsEmpty(lr[j])
      {
        if IsEmpty(lr[s]) { break; }
        s := s + 1;
      }
      FirstEmptyIs(lr, s);
    }
  }

  lemma FirstEmptyIs(lrs: seq<nat>, i: nat)
    requires i <= |lrs| && (i < |lrs| ==> IsEmpty(lrs[i])) && forall j | 0 <= j < i :: !IsEmpty(lrs[j])
    ensures FirstEmpty(lrs) == i
  {}

  class VcpuGic {
    const pending: array<int>
    var count: nat
    var initialized: bool
    var hcr: nat
    var vmcr: nat
    var ap0r: seq<nat>
    var ap1r: seq<nat>
    var lr: seq<nat>
    var lrCount: nat

    ghost predicate Valid()
      reads this
    {
      pending.Length == MAX_PENDING && count <= MAX_PENDING && lrCount <= MAX_LRS && |lr| == MAX_LRS && |ap0r| == MAX_APRS && |ap1r| == MAX_APRS
    }

    /** Interrupts waiting for a list register, oldest first. */
    ghost function Queue(): seq<int>
      requires Valid()
      reads this, pending
    {
      pending[..count]
    }

    constructor ()
      ensures Valid() && fresh(pending) && Queue() == [] && !initialized
    {
      pending := new int[MAX_PENDING];
      count, initialized, hcr, vmcr, lrCount := 0, false, 0, 0, 0;
      ap0r, ap1r, lr := Zeros(MAX_APRS), Zeros(MAX_APRS), Zeros(MAX_LRS);
    }

    /** `gic_vcpu_inject_virq`: queued once; dropped when the queue is full. */
    method Inject(virq: int)
      requires Valid()
      modifies this`count, pending
      ensures Valid()
      ensures Queue() == if |old(Queue())| == MAX_PENDING || virq in old(Queue()) then old(Queue()) else old(Queue()) + [virq]
    {
      if count >= MAX_PENDING { return; }
      var i := 0;
      while i < count
        invariant 0 <= i <= count && virq !in pending[..i]
      {
        if pending[i] == virq { return; }
        i := i + 1;
      }
      assert pending[..count] == Queue();
      pending[count] := virq;
      count := count + 1;
    }

    /** `gic_vcpu_flush_lr`, compacting the queue in place. */
    method Flush(cpu: CpuInterface) returns (ghost slots: seq<nat>)
      requires Valid() && cpu.Valid()
      modifies this`count, pending, cpu`lr
      ensures Valid() && cpu.Valid()
      ensures Flushed(old(cpu.lr), cpu.lr, old(Queue()), Queue(), slots)
    {
      ghost var q, before := Queue(), cpu.lr;
      slots := [];
      var keep, i := 0, 0;
      while i < count
        invariant Valid() && |q| == count && 0 <= i <= count && 0 <= keep && keep + |slots| == i && cpu.Valid()
        invariant forall j | 0 <= j < keep :: pending[j] == q[|slots| + j]
        invariant forall j | i <= j < count :: pending[j] == q[j]
        invariant Placed(before, cpu.lr, q[..|slots|], slots) && AllBusyTo(cpu.lr, slots)
        invariant keep > 0 ==> NoneEmpty(cpu.lr)
      {
        var slot := cpu.FindEmpty();
        if slot == cpu.lrCount {
          pending[keep] := pending[i];
          keep := keep + 1;
        } else {
          PlaceOne(before, cpu.lr, q, slots, slot, i);
          cpu.lr := cpu.lr[slot := MakeLr(pending[i])];
          slots := slots + [slot];
        }
        i := i + 1;
      }
      count := keep;
    }

    /** The image a restore brings back. */
    ghost function Saved(aprs: nat): Image
      requires Valid() && aprs <= MAX_APRS
      reads this
    {
      Image(hcr, vmcr, ap0r[..aprs], ap1r[..aprs], lr[..lrCount])
    }

    /** `gic_vcpu_save`. */
    method Save(cpu: CpuInterface)
      requires Valid() && cpu.Valid()
      modifies this`hcr, this`vmcr, this`ap0r, this`ap1r, this`lr, this`lrCount, this`initialized
      ensures Valid() && initialized && Saved(cpu.aprCount) == cpu.Regs() && lrCount == cpu.lrCount
    {
      hcr, vmcr, lrCount := cpu.hcr, cpu.vmcr, cpu.lrCount;
      var i := 0;
      while i < cpu.aprCount
        invariant Valid() && 0 <= i <= cpu.aprCount
        invariant forall j | 0 <= j < i :: ap0r[j] == cpu.ap0r[j] && ap1r[j] == cpu.ap1r[j]
        invariant hcr == cpu.hcr && vmcr == cpu.vmcr && lrCount == cpu.lrCount
      {
        ap0r, ap1r := ap0r[i := cpu.ap0r[i]], ap1r[i := cpu.ap1r[i]];
        i := i + 1;
      }
      i := 0;
      while i < lrCount
        invariant Valid() && lrCount == cpu.lrCount && 0 <= i <= lrCount && forall j | 0 <= j < i :: lr[j] == cpu.lr[j]
        invariant hcr == cpu.hcr && vmcr == cpu.vmcr && ap0r[..cpu.aprCount] == cpu.ap0r && ap1r[..cpu.aprCount] == cpu.ap1r
      {
        lr := lr[i := cpu.lr[i]];
        i := i + 1;
      }
      initialized := true;
    }

    /** `gic_vcpu_restore`: the saved image with the interface enabled, or the reset state. */
    method Restore(cpu: CpuInterface)
      requires Valid() && cpu.Valid()
      modifies cpu`hcr, cpu`vmcr, cpu`ap0r, cpu`ap1r, cpu`lr
      ensures cpu.Valid()
      ensures initialized ==> cpu.Regs() == Fitted(Saved(cpu.aprCount), cpu.lrCount).(hcr := Enabled(hcr))
      ensures !initialized ==> cpu.Regs() == Reset(cpu.aprCount, cpu.lrCount)
      ensures cpu.hcr % 2 == 1 && cpu.hcr / 2 == (if initialized then hcr / 2 else 0)
      ensures cpu.vmcr == if initialized then vmcr else 0xFF00_0202
      ensures forall i | 0 <= i < cpu.lrCount :: cpu.lr[i] == if initialized && i < lrCount then lr[i] else 0
      ensures forall i | 0 <= i < cpu.aprCount ::
                if initialized then cpu.ap0r[i] == ap0r[i] && cpu.ap1r[i] == ap1r[i] else cpu.ap0r[i] == 0 && cpu.ap1r[i] == 0
    {
      EnabledBits(hcr);
      cpu.hcr := 0;
      cpu.LoadLrs(Zeros(cpu.lrCount), cpu.lrCount);
      if initialized {
        cpu.vmcr := vmcr;
        cpu.LoadAprs(ap0r, ap1r);
        cpu.LoadLrs(lr, if lrCount < cpu.lrCount then lrCount else cpu.lrCount);
        cpu.hcr := Enabled(hcr);
      } else {
        cpu.vmcr := DEFAULT_VMCR;
        cpu.LoadAprs(Zeros(cpu.aprCount), Zeros(cpu.aprCount));
        cpu.hcr := 1;
      }
    }
  }

  // ----- runs of a pCPU

  /** What happens on a pCPU: its guest leaves the interface in some state, someone queues an interrupt for a
      vCPU, the current vCPU's queue is flushed, another vCPU is switched to. */
  datatype Event = Guest(regs: Image) | Queued(i: nat, virq: int) | Flushing | Switch(j: nat)

  /** A pCPU's current vCPU (-1 before the first), its registers, the image each vCPU was last switched away
      with, and every vCPU's queue. */
  datatype Seen = Seen(current: int, regs: Image, away: map<int, Image>, queues: seq<seq<int>>)

  function Enqueued(q: seq<int>, virq: int): seq<int> {
    if |q| == MAX_PENDING || virq in q then q else q + [virq]
  }

  /** What vCPU j resumes with: the image it was switched away with, or on its first run the reset state. */
  function Resumed(s: Seen, j: int): Image {
    if j in s.away then s.away[j].(hcr := Enabled(s.away[j].hcr))
    else Reset(|s.regs.ap0r|, |s.regs.lr|)
  }

  /** From image x, only queued interrupts of vCPU j enter empty list registers. */
  ghost predicate FlushedFrom(x: Image, j: int, s: Seen, s': Seen) {
    && 0 <= j < |s.queues| && |s'.queues| == |s.queues|
    && s'.regs == x.(lr := s'.regs.lr)
    && (exists slots :: Flushed(x.lr, s'.regs.lr, s.queues[j], s'.queues[j], slots))
    && s'.queues == s.queues[j := s'.queues[j]]
  }

  predicate SameSizes(x: Image, y: Image) {
    |x.ap0r| == |y.ap0r| && |x.ap1r| == |y.ap1r| && |x.lr| == |y.lr|
  }

  /** One event; one that names no vCPU, or comes before the first switch, changes nothing. */
  ghost predicate Steps(e: Event, s: Seen, s': Seen) {
    match e
    case Guest(regs) => s' == if s.current >= 0 && SameSizes(regs, s.regs) then s.(regs := regs) else s
    case Queued(i, virq) => s' == if i < |s.queues| then s.(queues := s.queues[i := Enqueued(s.queues[i], virq)]) else s
    case Flushing =>
      if s.current >= 0 then s'.current == s.current && s'.away == s.away && FlushedFrom(s.regs, s.current, s, s')
      else s' == s
    case Switch(j) =>
      if j < |s.queues| && j != s.current then
        && s'.current == j && s'.away == (if s.current >= 0 then s.away[s.current := s.regs] else s.away)
        && FlushedFrom(Resumed(s, j), j, s, s')
      else s' == s
  }

  class Pcpu {
    const cpu: CpuInterface
    const vcpus: seq<VcpuGic>
    var current: int
    ghost var away: map<int, Image>
    ghost var queues: seq<seq<int>>

    ghost predicate Valid()
      reads this, cpu, vcpus, set v | v in vcpus :: v.pending
    {
      && cpu.Valid() && -1 <= current < |vcpus| && |queues| == |vcpus|
      && (forall i, j | 0 <= i < j < |vcpus| :: vcpus[i] != vcpus[j] && vcpus[i].pending != vcpus[j].pending)
      && (forall i | 0 <= i < |vcpus| :: vcpus[i].Valid() && vcpus[i].Queue() == queues[i] && Stored(vcpus[i], i))
    }

    /** The vCPU's saved state is what it was last switched away with. */
    ghost predicate Stored(v: VcpuGic, i: int)
      requires v.Valid() && cpu.Valid()
      reads this, cpu, v
    {
      && (v.initialized <==> i in away)
      && (i in away ==> v.lrCount == cpu.lrCount && v.Saved(cpu.aprCount) == away[i])
    }

    ghost function State(): Seen
      reads this, cpu
    {
      Seen(current, cpu.Regs(), away, queues)
    }

    /** A pCPU that has not run a vCPU yet, and vCPUs that have not run. */
    constructor (c: CpuInterface, vs: seq<VcpuGic>, ghost qs: seq<seq<int>>)
      requires c.Valid() && forall i, j | 0 <= i < j < |vs| :: vs[i] != vs[j] && vs[i].pending != vs[j].pending
      requires |qs| == |vs| && forall i | 0 <= i < |vs| :: vs[i].Valid() && !vs[i].initialized && vs[i].Queue() == qs[i]
      ensures Valid() && cpu == c && vcpus == vs && current == -1 && away == map[] && queues == qs
    {
      cpu, vcpus, current, away, queues := c, vs, -1, map[], qs;
    }

    method GuestRuns(regs: Image)
      requires Valid()
      modifies cpu`hcr, cpu`vmcr, cpu`ap0r, cpu`ap1r, cpu`lr
      ensures Valid() && Steps(Guest(regs), old(State()), State())
    {
      if current >= 0 && |regs.ap0r| == |cpu.ap0r| && |regs.ap1r| == |cpu.ap1r| && |regs.lr| == |cpu.lr| {
        cpu.hcr, cpu.vmcr, cpu.ap0r, cpu.ap1r, cpu.lr := regs.hcr, regs.vmcr, regs.ap0r, regs.ap1r, regs.lr;
      }
    }

    method QueueVirq(i: nat, virq: int)
      requires Valid()
      modifies this`queues, vcpus, set v | v in vcpus :: v.pending
      ensures Valid() && Steps(Queued(i, virq), old(State()), State())
    {
      if i < |vcpus| {
        vcpus[i].Inject(virq);
        queues := queues[i := Enqueued(queues[i], virq)];
      }
    }

    /** `gic_vcpu_flush_lr` for vCPU j, on registers x. */
    method FlushQueue(j: nat, ghost x: Image)
      requires Valid() && j < |vcpus| && cpu.Regs() == x
      modifies this`queues, vcpus, set v | v in vcpus :: v.pending, cpu`lr
      ensures Valid() && FlushedFrom(x, j, old(State()), State()) && current == old(current) && away == old(away)
    {
      ghost var slots := vcpus[j].Flush(cpu);
      queues := queues[j := vcpus[j].Queue()];
      assert Flushed(x.lr, cpu.lr, old(queues)[j], queues[j], slots);
    }

    /** `gic_vcpu_save` for the current vCPU. */
    method Leave()
      requires Valid()
      modifies this`away, vcpus
      ensures Valid() && away == if current >= 0 then old(away)[current := cpu.Regs()] else old(away)
      ensures forall i | 0 <= i < |vcpus| :: vcpus[i].count == old(vcpus[i].count)
    {
      if current >= 0 {
        vcpus[current].Save(cpu);
        away := away[current := cpu.Regs()];
      }
    }

    /** `gic_vcpu_restore` for vCPU j, which becomes the current one. */
    method Enter(j: nat)
      requires Valid() && j < |vcpus|
      modifies this`current, cpu`hcr, cpu`vmcr, cpu`ap0r, cpu`ap1r, cpu`lr
      ensures Valid() && State() == old(State()).(current := j, regs := old(Resumed(State(), j)))
    {
      ghost var s1 := State();
      vcpus[j].Restore(cpu);
      RestoredIs(s1, j);
      current := j;
    }

    /** The vCPU part of `__el2_switch_to`: save the old one, restore the new one, flush its queue. */
    method SwitchTo(j: nat)
      requires Valid()
      modifies this`current, this`away, this`queues, vcpus, set v | v in vcpus :: v.pending
      modifies cpu`hcr, cpu`vmcr, cpu`ap0r, cpu`ap1r, cpu`lr
      ensures Valid() && Steps(Switch(j), old(State()), State())
    {
      if j < |vcpus| && j != current {
        Leave();
        ghost var s1 := State();
        Enter(j);
        FlushQueue(j, Resumed(s1, j));
      }
    }

    /** What `gic_vcpu_restore` leaves in the registers. */
    lemma RestoredIs(s: Seen, j: nat)
      requires Valid() && j < |vcpus| && s.away == away && |s.regs.ap0r| == cpu.aprCount && |s.regs.lr| == cpu.lrCount
      requires vcpus[j].initialized ==> cpu.Regs() == Fitted(vcpus[j].Saved(cpu.aprCount), cpu.lrCount).(hcr := Enabled(vcpus[j].hcr))
      requires !vcpus[j].initialized ==> cpu.Regs() == Reset(cpu.aprCount, cpu.lrCount)
      ensures cpu.Regs() == Resumed(s, j)
    {
      assert Stored(vcpus[j], j);
    }

    method Do(e: Event)
      requires Valid()
      modifies this`current, this`away, this`queues, vcpus, set v | v in vcpus :: v.pending
      modifies cpu`hcr, cpu`vmcr, cpu`ap0r, cpu`ap1r, cpu`lr
      ensures Valid() && Steps(e, old(State()), State())
    {
      match e
      case Guest(regs) => GuestRuns(regs);
      case Queued(i, virq) => QueueVirq(i, virq);
      case Flushing => if current >= 0 { FlushQueue(current, cpu.Regs()); }
      case Switch(j) => SwitchTo(j);
    }

    /** Any run of guest activity, injected interrupts, flushes and switches. */
    method Run(es: seq<Event>) returns (ghost hist: seq<Seen>)
      requires Valid()
      modifies this`current, this`away, this`queues, vcpus, set v | v in vcpus :: v.pending
      modifies cpu`hcr, cpu`vmcr, cpu`ap0r, cpu`ap1r, cpu`lr
      ensures Valid() && Runs(es, hist) && hist[0] == old(State()) && hist[|es|] == State()
    {
      hist := [State()];
      for i := 0 to |es|
        invariant Valid() && |hist| == i + 1 && hist[0] == old(State()) && hist[i] == State()
        invariant forall k | 0 <= k < i :: Steps(es[k], hist[k], hist[k + 1])
      {
        Do(es[i]);
        hist := hist + [State()];
      }
    }
  }

  /** A history of states, one step per event. */
  ghost predicate Runs(es: seq<Event>, hist: seq<Seen>) {
    |hist| == |es| + 1 && forall k | 0 <= k < |es| :: Steps(es[k], hist[k], hist[k + 1])
  }

  /** vCPU i does not run from state k to state m. */
  ghost predicate Absent(hist: seq<Seen>, i: int, k: nat, m: nat)
    requires m < |hist|
  {
    forall l {:trigger hist[l].current} | k <= l <= m :: hist[l].current != i
  }

  /** While a vCPU does not run, the image it was switched away with stays. */
  lemma {:induction false} AwayStays(es: seq<Event>, hist: seq<Seen>, i: int, k: nat, m: nat)
    requires Runs(es, hist) && k <= m < |hist| && Absent(hist, i, k, m)
    ensures (i in hist[k].away <==> i in hist[m].away) && (i in hist[k].away ==> hist[m].away[i] == hist[k].away[i])
    decreases m - k
  {
    if k < m {
      assert Steps(es[m - 1], hist[m - 1], hist[m]) && hist[m - 1].current != i;
      AwayStays(es, hist, i, k, m - 1);
    }
  }

  /** The number of vCPUs and the sizes of the register files do not change. */
  lemma {:induction false} SizesStay(es: seq<Event>, hist: seq<Seen>, m: nat)
    requires Runs(es, hist) && m < |hist|
    ensures |hist[m].queues| == |hist[0].queues|
    decreases m
  {
    if m > 0 {
      assert Steps(es[m - 1], hist[m - 1], hist[m]);
      SizesStay(es, hist, m - 1);
    }
  }

  /** Over any run of switches: a vCPU that is switched away from at k and next switched to at m resumes with
      precisely the registers it had, the interface enabled (bit 0 of ICH_HCR_EL2), but for its queued
      interrupts that enter empty list registers. */
  lemma ResumesWhereLeft(es: seq<Event>, hist: seq<Seen>, i: int, k: nat, m: nat)
    requires Runs(es, hist) && 0 <= i < |hist[0].queues| && k < m < |es|
    requires hist[k].current == i && Absent(hist, i, k + 1, m) && es[m] == Switch(i)
    ensures var x, r := hist[k].regs, hist[m + 1].regs;
      && hist[m + 1].current == i && FlushedFrom(x.(hcr := r.hcr), i, hist[m], hist[m + 1])
      && r.hcr % 2 == 1 && r.hcr / 2 == x.hcr / 2 && r.vmcr == x.vmcr && r.ap0r == x.ap0r && r.ap1r == x.ap1r
  {
    EnabledBits(hist[k].regs.hcr);
    assert Steps(es[k], hist[k], hist[k + 1]) && hist[k + 1].current != i;
    assert Steps(es[m], hist[m], hist[m + 1]) && hist[m].current != i;
    SizesStay(es, hist, m);
    AwayStays(es, hist, i, k + 1, m);
  }

  /** A vCPU switched to for the first time starts from the reset state: ICH_HCR_EL2 is 1, group 1 is enabled
      with split EOI and priority mask 0xff, no priority is active, and only queued interrupts are held. */
  lemma StartsReset(es: seq<Event>, hist: seq<Seen>, i: int, m: nat)
    requires Runs(es, hist) && 0 <= i < |hist[0].queues| && m < |es|
    requires i !in hist[0].away && Absent(hist, i, 0, m) && es[m] == Switch(i)
    ensures var r := hist[m + 1].regs;
      && hist[m + 1].current == i && r.hcr == 1
      && r.vmcr / 2 % 2 == 1 && r.vmcr / 0x200 % 2 == 1 && r.vmcr / 0x100_0000 == 0xff && r.vmcr == 0xFF00_0202
      && (forall j | 0 <= j < |r.ap0r| :: r.ap0r[j] == 0) && (forall j | 0 <= j < |r.ap1r| :: r.ap1r[j] == 0)
    ensures exists lrs :: |lrs| == |hist[m].regs.lr| && (forall j | 0 <= j < |lrs| :: lrs[j] == 0)
              && FlushedFrom(hist[m + 1].regs.(lr := lrs), i, hist[m], hist[m + 1])
  {
    assert Steps(es[m], hist[m], hist[m + 1]) && hist[m].current != i;
    SizesStay(es, hist, m);
    AwayStays(es, hist, i, 0, m);
    var x := Reset(|hist[m].regs.ap0r|, |hist[m].regs.lr|);
    assert hist[m + 1].regs.(lr := x.lr) == x;
  }

  /** A queued interrupt waits at the end of its vCPU's queue, once, unless eight wait there already. */
  lemma QueuedOnce(es: seq<Event>, hist: seq<Seen>, k: nat, i: nat, virq: int)
    requires Runs(es, hist) && k < |es| && es[k] == Queued(i, virq) && i < |hist[k].queues|
    ensures var q, q' := hist[k].queues[i], hist[k + 1].queues[i];
      && |hist[k + 1].queues| == |hist[k].queues| && (virq in q' <==> virq in q || |q| != 8)
      && q <= q' && |q'| <= |q| + 1 && (virq in q ==> q' == q) && (q' != q ==> q'[|q|] == virq)
      && forall j | 0 <= j < |hist[k].queues| && j != i :: hist[k + 1].queues[j] == hist[k].queues[j]
  {
    assert Steps(es[k], hist[k], hist[k + 1]);
  }

  // ----- one interrupt, one register

  /** What each register holds: its interrupt, or -1. */
  function Held(lrs: seq<nat>): seq<int> {
    seq(|lrs|, i requires 0 <= i < |lrs| => if IsEmpty(lrs[i]) then -1 else Vintid(lrs[i]))
  }

  ghost predicate NoDuplicates(held: seq<int>) {
    forall i, j | 0 <= i < j < |held| && held[i] >= 0 :: held[i] != held[j]
  }

  ghost predicate Entered(before: seq<int>, after: seq<int>, q: seq<int>, slots: seq<nat>) {
    && |after| == |before| && |slots| == |q|
    && (forall j | 0 <= j < |slots| :: slots[j] < |before| && before[slots[j]] == -1 && after[slots[j]] == q[j])
    && (forall j, k | 0 <= j < k < |slots| :: slots[j] < slots[k])
    && (forall i | 0 <= i < |before| && i !in slots :: after[i] == before[i])
  }

  lemma PlacedEntered(before: seq<nat>, after: seq<nat>, q: seq<int>, slots: seq<nat>)
    requires Placed(before, after, q, slots) && forall x | x in q :: 0 <= x < VINTID_RANGE
    ensures Entered(Held(before), Held(after), q, slots)
  {
    forall j | 0 <= j < |slots| ensures Held(before)[slots[j]] == -1 && Held(after)[slots[j]] == q[j] {
      assert q[j] in q;
      MakeLrFields(q[j]);
    }
  }

  /** The queue has no duplicates, but a flush does not look at what the registers hold: interrupts stay in
      one register each exactly when none of those moved was still in one. */
  lemma FlushDuplicates(before: seq<nat>, after: seq<nat>, q: seq<int>, slots: seq<nat>)
    requires Placed(before, after, q, slots) && NoDuplicates(Held(before)) && forall x | x in q :: 0 <= x < VINTID_RANGE
    requires forall j, k | 0 <= j < k < |q| :: q[j] != q[k]
    ensures NoDuplicates(Held(after)) <==> forall x | x in q :: x !in Held(before)
  {
    PlacedEntered(before, after, q, slots);
    if x :| x in q && x in Held(before) {
      StillThere(Held(before), Held(after), q, slots, x);
    } else {
      StillOnce(Held(before), Held(after), q, slots);
    }
  }

  lemma StillThere(before: seq<int>, after: seq<int>, q: seq<int>, slots: seq<nat>, x: int)
    requires Entered(before, after, q, slots) && x in q && x in before && x >= 0
    ensures !NoDuplicates(after)
  {
    var j :| 0 <= j < |q| && q[j] == x;
    var i :| 0 <= i < |before| && before[i] == x;
    var k := slots[j];
    assert i !in slots && after[i] == x && after[k] == x;
    assert if i < k then after[i] == after[k] else after[k] == after[i];
  }

  lemma StillOnce(before: seq<int>, after: seq<int>, q: seq<int>, slots: seq<nat>)
    requires Entered(before, after, q, slots) && NoDuplicates(before)
    requires (forall x | x in q :: x >= 0 && x !in before) && forall j, k | 0 <= j < k < |q| :: q[j] != q[k]
    ensures NoDuplicates(after)
  {
    forall i, j | 0 <= i < j < |after| && after[i] >= 0 ensures after[i] != after[j] {
      if i in slots {
        var a :| 0 <= a < |slots| && slots[a] == i;
        assert q[a] in q;
        if j in slots {
          var b :| 0 <= b < |slots| && slots[b] == j;
          assert q[b] in q;
        }
      } else if j in slots {
        var b :| 0 <= b < |slots| && slots[b] == j;
        assert q[b] in q;
      }
    }
  }
}
