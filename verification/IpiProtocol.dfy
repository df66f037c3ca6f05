/** RISC-V inter-processor interrupts and virtual-interrupt delivery: pending bits, doorbells, completion
    counters and HVIP, one step per atomic access or locked section, in any interleaving. */
module IpiProtocol {
  const IPI_RESCHEDULE: nat := 0
  const IPI_MAX: nat := 4
  const COUNTER: nat := 0x1_0000_0000

  /** What a pCPU is in the middle of; traps do not nest, so it is one thing at a time. */
  datatype Act =
    | Idle
    | Owes(v: nat)                                            // asserted an interrupt, IPI not yet sent
    | Ringing(c: nat, vec: nat)                               // pending bit set, doorbell not yet rung
    | SyncRead(c: nat, vec: nat, before: nat)                 // synchronous send: counter read
    | SyncRinging(c: nat, vec: nat, before: nat, base: nat)   // bit set; base remembers the count at that time
    | Waiting(c: nat, vec: nat, before: nat, base: nat)
    | Cleared                                                 // handler: doorbell cleared
    | Dispatching(todo: set<nat>)                             // handler: pending bits taken
    | Switching(v: nat)                                       // next task picked, not yet published
    | Published                                               // next task published, HVIP not yet written

  datatype Opt = NoVcpu | The(v: nat)

  /** Per pCPU: activity, current vCPU, HVIP, doorbell, pending IPIs and handled counts; per vCPU: its pCPU
      and its durable pending interrupts. */
  datatype State = State(act: seq<Act>, cur: seq<Opt>, hvip: seq<set<nat>>, bell: seq<bool>, mail: seq<set<nat>>,
                         done: seq<seq<nat>>, home: seq<nat>, pend: seq<set<nat>>)

  ghost predicate Shaped(s: State) {
    var n := |s.act|;
    && |s.cur| == n && |s.hvip| == n && |s.bell| == n && |s.mail| == n && |s.done| == n
    && (forall c | 0 <= c < n :: |s.done[c]| == IPI_MAX)
    && |s.pend| == |s.home| && (forall v | 0 <= v < |s.home| :: s.home[v] < n)
    && (forall c | 0 <= c < n :: s.cur[c].The? ==> s.cur[c].v < |s.home| && s.home[s.cur[c].v] == c)
    && (forall c | 0 <= c < n :: ActShaped(s, c, s.act[c]))
  }

  /** Targets are in range, and a task is switched to on its own pCPU only. */
  predicate ActShaped(s: State, c: int, a: Act) {
    match a
    case Owes(v) => v < |s.home|
    case Ringing(d, vec) => d < |s.act| && vec < IPI_MAX
    case SyncRead(d, vec, _) => d < |s.act| && vec < IPI_MAX
    case SyncRinging(d, vec, _, _) => d < |s.act| && vec < IPI_MAX
    case Waiting(d, vec, _, _) => d < |s.act| && vec < IPI_MAX
    case Switching(v) => v < |s.home| && s.home[v] == c
    case _ => true
  }

  datatype Event =
    | Assert(a: nat, v: nat, b: nat)       // riscv_virt_irq_assert
    | Clear(a: nat, v: nat, b: nat)        // riscv_virt_irq_clear
    | SendOwed(a: nat)                     // the reschedule IPI that follows an assert
    | Send(a: nat, c: nat, vec: nat)       // ipi_send_cpu
    | Ring(a: nat)                         // sbi_send_ipi
    | ReadCount(a: nat, c: nat, vec: nat)  // riscv_ipi_send_cpu_sync to another pCPU
    | SetSync(a: nat)
    | Poll(a: nat)                         // the wait loop looks once; it returns 0 if the count moved
    | Timeout(a: nat)
    | HandleSelf(a: nat, vec: nat)         // riscv_ipi_send_cpu_sync to oneself
    | ClearBell(c: nat)                    // handle_s_soft_irq, from its start ...
    | Take(c: nat)
    | Handle(c: nat, vec: nat)
    | Materialize(c: nat)                  // ... to riscv_virt_irq_materialize_current
    | Switch(c: nat, v: nat)               // sched_yield picks the next task
    | ZeroHvip(c: nat)                     // vcpu_context_save and vcpu_context_restore
    | Publish(c: nat)                      // set_current
    | MaterializeNext(c: nat)              // riscv_virt_irq_materialize(next)

  function Became(s: State, c: nat, a: Act): State
    requires c < |s.act|
  {
    s.(act := s.act[c := a])
  }

  function Posted(s: State, c: nat, vec: nat): State
    requires c < |s.mail|
  {
    s.(mail := s.mail[c := s.mail[c] + {vec}])
  }

  function Handled(s: State, c: nat, vec: nat): State
    requires c < |s.done| && vec < |s.done[c]|
  {
    s.(done := s.done[c := s.done[c][vec := s.done[c][vec] + 1]])
  }

  function Projected(s: State, c: nat): State
    requires c < |s.hvip| && c < |s.cur| && (s.cur[c].The? ==> s.cur[c].v < |s.pend|)
  {
    if s.cur[c].The? then s.(hvip := s.hvip[c := s.pend[s.cur[c].v]]) else s
  }

  /** Whether the event can happen now. */
  ghost predicate Enabled(s: State, e: Event)
    requires Shaped(s)
  {
    match e
    case Assert(a, v, b) =>
      && a < |s.act| && v < |s.home| && b < 64
      && (s.act[a].Idle? || ((s.act[a].Published? || s.act[a].Dispatching?) && s.cur[a] == The(v)))
    case Clear(a, v, b) => a < |s.act| && v < |s.home| && b < 64
    case SendOwed(a) => a < |s.act| && s.act[a].Owes?
    case Send(a, c, vec) => a < |s.act| && s.act[a].Idle? && c < |s.act| && vec < IPI_MAX
    case Ring(a) => a < |s.act| && (s.act[a].Ringing? || s.act[a].SyncRinging?)
    case ReadCount(a, c, vec) => a < |s.act| && s.act[a].Idle? && c < |s.act| && c != a && vec < IPI_MAX
    case SetSync(a) => a < |s.act| && s.act[a].SyncRead?
    case Poll(a) => a < |s.act| && s.act[a].Waiting?
    case Timeout(a) => a < |s.act| && s.act[a].Waiting?
    case HandleSelf(a, vec) => a < |s.act| && s.act[a].Idle? && vec < IPI_MAX
    case ClearBell(c) => c < |s.act| && s.act[c].Idle? && s.bell[c]
    case Take(c) => c < |s.act| && s.act[c].Cleared?
    case Handle(c, vec) => c < |s.act| && s.act[c].Dispatching? && vec in s.act[c].todo && vec < IPI_MAX
    case Materialize(c) => c < |s.act| && s.act[c].Dispatching? && forall vec | vec in s.act[c].todo :: vec >= IPI_MAX
    case Switch(c, v) => c < |s.act| && s.act[c].Idle? && v < |s.home| && s.home[v] == c && s.cur[c] != The(v)
    case ZeroHvip(c) => c < |s.act| && s.act[c].Switching?
    case Publish(c) => c < |s.act| && s.act[c].Switching?
    case MaterializeNext(c) => c < |s.act| && s.act[c].Published?
  }

  ghost function Step(s: State, e: Event): State
    requires Shaped(s) && Enabled(s, e)
  {
    match e
    case Assert(a, v, b) =>
      var s1 := s.(pend := s.pend[v := s.pend[v] + {b}]);
      if s.cur[a] == The(v) then s1.(hvip := s.hvip[a := s.hvip[a] + {b}]) else Became(s1, a, Owes(v))
    case Clear(a, v, b) =>
      var s1 := s.(pend := s.pend[v := s.pend[v] - {b}]);
      if s.cur[a] == The(v) then s1.(hvip := s.hvip[a := s.hvip[a] - {b}]) else s1
    case SendOwed(a) =>
      var c := s.home[s.act[a].v];
      Became(Posted(s, c, IPI_RESCHEDULE), a, Ringing(c, IPI_RESCHEDULE))
    case Send(a, c, vec) => Became(Posted(s, c, vec), a, Ringing(c, vec))
    case Ring(a) =>
      var x := s.act[a];
      Became(s.(bell := s.bell[x.c := true]), a, if x.Ringing? then Idle else Waiting(x.c, x.vec, x.before, x.base))
    case ReadCount(a, c, vec) => Became(s, a, SyncRead(c, vec, s.done[c][vec] % COUNTER))
    case SetSync(a) =>
      var x := s.act[a];
      Became(Posted(s, x.c, x.vec), a, SyncRinging(x.c, x.vec, x.before, s.done[x.c][x.vec]))
    case Poll(a) => if ReturnsZero(s, a) then Became(s, a, Idle) else s
    case Timeout(a) => Became(s, a, Idle)
    case HandleSelf(a, vec) => Handled(s, a, vec)
    case ClearBell(c) => Became(s.(bell := s.bell[c := false]), c, Cleared)
    case Take(c) => Became(s.(mail := s.mail[c := {}]), c, Dispatching(s.mail[c]))
    case Handle(c, vec) => Became(Handled(s, c, vec), c, Dispatching(s.act[c].todo - {vec}))
    case Materialize(c) => Became(Projected(s, c), c, Idle)
    case Switch(c, v) => Became(s, c, Switching(v))
    case ZeroHvip(c) => s.(hvip := s.hvip[c := {}])
    case Publish(c) => Became(s.(cur := s.cur[c := The(s.act[c].v)]), c, Published)
    case MaterializeNext(c) => Became(Projected(s, c), c, Idle)
  }

  /** The wait loop of the synchronous send ends with success. */
  ghost predicate ReturnsZero(s: State, a: nat)
    requires Shaped(s) && a < |s.act|
  {
    s.act[a].Waiting? && s.done[s.act[a].c][s.act[a].vec] % COUNTER != s.act[a].before
  }

  /** An event keeps every sequence's length and the home of every vCPU. */
  lemma StepSizes(s: State, e: Event)
    requires Shaped(s) && Enabled(s, e)
    ensures var s', n := Step(s, e), |s.act|;
      && |s'.act| == n && |s'.cur| == n && |s'.hvip| == n && |s'.bell| == n && |s'.mail| == n && |s'.done| == n
      && s'.home == s.home && |s'.pend| == |s.pend|
  {}

  lemma StepCounts(s: State, e: Event, c: nat)
    requires Shaped(s) && Enabled(s, e) && c < |s.done| && c < |Step(s, e).done|
    ensures |Step(s, e).done[c]| == IPI_MAX
  {}

  lemma StepCur(s: State, e: Event, c: nat)
    requires Shaped(s) && Enabled(s, e) && c < |s.act| && c < |Step(s, e).cur|
    ensures var x := Step(s, e).cur[c]; x.The? ==> x.v < |s.home| && s.home[x.v] == c
  {
    assert ActShaped(s, c, s.act[c]);
  }

  lemma StepAct(s: State, e: Event, c: nat)
    requires Shaped(s) && Enabled(s, e) && c < |s.act| && c < |Step(s, e).act|
    ensures ActShaped(s, c, Step(s, e).act[c])
  {
    assert ActShaped(s, c, s.act[c]);
  }

  lemma StepShaped(s: State, e: Event)
    requires Shaped(s) && Enabled(s, e)
    ensures Shaped(Step(s, e))
  {
    var s' := Step(s, e);
    StepSizes(s, e);
    forall c: nat | c < |s.act| ensures |s'.done[c]| == IPI_MAX { StepCounts(s, e, c); }
    forall c: nat | c < |s.act| ensures s'.cur[c].The? ==> s'.cur[c].v < |s.home| && s.home[s'.cur[c].v] == c {
      StepCur(s, e, c);
    }
    forall c: nat | c < |s.act| ensures ActShaped(s', c, s'.act[c]) {
      StepAct(s, e, c);
      assert ActShaped(s', c, s'.act[c]) == ActShaped(s, c, s'.act[c]);
    }
  }

  // ----- the mailbox

  predicate Rings(x: Act, c: nat) {
    (x.Ringing? || x.SyncRinging?) && x.c == c
  }

  /** Some sender has set a bit for the pCPU and is about to ring. */
  ghost predicate Knocking(act: seq<Act>, c: nat) {
    exists a :: 0 <= a < |act| && Rings(act[a], c)
  }

  ghost predicate MailOk(s: State, c: nat)
    requires Shaped(s) && c < |s.act|
  {
    s.mail[c] != {} ==> s.bell[c] || Knocking(s.act, c) || s.act[c].Cleared?
  }

  /** Only ringing ends knocking. */
  lemma KnockingKeeps(act: seq<Act>, i: nat, x: Act, c: nat)
    requires i < |act| && Knocking(act, c) && (Rings(act[i], c) ==> Rings(x, c))
    ensures Knocking(act[i := x], c)
  {
    var a :| 0 <= a < |act| && Rings(act[a], c);
    assert Rings(act[i := x][a], c);
  }

  lemma KnocksNow(act: seq<Act>, i: nat, x: Act, c: nat)
    requires i < |act| && Rings(x, c)
    ensures Knocking(act[i := x], c)
  {
    assert Rings(act[i := x][i], c);
  }

  /** The pCPU whose activity an event changes. */
  function Actor(e: Event): nat {
    match e
    case Assert(a, _, _) => a
    case Clear(a, _, _) => a
    case SendOwed(a) => a
    case Send(a, _, _) => a
    case Ring(a) => a
    case ReadCount(a, _, _) => a
    case SetSync(a) => a
    case Poll(a) => a
    case Timeout(a) => a
    case HandleSelf(a, _) => a
    case ClearBell(c) => c
    case Take(c) => c
    case Handle(c, _) => c
    case Materialize(c) => c
    case Switch(c, _) => c
    case ZeroHvip(c) => c
    case Publish(c) => c
    case MaterializeNext(c) => c
  }

  /** Knocking at c goes on unless the step is the ringing, which leaves the doorbell set. */
  lemma StepKnocking(s: State, e: Event, c: nat)
    requires Shaped(s) && Enabled(s, e) && c < |s.act| && (s.bell[c] || Knocking(s.act, c))
    ensures var s' := Step(s, e); s'.bell[c] || Knocking(s'.act, c) || (e == ClearBell(c) && s'.act[c].Cleared?)
  {
    var s', a := Step(s, e), Actor(e);
    assert s'.act == s.act[a := s'.act[a]];
    if Knocking(s.act, c) && !s'.bell[c] {
      KnockingKeeps(s.act, a, s'.act[a], c);
    }
  }

  lemma StepMail(s: State, e: Event, c: nat)
    requires Shaped(s) && Enabled(s, e) && c < |s.act| && MailOk(s, c)
    ensures Shaped(Step(s, e)) && MailOk(Step(s, e), c)
  {
    StepShaped(s, e);
    var s', a := Step(s, e), Actor(e);
    if s.bell[c] || Knocking(s.act, c) { StepKnocking(s, e, c); }
    if s'.mail[c] != {} && s.mail[c] != s'.mail[c] {
      assert s'.act == s.act[a := s'.act[a]];
      KnocksNow(s.act, a, s'.act[a], c);
    }
  }

  // ----- virtual interrupts

  /** Someone asserted an interrupt of v and still has the IPI to send. */
  ghost predicate Owed(act: seq<Act>, v: nat) {
    exists a :: 0 <= a < |act| && act[a] == Owes(v)
  }

  /** The pCPU will write HVIP from the durable image: an IPI is on its way, being handled, or a switch is
      under way. */
  ghost predicate Coming(s: State, c: nat)
    requires Shaped(s) && c < |s.act|
  {
    || s.bell[c] || Knocking(s.act, c) || s.act[c].Cleared? || s.act[c].Dispatching?
    || s.act[c].Switching? || s.act[c].Published?
  }

  /** No pending bit of the running vCPU is missing from HVIP for good. */
  ghost predicate NotStranded(s: State, c: nat)
    requires Shaped(s) && c < |s.act|
  {
    s.cur[c].The? && !(s.pend[s.cur[c].v] <= s.hvip[c]) ==> Coming(s, c) || Owed(s.act, s.cur[c].v)
  }

  lemma OwedKeeps(act: seq<Act>, i: nat, x: Act, v: nat)
    requires i < |act| && Owed(act, v) && (act[i] == Owes(v) ==> x == Owes(v))
    ensures Owed(act[i := x], v)
  {
    var a :| 0 <= a < |act| && act[a] == Owes(v);
    assert act[i := x][a] == Owes(v);
  }

  lemma OwedNow(act: seq<Act>, i: nat, v: nat)
    requires i < |act|
    ensures Owed(act[i := Owes(v)], v)
  {
    assert act[i := Owes(v)][i] == Owes(v);
  }

  /** What is coming stays coming until HVIP is written. */
  lemma StepComing(s: State, e: Event, c: nat)
    requires Shaped(s) && Enabled(s, e) && c < |s.act| && Coming(s, c)
    ensures Shaped(Step(s, e))
    ensures Coming(Step(s, e), c) || e == Materialize(c) || e == MaterializeNext(c)
  {
    StepShaped(s, e);
    if s.bell[c] || Knocking(s.act, c) { StepKnocking(s, e, c); }
  }

  /** What is owed stays owed until it is sent, to the pCPU the vCPU runs on. */
  lemma StepOwed(s: State, e: Event, v: nat)
    requires Shaped(s) && Enabled(s, e) && v < |s.home| && Owed(s.act, v)
    ensures Shaped(Step(s, e))
    ensures Owed(Step(s, e).act, v) || Knocking(Step(s, e).act, s.home[v])
  {
    StepShaped(s, e);
    var s', a := Step(s, e), Actor(e);
    assert s'.act == s.act[a := s'.act[a]];
    if s.act[a] == Owes(v) && e.SendOwed? {
      KnocksNow(s.act, a, s'.act[a], s.home[v]);
    } else {
      OwedKeeps(s.act, a, s'.act[a], v);
    }
  }

  lemma StepStranded(s: State, e: Event, c: nat)
    requires Shaped(s) && Enabled(s, e) && c < |s.act| && NotStranded(s, c)
    ensures Shaped(Step(s, e)) && NotStranded(Step(s, e), c)
  {
    StepShaped(s, e);
    var s', a := Step(s, e), Actor(e);
    if e != Publish(c) && s.cur[c].The? {
      var v := s.cur[c].v;
      if Coming(s, c) { StepComing(s, e, c); }
      if Owed(s.act, v) { StepOwed(s, e, v); }
      if e.Assert? && e.v == v && s.cur[e.a] != The(v) { OwedNow(s.act, a, v); }
    }
  }

  // ----- the synchronous send

  /** A synchronous request for the vector of pCPU c, from reading the count to returning. */
  predicate Requests(x: Act, c: nat, vec: nat) {
    (x.SyncRead? || x.SyncRinging? || x.Waiting?) && x.c == c && x.vec == vec
  }

  /** The vector is posted, about to be handled, or being waited for. */
  ghost predicate Outstanding(s: State, c: nat, vec: nat)
    requires Shaped(s) && c < |s.act|
  {
    Posting(s, c, vec) || exists a :: 0 <= a < |s.act| && Requests(s.act[a], c, vec)
  }

  ghost predicate Posting(s: State, c: nat, vec: nat)
    requires Shaped(s) && c < |s.act|
  {
    vec in s.mail[c] || (s.act[c].Dispatching? && vec in s.act[c].todo)
  }

  /** The event opens a request for the vector. */
  ghost predicate Opens(s: State, e: Event, c: nat, vec: nat)
    requires Shaped(s) && Enabled(s, e)
  {
    match e
    case Send(_, d, w) => d == c && w == vec
    case SendOwed(a) => s.home[s.act[a].v] == c && vec == IPI_RESCHEDULE
    case ReadCount(_, d, w) => d == c && w == vec
    case HandleSelf(a, w) => a == c && w == vec
    case _ => false
  }

  /** At most one request for the vector is outstanding. */
  ghost predicate Exclusive(s: State, e: Event, c: nat, vec: nat)
    requires Shaped(s) && Enabled(s, e) && c < |s.act|
  {
    Opens(s, e, c, vec) ==> !Outstanding(s, c, vec)
  }

  /** The requester's view of the count is the count at the time its bit was set. */
  ghost predicate RequestOk(s: State, c: nat, vec: nat, x: Act)
    requires Shaped(s) && c < |s.act| && vec < IPI_MAX
  {
    Requests(x, c, vec) ==>
      if x.SyncRead? then !Posting(s, c, vec) && x.before == s.done[c][vec] % COUNTER
      else x.before == x.base % COUNTER && x.base <= s.done[c][vec]
  }

  ghost predicate SyncOk(s: State, c: nat, vec: nat)
    requires Shaped(s) && c < |s.act| && vec < IPI_MAX
  {
    && (forall a, b | 0 <= a < |s.act| && 0 <= b < |s.act| && Requests(s.act[a], c, vec) && Requests(s.act[b], c, vec) :: a == b)
    && (forall a | 0 <= a < |s.act| :: RequestOk(s, c, vec, s.act[a]))
  }

  /** The count only grows, and only by handling a vector that was posted or opened just now. */
  lemma StepDone(s: State, e: Event, c: nat, vec: nat)
    requires Shaped(s) && Enabled(s, e) && c < |s.act| && vec < IPI_MAX
    ensures Shaped(Step(s, e)) && s.done[c][vec] <= Step(s, e).done[c][vec]
    ensures !Posting(s, c, vec) && !Opens(s, e, c, vec) ==> Step(s, e).done[c][vec] == s.done[c][vec]
    ensures !Posting(s, c, vec) && !Opens(s, e, c, vec) && !e.SetSync? ==> !Posting(Step(s, e), c, vec)
  {
    StepShaped(s, e);
  }

  lemma BystanderOk(s: State, e: Event, c: nat, vec: nat, a: int)
    requires Shaped(s) && Enabled(s, e) && c < |s.act| && vec < IPI_MAX && SyncOk(s, c, vec) && Exclusive(s, e, c, vec)
    requires 0 <= a < |s.act| && a != Actor(e)
    ensures Shaped(Step(s, e)) && RequestOk(Step(s, e), c, vec, Step(s, e).act[a])
  {
    StepDone(s, e, c, vec);
    assert Step(s, e).act[a] == s.act[a] && RequestOk(s, c, vec, s.act[a]);
    if Requests(s.act[a], c, vec) {
      assert Outstanding(s, c, vec);
      assert e.SetSync? ==> !Requests(s.act[e.a], c, vec);
    }
  }

  lemma ActorOk(s: State, e: Event, c: nat, vec: nat)
    requires Shaped(s) && Enabled(s, e) && c < |s.act| && vec < IPI_MAX && SyncOk(s, c, vec) && Exclusive(s, e, c, vec)
    ensures Shaped(Step(s, e)) && RequestOk(Step(s, e), c, vec, Step(s, e).act[Actor(e)])
  {
    StepDone(s, e, c, vec);
    assert RequestOk(s, c, vec, s.act[Actor(e)]);
  }

  lemma StepRequestOk(s: State, e: Event, c: nat, vec: nat, a: int)
    requires Shaped(s) && Enabled(s, e) && c < |s.act| && vec < IPI_MAX && SyncOk(s, c, vec) && Exclusive(s, e, c, vec)
    requires 0 <= a < |s.act|
    ensures Shaped(Step(s, e)) && RequestOk(Step(s, e), c, vec, Step(s, e).act[a])
  {
    if a == Actor(e) { ActorOk(s, e, c, vec); } else { BystanderOk(s, e, c, vec, a); }
  }

  lemma StepSync(s: State, e: Event, c: nat, vec: nat)
    requires Shaped(s) && Enabled(s, e) && c < |s.act| && vec < IPI_MAX && SyncOk(s, c, vec) && Exclusive(s, e, c, vec)
    ensures Shaped(Step(s, e)) && SyncOk(Step(s, e), c, vec)
  {
    StepShaped(s, e);
    var s', i := Step(s, e), Actor(e);
    assert s'.act == s.act[i := s'.act[i]];
    forall a, b | 0 <= a < |s'.act| && 0 <= b < |s'.act| && Requests(s'.act[a], c, vec) && Requests(s'.act[b], c, vec) ensures a == b {
      assert Requests(s.act[a], c, vec) || a == i;
      assert Requests(s.act[b], c, vec) || b == i;
    }
    forall a | 0 <= a < |s'.act| ensures RequestOk(s', c, vec, s'.act[a]) { StepRequestOk(s, e, c, vec, a); }
  }

  /** With one request at a time, a return of 0 means the target handled the vector after the bit was set. */
  lemma ReturnMeansHandled(s: State, a: nat)
    requires Shaped(s) && a < |s.act| && ReturnsZero(s, a) && SyncOk(s, s.act[a].c, s.act[a].vec)
    ensures s.done[s.act[a].c][s.act[a].vec] > s.act[a].base
  {
    assert RequestOk(s, s.act[a].c, s.act[a].vec, s.act[a]);
  }

  // ----- runs

  function Init(home: seq<nat>, n: nat): State {
    State(seq(n, _ => Idle), seq(n, _ => NoVcpu), seq(n, _ => {}), seq(n, _ => false), seq(n, _ => {}),
          seq(n, _ => seq(IPI_MAX, _ => 0)), home, seq(|home|, _ => {}))
  }

  /** The state a run leads to; events that are not possible when their turn comes are skipped. */
  ghost function Exec(s: State, es: seq<Event>): State
    requires Shaped(s)
    decreases |es|
  {
    if es == [] then s
    else if Enabled(s, es[0]) then
      StepShaped(s, es[0]);
      Exec(Step(s, es[0]), es[1..])
    else Exec(s, es[1..])
  }

  ghost predicate Safe(s: State) {
    Shaped(s) && forall c | 0 <= c < |s.act| :: MailOk(s, c) && NotStranded(s, c)
  }

  lemma {:induction false} RunSafe(s: State, es: seq<Event>)
    requires Safe(s)
    ensures Safe(Exec(s, es))
    decreases |es|
  {
    if es != [] {
      if Enabled(s, es[0]) {
        StepShaped(s, es[0]);
        forall c | 0 <= c < |s.act| ensures MailOk(Step(s, es[0]), c) && NotStranded(Step(s, es[0]), c) {
          StepMail(s, es[0], c);
          StepStranded(s, es[0], c);
        }
        RunSafe(Step(s, es[0]), es[1..]);
      } else {
        RunSafe(s, es[1..]);
      }
    }
  }

  /** In every interleaving: a posted IPI has its doorbell set or about to be, or its handler about to take it;
      and no interrupt pending for a running vCPU stays missing from HVIP. */
  lemma Delivery(home: seq<nat>, n: nat, es: seq<Event>)
    requires forall v | 0 <= v < |home| :: home[v] < n
    ensures Shaped(Init(home, n)) && Safe(Exec(Init(home, n), es))
  {
    RunSafe(Init(home, n), es);
  }

  // ----- what a run did

  /** The events of the list that were possible when their turn came. */
  ghost function Executed(s: State, es: seq<Event>): seq<Event>
    requires Shaped(s)
    decreases |es|
  {
    if es == [] then []
    else if Enabled(s, es[0]) then
      StepShaped(s, es[0]);
      [es[0]] + Executed(Step(s, es[0]), es[1..])
    else Executed(s, es[1..])
  }

  /** The states a run of possible events goes through. */
  ghost predicate Ran(h: seq<Event>, hist: seq<State>) {
    |hist| == |h| + 1 && Shaped(hist[0]) && forall k | 0 <= k < |h| :: Stepped(hist[k], h[k], hist[k + 1])
  }

  ghost predicate Stepped(s: State, e: Event, s': State) {
    Shaped(s) && Enabled(s, e) && s' == Step(s, e) && Shaped(s')
  }

  lemma {:induction false} Replay(s: State, es: seq<Event>) returns (hist: seq<State>)
    requires Shaped(s)
    ensures Ran(Executed(s, es), hist) && hist[0] == s && hist[|hist| - 1] == Exec(s, es)
    decreases |es|
  {
    if es == [] {
      hist := [s];
    } else if Enabled(s, es[0]) {
      StepShaped(s, es[0]);
      var rest := Replay(Step(s, es[0]), es[1..]);
      hist := [s] + rest;
      var h := Executed(s, es);
      forall k | 0 <= k < |h| ensures Stepped(hist[k], h[k], hist[k + 1]) {
        if k > 0 {
          assert Stepped(rest[k - 1], h[1..][k - 1], rest[k]);
        } else {
          assert h[0] == es[0] && hist[1] == rest[0];
        }
      }
    } else {
      hist := Replay(s, es[1..]);
    }
  }

  /** Nothing is added to or taken from the pCPUs and vCPUs. */
  lemma {:induction false} SameWidth(h: seq<Event>, hist: seq<State>, m: nat)
    requires Ran(h, hist) && m <= |h|
    ensures Shaped(hist[m]) && |hist[m].act| == |hist[0].act| && hist[m].home == hist[0].home
  {
    if m > 0 {
      assert Stepped(hist[m - 1], h[m - 1], hist[m]);
      StepSizes(hist[m - 1], h[m - 1]);
      SameWidth(h, hist, m - 1);
    }
  }

  predicate Asserts(e: Event, v: nat, b: nat) { e.Assert? && e.v == v && e.b == b }

  predicate Clears(e: Event, v: nat, b: nat) { e.Clear? && e.v == v && e.b == b }

  /** The last executed event about the interrupt asserted it. */
  ghost predicate StillAsserted(h: seq<Event>, m: nat, v: nat, b: nat)
    requires m <= |h|
  {
    exists k :: 0 <= k < m && Asserts(h[k], v, b) && NotCleared(h, k + 1, m, v, b)
  }

  ghost predicate NotCleared(h: seq<Event>, from: nat, m: nat, v: nat, b: nat)
    requires m <= |h|
  {
    forall j | from <= j < m :: !Clears(h[j], v, b)
  }

  lemma AssertedStep(h: seq<Event>, m: nat, v: nat, b: nat)
    requires m < |h|
    ensures StillAsserted(h, m + 1, v, b) <==> Asserts(h[m], v, b) || (StillAsserted(h, m, v, b) && !Clears(h[m], v, b))
  {
    if Asserts(h[m], v, b) { assert NotCleared(h, m + 1, m + 1, v, b); }
    if StillAsserted(h, m, v, b) && !Clears(h[m], v, b) {
      var k :| 0 <= k < m && Asserts(h[k], v, b) && NotCleared(h, k + 1, m, v, b);
      assert NotCleared(h, k + 1, m + 1, v, b);
    }
    if StillAsserted(h, m + 1, v, b) && !Asserts(h[m], v, b) {
      var k :| 0 <= k < m + 1 && Asserts(h[k], v, b) && NotCleared(h, k + 1, m + 1, v, b);
      assert NotCleared(h, k + 1, m, v, b) && !Clears(h[m], v, b);
    }
  }

  lemma {:induction false} PendingHistory(h: seq<Event>, hist: seq<State>, m: nat, v: nat, b: nat)
    requires Ran(h, hist) && m <= |h| && v < |hist[0].home| && hist[0].pend[v] == {}
    ensures |hist[m].pend| == |hist[0].pend| && (b in hist[m].pend[v] <==> StillAsserted(h, m, v, b))
  {
    if m > 0 {
      PendingHistory(h, hist, m - 1, v, b);
      AssertedStep(h, m - 1, v, b);
      assert Stepped(hist[m - 1], h[m - 1], hist[m]);
      StepSizes(hist[m - 1], h[m - 1]);
    }
  }

  /** Over any run an interrupt is pending for its vCPU exactly when it was asserted and not cleared since. */
  lemma PendingExactly(home: seq<nat>, n: nat, es: seq<Event>, v: nat, b: nat)
    requires (forall w | 0 <= w < |home| :: home[w] < n) && v < |home|
    ensures Shaped(Init(home, n)) && var s, h := Exec(Init(home, n), es), Executed(Init(home, n), es);
      |s.pend| == |home| && (b in s.pend[v] <==> StillAsserted(h, |h|, v, b))
  {
    var hist := Replay(Init(home, n), es);
    PendingHistory(Executed(Init(home, n), es), hist, |hist| - 1, v, b);
  }

  /** An assert reaches HVIP at once when it comes from the pCPU that runs the vCPU; from elsewhere it leaves
      an IPI owed, which is then posted to the vCPU's pCPU. */
  lemma AssertReaches(s: State, a: nat, v: nat, b: nat) returns (s1: State)
    requires Shaped(s) && Enabled(s, Assert(a, v, b))
    ensures Stepped(s, Assert(a, v, b), s1) && b in s1.pend[v] && (s.cur[a] == The(v) ==> b in s1.hvip[a])
    ensures s.cur[a] != The(v) ==> Enabled(s1, SendOwed(a)) && IPI_RESCHEDULE in Step(s1, SendOwed(a)).mail[s.home[v]]
  {
    StepShaped(s, Assert(a, v, b));
    s1 := Step(s, Assert(a, v, b));
  }

  /** A clear on the pCPU that runs the vCPU leaves HVIP at once, too. */
  lemma ClearReaches(s: State, a: nat, v: nat, b: nat) returns (s1: State)
    requires Shaped(s) && Enabled(s, Clear(a, v, b))
    ensures Stepped(s, Clear(a, v, b), s1) && b !in s1.pend[v] && (s.cur[a] == The(v) ==> b !in s1.hvip[a])
  {
    StepShaped(s, Clear(a, v, b));
    s1 := Step(s, Clear(a, v, b));
  }

  /** When nothing is under way on any pCPU and no doorbell is set, HVIP holds every interrupt of the running
      vCPU that was asserted and not cleared since, and no IPI is left. */
  lemma QuietMeansDelivered(home: seq<nat>, n: nat, es: seq<Event>, c: nat, v: nat)
    requires (forall w | 0 <= w < |home| :: home[w] < n) && Shaped(Init(home, n))
    requires var s := Exec(Init(home, n), es);
      c < |s.act| && c < |s.cur| && c < |s.bell| && s.cur[c] == The(v) && !s.bell[c] && forall a | 0 <= a < |s.act| :: s.act[a].Idle?
    ensures var s, h := Exec(Init(home, n), es), Executed(Init(home, n), es);
      c < |s.mail| && c < |s.hvip| && s.mail[c] == {} && forall b: nat | StillAsserted(h, |h|, v, b) :: b in s.hvip[c]
  {
    var s, h := Exec(Init(home, n), es), Executed(Init(home, n), es);
    Delivery(home, n, es);
    assert MailOk(s, c) && NotStranded(s, c);
    ExecHome(home, n, es);
    forall b: nat | StillAsserted(h, |h|, v, b) ensures b in s.hvip[c] { PendingExactly(home, n, es, v, b); }
  }

  lemma ExecHome(home: seq<nat>, n: nat, es: seq<Event>)
    requires forall w | 0 <= w < |home| :: home[w] < n
    ensures Shaped(Init(home, n)) && Exec(Init(home, n), es).home == home && |Exec(Init(home, n), es).act| == n
  {
    var hist := Replay(Init(home, n), es);
    SameWidth(Executed(Init(home, n), es), hist, |hist| - 1);
  }

  /** The event posts the vector to pCPU c. */
  ghost predicate Posts(s: State, e: Event, c: nat, vec: nat)
    requires Shaped(s) && Enabled(s, e)
  {
    match e
    case Send(_, d, w) => d == c && w == vec
    case SendOwed(a) => s.home[s.act[a].v] == c && vec == IPI_RESCHEDULE
    case SetSync(a) => s.act[a].c == c && s.act[a].vec == vec
    case _ => false
  }

  ghost predicate PostsAt(h: seq<Event>, hist: seq<State>, k: nat, c: nat, vec: nat)
    requires Ran(h, hist) && k < |h|
  {
    Stepped(hist[k], h[k], hist[k + 1]) && Posts(hist[k], h[k], c, vec)
  }

  /** The vector was posted and its pCPU's handler has not taken its mail since. */
  ghost predicate StillPosted(h: seq<Event>, hist: seq<State>, m: nat, c: nat, vec: nat)
    requires Ran(h, hist) && m <= |h|
  {
    exists k :: 0 <= k < m && PostsAt(h, hist, k, c, vec) && Without(h, k + 1, m, Take(c))
  }

  ghost predicate Without(h: seq<Event>, from: nat, m: nat, e: Event)
    requires m <= |h|
  {
    forall j | from <= j < m :: h[j] != e
  }

  lemma PostedStep(h: seq<Event>, hist: seq<State>, m: nat, c: nat, vec: nat)
    requires Ran(h, hist) && m < |h|
    ensures StillPosted(h, hist, m + 1, c, vec)
       <==> PostsAt(h, hist, m, c, vec) || (StillPosted(h, hist, m, c, vec) && h[m] != Take(c))
  {
    hide Step, Enabled, Shaped, Posts, Stepped, Ran;
    if PostsAt(h, hist, m, c, vec) { assert Without(h, m + 1, m + 1, Take(c)); }
    if StillPosted(h, hist, m, c, vec) && h[m] != Take(c) {
      var k :| 0 <= k < m && PostsAt(h, hist, k, c, vec) && Without(h, k + 1, m, Take(c));
      assert Without(h, k + 1, m + 1, Take(c));
    }
    if StillPosted(h, hist, m + 1, c, vec) && !PostsAt(h, hist, m, c, vec) {
      var k :| 0 <= k < m + 1 && PostsAt(h, hist, k, c, vec) && Without(h, k + 1, m + 1, Take(c));
      assert Without(h, k + 1, m, Take(c)) && h[m] != Take(c);
    }
  }

  /** Over any run a vector waits in a pCPU's mailbox exactly when it was posted and not taken since. */
  lemma {:induction false} MailExactly(h: seq<Event>, hist: seq<State>, m: nat, c: nat, vec: nat)
    requires Ran(h, hist) && m <= |h| && c < |hist[0].act| && hist[0].mail[c] == {}
    ensures Shaped(hist[m]) && c < |hist[m].act| && (vec in hist[m].mail[c] <==> StillPosted(h, hist, m, c, vec))
  {
    hide Step, Enabled, Shaped, Posts, StillPosted;
    SameWidth(h, hist, m);
    NothingPosted(h, hist, c, vec);
    if m > 0 {
      SameWidth(h, hist, m - 1);
      MailExactly(h, hist, m - 1, c, vec);
      PostedStep(h, hist, m - 1, c, vec);
      assert Stepped(hist[m - 1], h[m - 1], hist[m]);
      MailStep(hist[m - 1], h[m - 1], c, vec);
    }
  }

  lemma NothingPosted(h: seq<Event>, hist: seq<State>, c: nat, vec: nat)
    requires Ran(h, hist)
    ensures !StillPosted(h, hist, 0, c, vec)
  {}

  lemma MailStep(s: State, e: Event, c: nat, vec: nat)
    requires Shaped(s) && Enabled(s, e) && c < |s.act|
    ensures c < |Step(s, e).mail| && (vec in Step(s, e).mail[c] <==> Posts(s, e, c, vec) || (vec in s.mail[c] && e != Take(c)))
  {}

  predicate Handles(e: Event, c: nat, vec: nat) { e == Handle(c, vec) || e == HandleSelf(c, vec) }

  /** How many of the first m events handle the vector on pCPU c. */
  function TimesHandled(h: seq<Event>, m: nat, c: nat, vec: nat): nat
    requires m <= |h|
  {
    if m == 0 then 0 else TimesHandled(h, m - 1, c, vec) + if Handles(h[m - 1], c, vec) then 1 else 0
  }

  lemma CountStep(s: State, e: Event, c: nat, vec: nat)
    requires Shaped(s) && Enabled(s, e) && c < |s.act| && vec < IPI_MAX
    ensures c < |Step(s, e).done| && vec < |Step(s, e).done[c]|
    ensures Step(s, e).done[c][vec] == s.done[c][vec] + if Handles(e, c, vec) then 1 else 0
  {
    StepSizes(s, e);
    StepCounts(s, e, c);
  }

  /** Over any run the completion counter counts the times its vector was handled. */
  lemma {:induction false} DoneCounts(h: seq<Event>, hist: seq<State>, m: nat, c: nat, vec: nat)
    requires Ran(h, hist) && m <= |h| && c < |hist[0].act| && vec < IPI_MAX
    ensures Shaped(hist[m]) && c < |hist[m].act|
    ensures hist[m].done[c][vec] == hist[0].done[c][vec] + TimesHandled(h, m, c, vec)
  {
    hide Step, Enabled;
    SameWidth(h, hist, m);
    if m > 0 {
      DoneCounts(h, hist, m - 1, c, vec);
      assert Stepped(hist[m - 1], h[m - 1], hist[m]);
      CountStep(hist[m - 1], h[m - 1], c, vec);
    }
  }

  /** A send, once rung, has posted its vector and set the doorbell; the sender is free again. */
  lemma SendCompletes(s: State, a: nat, c: nat, vec: nat) returns (s1: State, s2: State)
    requires Shaped(s) && Enabled(s, Send(a, c, vec))
    ensures Stepped(s, Send(a, c, vec), s1) && Stepped(s1, Ring(a), s2)
    ensures s2.act[a].Idle? && vec in s2.mail[c] && s2.bell[c]
  {
    s1 := Step(s, Send(a, c, vec));
    StepShaped(s, Send(a, c, vec));
    s2 := Step(s1, Ring(a));
    StepShaped(s1, Ring(a));
  }

  /** The handler clears its doorbell and takes all its mail, ... */
  lemma HandlerStarts(s: State, c: nat) returns (s1: State, s2: State)
    requires Shaped(s) && c < |s.act| && s.act[c].Idle? && s.bell[c]
    ensures Stepped(s, ClearBell(c), s1) && Stepped(s1, Take(c), s2)
    ensures !s2.bell[c] && s2.mail[c] == {} && s2.act[c] == Dispatching(s.mail[c])
  {
    s1 := Step(s, ClearBell(c));
    StepShaped(s, ClearBell(c));
    s2 := Step(s1, Take(c));
    StepShaped(s1, Take(c));
  }

  /** ... handles each vector once, counting it, ... */
  lemma HandlerStep(s: State, c: nat, vec: nat) returns (s1: State)
    requires Shaped(s) && c < |s.act| && s.act[c].Dispatching? && vec in s.act[c].todo && vec < IPI_MAX
    ensures Stepped(s, Handle(c, vec), s1)
    ensures s1.act[c] == Dispatching(s.act[c].todo - {vec}) && s1.done[c][vec] == s.done[c][vec] + 1
  {
    s1 := Step(s, Handle(c, vec));
    StepShaped(s, Handle(c, vec));
  }

  /** ... and ends by writing the running vCPU's pending interrupts to HVIP. */
  lemma HandlerEnds(s: State, c: nat) returns (s1: State)
    requires Shaped(s) && c < |s.act| && s.act[c] == Dispatching({})
    ensures Stepped(s, Materialize(c), s1) && s1.act[c].Idle? && (s.cur[c].The? ==> s1.hvip[c] == s.pend[s.cur[c].v])
  {
    s1 := Step(s, Materialize(c));
    StepShaped(s, Materialize(c));
  }

  lemma SwitchEnds(s: State, c: nat, v: nat) returns (s1: State, s2: State)
    requires Shaped(s) && c < |s.act| && s.act[c] == Switching(v)
    ensures Stepped(s, Publish(c), s1) && Stepped(s1, MaterializeNext(c), s2)
    ensures s1.cur[c] == The(v) && s2.cur[c] == The(v) && s2.act[c].Idle? && s2.hvip[c] == s.pend[v]
  {
    s1 := Step(s, Publish(c));
    StepShaped(s, Publish(c));
    s2 := Step(s1, MaterializeNext(c));
    StepShaped(s1, MaterializeNext(c));
  }

  /** A switch makes the vCPU current with HVIP empty in between, and ends with HVIP its pending interrupts. */
  lemma SwitchCompletes(s: State, c: nat, v: nat) returns (s1: State, s2: State, s3: State, s4: State)
    requires Shaped(s) && Enabled(s, Switch(c, v))
    ensures Stepped(s, Switch(c, v), s1) && Stepped(s1, ZeroHvip(c), s2) && Stepped(s2, Publish(c), s3)
    ensures Stepped(s3, MaterializeNext(c), s4)
    ensures s2.hvip[c] == {} && s3.cur[c] == The(v) && s4.cur[c] == The(v) && s4.act[c].Idle? && s4.hvip[c] == s.pend[v]
  {
    s1 := Step(s, Switch(c, v));
    StepShaped(s, Switch(c, v));
    s2 := Step(s1, ZeroHvip(c));
    StepShaped(s1, ZeroHvip(c));
    s3, s4 := SwitchEnds(s2, c, v);
  }

  /** A synchronous send reads the count, posts, rings, and waits with the count it read. */
  lemma SyncStarts(s: State, a: nat, c: nat, vec: nat) returns (s1: State, s2: State, s3: State)
    requires Shaped(s) && Enabled(s, ReadCount(a, c, vec))
    ensures Stepped(s, ReadCount(a, c, vec), s1) && Stepped(s1, SetSync(a), s2) && Stepped(s2, Ring(a), s3)
    ensures vec in s3.mail[c] && s3.bell[c] && s3.act[a] == Waiting(c, vec, s.done[c][vec] % COUNTER, s.done[c][vec])
  {
    s1 := Step(s, ReadCount(a, c, vec));
    StepShaped(s, ReadCount(a, c, vec));
    s2 := Step(s1, SetSync(a));
    StepShaped(s1, SetSync(a));
    s3 := Step(s2, Ring(a));
    StepShaped(s2, Ring(a));
  }

  /** It ends at the first look that finds another count, or when it gives up. */
  lemma SyncEnds(s: State, a: nat)
    requires Shaped(s) && a < |s.act| && s.act[a].Waiting?
    ensures Enabled(s, Poll(a)) && Enabled(s, Timeout(a)) && Step(s, Timeout(a)) == s.(act := s.act[a := Idle])
    ensures Step(s, Poll(a)) == if s.done[s.act[a].c][s.act[a].vec] % COUNTER != s.act[a].before then s.(act := s.act[a := Idle]) else s
  {}

  /** Every request opened in the run for the vector of pCPU c finds none outstanding. */
  ghost predicate ExclusiveRun(s: State, es: seq<Event>, c: nat, vec: nat)
    requires Shaped(s) && c < |s.act|
    decreases |es|
  {
    if es == [] then true
    else if Enabled(s, es[0]) then
      StepShaped(s, es[0]);
      Exclusive(s, es[0], c, vec) && ExclusiveRun(Step(s, es[0]), es[1..], c, vec)
    else ExclusiveRun(s, es[1..], c, vec)
  }

  lemma {:induction false} RunSync(s: State, es: seq<Event>, c: nat, vec: nat)
    requires Shaped(s) && c < |s.act| && vec < IPI_MAX && SyncOk(s, c, vec) && ExclusiveRun(s, es, c, vec)
    ensures Shaped(Exec(s, es)) && c < |Exec(s, es).act| && SyncOk(Exec(s, es), c, vec)
    decreases |es|
  {
    if es != [] {
      if Enabled(s, es[0]) {
        StepSync(s, es[0], c, vec);
        RunSync(Step(s, es[0]), es[1..], c, vec);
      } else {
        RunSync(s, es[1..], c, vec);
      }
    }
  }

  /** A synchronous send that returns 0 was handled after its bit was set, in every run with at most one
      outstanding request for that vector. */
  lemma SyncSend(home: seq<nat>, n: nat, es: seq<Event>, a: nat, c: nat, vec: nat)
    requires (forall v | 0 <= v < |home| :: home[v] < n) && c < n && vec < IPI_MAX && Shaped(Init(home, n))
    requires ExclusiveRun(Init(home, n), es, c, vec)
    requires var s := Exec(Init(home, n), es); Shaped(s) && a < |s.act| && ReturnsZero(s, a) && s.act[a].c == c && s.act[a].vec == vec
    ensures var s := Exec(Init(home, n), es); Shaped(s) && s.done[c][vec] > s.act[a].base
  {
    RunSync(Init(home, n), es, c, vec);
    ReturnMeansHandled(Exec(Init(home, n), es), a);
  }

  // ----- two senders of one vector

  /** pCPU 0 posts the vector; between its taking and its handling on pCPU 1, pCPU 2 starts to wait for it. */
  function Overlap(vec: nat): seq<Event> {
    [Send(0, 1, vec), Ring(0), ClearBell(1), Take(1), ReadCount(2, 1, vec), Handle(1, vec), SetSync(2), Ring(2)]
  }

  lemma ExecOne(s: State, es: seq<Event>, i: nat) returns (s': State)
    requires Shaped(s) && i < |es| && Enabled(s, es[i])
    ensures Shaped(s') && s' == Step(s, es[i]) && Exec(s, es[i..]) == Exec(s', es[i + 1..])
    ensures forall k: nat :: BoundedRun(s, es[i..], k) <==> BoundedStep(s, es[i], k) && BoundedRun(s', es[i + 1..], k)
  {
    StepShaped(s, es[i]);
    assert es[i..][1..] == es[i + 1..] && es[i..][0] == es[i];
    s' := Step(s, es[i]);
  }

  /** An event that opens no request leaves the bound to the rest of the run. */
  lemma ExecPlain(s: State, es: seq<Event>, i: nat) returns (s': State)
    requires Shaped(s) && i < |es| && Enabled(s, es[i])
    requires !es[i].Send? && !es[i].SendOwed? && !es[i].ReadCount? && !es[i].HandleSelf?
    ensures Shaped(s') && s' == Step(s, es[i]) && Exec(s, es[i..]) == Exec(s', es[i + 1..])
    ensures forall k: nat :: BoundedRun(s, es[i..], k) <==> BoundedRun(s', es[i + 1..], k)
  {
    s' := ExecOne(s, es, i);
    forall k: nat ensures BoundedStep(s, es[i], k) {}
  }

  /** Every pCPU but 1 is idle. */
  predicate OthersIdle(s: State) {
    forall a | 0 <= a < |s.act| && a != 1 :: s.act[a].Idle?
  }

  /** No sender is in progress, so a posted bit is all there is to count. */
  lemma CountOfIdle(s: State, vec: nat)
    requires Shaped(s) && |s.act| >= 3 && OthersIdle(s) && (s.act[1].Idle? || s.act[1].Dispatching?)
    ensures Count(s, 1, vec) == if Posting(s, 1, vec) then 1 else 0
  {
    forall a: nat | a < |s.act| ensures !Requests(s.act[a], 1, vec) {}
    assert Requesters(s.act, 1, vec) == {};
  }

  lemma OverlapTaken(s: State, es: seq<Event>, vec: nat) returns (s': State)
    requires Shaped(s) && |s.act| >= 3 && vec < IPI_MAX && es == Overlap(vec)
    requires OthersIdle(s) && s.act[1].Idle? && s.mail[1] == {} && s.done[1][vec] == 0
    ensures Shaped(s') && |s'.act| == |s.act| && Exec(s, es) == Exec(s', es[4..])
    ensures s'.act[1] == Dispatching({vec}) && OthersIdle(s') && s'.mail[1] == {} && s'.done == s.done
    ensures forall k: nat | k >= 2 :: BoundedRun(s, es, k) <==> BoundedRun(s', es[4..], k)
  {
    assert es[0..] == es;
    CountOfIdle(s, vec);
    var s1 := ExecOne(s, es, 0);
    assert s1.mail[1] == {vec};
    var s2 := ExecPlain(s1, es, 1);
    var s3 := ExecPlain(s2, es, 2);
    s' := ExecPlain(s3, es, 3);
  }

  lemma OverlapRead(s: State, es: seq<Event>, vec: nat) returns (s': State)
    requires Shaped(s) && |s.act| >= 3 && vec < IPI_MAX && es == Overlap(vec)
    requires s.act[1] == Dispatching({vec}) && OthersIdle(s) && s.mail[1] == {} && s.done[1][vec] == 0
    ensures Shaped(s') && |s'.act| == |s.act| && Exec(s, es[4..]) == Exec(s', es[5..])
    ensures s'.act[1] == Dispatching({vec}) && s'.act[2] == SyncRead(1, vec, 0) && s'.done[1][vec] == 0
    ensures forall k: nat | k >= 2 :: BoundedRun(s, es[4..], k) <==> BoundedRun(s', es[5..], k)
  {
    CountOfIdle(s, vec);
    s' := ExecOne(s, es, 4);
  }

  lemma OverlapWaits(s: State, es: seq<Event>, vec: nat) returns (s': State)
    requires Shaped(s) && |s.act| >= 3 && vec < IPI_MAX && es == Overlap(vec)
    requires s.act[1] == Dispatching({vec}) && s.act[2] == SyncRead(1, vec, 0) && s.done[1][vec] == 0
    ensures Shaped(s') && |s'.act| == |s.act| && Exec(s, es[5..]) == s'
    ensures s'.act[2] == Waiting(1, vec, 0, 1) && s'.done[1][vec] == 1 && vec in s'.mail[1]
    ensures forall k: nat :: BoundedRun(s, es[5..], k)
  {
    var s2 := ExecPlain(s, es, 5);
    assert s2.done[1][vec] == 1 && s2.act[2] == SyncRead(1, vec, 0);
    var s3 := ExecPlain(s2, es, 6);
    s' := ExecPlain(s3, es, 7);
    assert es[8..] == [];
  }

  /** With a second request outstanding the send returns 0 although its bit is still posted, unhandled. */
  lemma SharedVectorReturnsEarly(home: seq<nat>, n: nat, vec: nat)
    requires n >= 3 && vec < IPI_MAX && forall v | 0 <= v < |home| :: home[v] < n
    ensures Shaped(Init(home, n)) && forall k: nat | k >= 2 :: BoundedRun(Init(home, n), Overlap(vec), k)
    ensures var s := Exec(Init(home, n), Overlap(vec));
      && Shaped(s) && |s.act| == n && ReturnsZero(s, 2) && s.act[2].c == 1 && s.act[2].vec == vec
      && s.done[1][vec] == s.act[2].base && vec in s.mail[1]
  {
    var es := Overlap(vec);
    var s1 := OverlapTaken(Init(home, n), es, vec);
    var s2 := OverlapRead(s1, es, vec);
    var s3 := OverlapWaits(s2, es, vec);
  }

  // ----- how many requests may be outstanding

  ghost function Requesters(act: seq<Act>, c: nat, vec: nat): set<nat> {
    set a: nat | a < |act| && Requests(act[a], c, vec)
  }

  /** Outstanding requests for the vector: every synchronous sender, and a posted bit. */
  ghost function Count(s: State, c: nat, vec: nat): nat
    requires Shaped(s) && c < |s.act|
  {
    |Requesters(s.act, c, vec)| + if Posting(s, c, vec) then 1 else 0
  }

  /** The event opens no request beyond k for any vector of any target. */
  ghost predicate BoundedStep(s: State, e: Event, k: nat)
    requires Shaped(s) && Enabled(s, e)
  {
    forall c: nat, vec: nat | c < |s.act| && vec < IPI_MAX && Opens(s, e, c, vec) :: Count(s, c, vec) < k
  }

  ghost predicate BoundedRun(s: State, es: seq<Event>, k: nat)
    requires Shaped(s)
    decreases |es|
  {
    if es == [] then true
    else if Enabled(s, es[0]) then
      StepShaped(s, es[0]);
      BoundedStep(s, es[0], k) && BoundedRun(Step(s, es[0]), es[1..], k)
    else BoundedRun(s, es[1..], k)
  }

  /** At most one outstanding request is none when another is opened. */
  lemma BoundedExclusive(s: State, e: Event, k: nat, c: nat, vec: nat)
    requires Shaped(s) && Enabled(s, e) && c < |s.act| && vec < IPI_MAX && k <= 1 && BoundedStep(s, e, k)
    ensures Exclusive(s, e, c, vec)
  {
    if Opens(s, e, c, vec) {
      assert Count(s, c, vec) == 0;
      forall a: nat | a < |s.act| ensures !Requests(s.act[a], c, vec) { assert a !in Requesters(s.act, c, vec); }
    }
  }

  lemma {:induction false} BoundedExclusiveRun(s: State, es: seq<Event>, k: nat, c: nat, vec: nat)
    requires Shaped(s) && c < |s.act| && vec < IPI_MAX && k <= 1 && BoundedRun(s, es, k)
    ensures ExclusiveRun(s, es, c, vec)
    decreases |es|
  {
    if es != [] {
      if Enabled(s, es[0]) {
        StepShaped(s, es[0]);
        BoundedExclusive(s, es[0], k, c, vec);
        BoundedExclusiveRun(Step(s, es[0]), es[1..], k, c, vec);
      } else {
        BoundedExclusiveRun(s, es[1..], k, c, vec);
      }
    }
  }

  /** A synchronous sender that is about to return 0 had its vector handled after its bit was set. */
  ghost predicate ZeroMeansHandled(s: State) {
    Shaped(s) && forall a: nat | a < |s.act| && ReturnsZero(s, a) :: s.done[s.act[a].c][s.act[a].vec] > s.act[a].base
  }

  ghost predicate AlwaysHandled(home: seq<nat>, n: nat, k: nat)
    requires Shaped(Init(home, n))
  {
    forall es: seq<Event> | BoundedRun(Init(home, n), es, k) :: ZeroMeansHandled(Exec(Init(home, n), es))
  }

  lemma AtMostOneHandled(home: seq<nat>, n: nat, k: nat, es: seq<Event>)
    requires (forall v | 0 <= v < |home| :: home[v] < n) && k <= 1 && Shaped(Init(home, n)) && BoundedRun(Init(home, n), es, k)
    ensures ZeroMeansHandled(Exec(Init(home, n), es))
  {
    Delivery(home, n, es);
    var s := Exec(Init(home, n), es);
    ExecWidth(Init(home, n), es);
    forall a: nat | a < |s.act| && ReturnsZero(s, a) ensures s.done[s.act[a].c][s.act[a].vec] > s.act[a].base {
      var c, vec := s.act[a].c, s.act[a].vec;
      assert ActShaped(s, a, s.act[a]);
      BoundedExclusiveRun(Init(home, n), es, k, c, vec);
      SyncSend(home, n, es, a, c, vec);
    }
  }

  lemma {:induction false} ExecWidth(s: State, es: seq<Event>)
    requires Shaped(s)
    ensures |Exec(s, es).act| == |s.act|
    decreases |es|
  {
    if es != [] {
      if Enabled(s, es[0]) {
        StepShaped(s, es[0]);
        ExecWidth(Step(s, es[0]), es[1..]);
      } else {
        ExecWidth(s, es[1..]);
      }
    }
  }

  /** However many requests per target and vector a system allows, every synchronous send that returns 0 was
      handled after its bit was set exactly when it allows at most one. */
  lemma HandledExactlyWhenExclusive(home: seq<nat>, n: nat, k: nat)
    requires n >= 3 && forall v | 0 <= v < |home| :: home[v] < n
    ensures Shaped(Init(home, n)) && (AlwaysHandled(home, n, k) <==> k <= 1)
  {
    Delivery(home, n, []);
    if k <= 1 {
      forall es: seq<Event> | BoundedRun(Init(home, n), es, k) ensures ZeroMeansHandled(Exec(Init(home, n), es)) {
        AtMostOneHandled(home, n, k, es);
      }
    } else {
      SharedVectorReturnsEarly(home, n, 0);
      assert !ZeroMeansHandled(Exec(Init(home, n), Overlap(0)));
    }
  }
}
