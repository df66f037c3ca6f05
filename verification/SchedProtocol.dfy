/** The yield path of all pCPUs as one machine: each critical section and each half of a context switch is
    one step, in any interleaving. */
module SchedProtocol {
  import opened ReadyQueue

  /** Everything a switch saves and restores: registers and the vCPU's interrupt interface. */
  datatype Context = Context(regs: seq<int>, gic: seq<int>)

  datatype Opt = NoTask | The(t: Task)

  /** Guest: not switching. Picked: `simple_scheduler_next` took and published a task. Requeued: the old task
      is back in the queue. Saved: its context is stored. */
  datatype Phase = Guest | Picked | Requeued | Saved

  /** `cur` is the task whose trap the pCPU is handling or which it runs, `next` the one it switches to. */
  datatype Cpu = Cpu(phase: Phase, cur: Opt, next: Opt, frame: Context)

  /** `last` remembers with which context each task last ran, or was created. */
  datatype State = State(ready: seq<Task>, cpus: seq<Cpu>, saved: map<Task, Context>, last: map<Task, Context>)

  datatype Event =
    | Create(t: Task, x: Context)
    | Run(c: nat, x: Context)
    | Pick(c: nat)
    | Requeue(c: nat)
    | Save(c: nat)
    | Restore(c: nat)

  function Init(n: nat, x: Context): State {
    State([], seq(n, _ => Cpu(Guest, NoTask, NoTask, x)), map[], map[])
  }

  /** Whether a pCPU in the guest that yields switches to the first task it may run. */
  predicate Switches(s: State, c: nat)
    requires c < |s.cpus|
  {
    var i := FirstFor(s.ready, c);
    && s.cpus[c].phase == Guest && i < |s.ready|
    && (s.cpus[c].cur == NoTask || s.cpus[c].cur.t.prio >= s.ready[i].prio)
  }

  /** One step; an event that is not possible changes nothing. */
  function Step(s: State, e: Event): State {
    match e
    case Create(t, x) =>
      if t in s.saved then s
      else s.(ready := Insert(s.ready, t), saved := s.saved[t := x], last := s.last[t := x])
    case Run(c, x) =>
      if c < |s.cpus| && s.cpus[c].phase == Guest && s.cpus[c].cur != NoTask then
        s.(cpus := s.cpus[c := s.cpus[c].(frame := x)], last := s.last[s.cpus[c].cur.t := x])
      else s
    case Pick(c) =>
      if c < |s.cpus| && Switches(s, c) then
        var i := FirstFor(s.ready, c);
        s.(ready := Without(s.ready, i), cpus := s.cpus[c := s.cpus[c].(phase := Picked, next := The(s.ready[i]))])
      else s
    case Requeue(c) =>
      if c < |s.cpus| && s.cpus[c].phase == Picked then
        s.(ready := if s.cpus[c].cur == NoTask then s.ready else Insert(s.ready, s.cpus[c].cur.t),
           cpus := s.cpus[c := s.cpus[c].(phase := Requeued)])
      else s
    case Save(c) =>
      if c < |s.cpus| && s.cpus[c].phase == Requeued then
        s.(saved := if s.cpus[c].cur == NoTask then s.saved else s.saved[s.cpus[c].cur.t := s.cpus[c].frame],
           cpus := s.cpus[c := s.cpus[c].(phase := Saved)])
      else s
    case Restore(c) =>
      if c < |s.cpus| && s.cpus[c].phase == Saved && s.cpus[c].next != NoTask && s.cpus[c].next.t in s.saved then
        s.(cpus := s.cpus[c := Cpu(Guest, s.cpus[c].next, NoTask, s.saved[s.cpus[c].next.t])])
      else s
  }

  function Exec(s: State, es: seq<Event>): State
    decreases |es|
  {
    if es == [] then s else Exec(Step(s, es[0]), es[1..])
  }

  // ----- the invariant

  ghost predicate QueueOk(s: State) {
    Sorted(s.ready) && Distinct(s.ready) && forall t | t in s.ready :: t in s.saved
  }

  ghost predicate Pinned(s: State) {
    s.saved.Keys == s.last.Keys && forall t | t in s.saved :: 0 <= t.cpu < |s.cpus|
  }

  /** The old task of a switching pCPU is queued once it was requeued, and its frame is what it last ran with
      until that is saved. */
  ghost predicate CurOk(s: State, c: nat)
    requires c < |s.cpus|
  {
    var k := s.cpus[c];
    k.cur.The? ==>
      && k.cur.t in s.saved && k.cur.t.cpu == c && k.cur.t in s.last
      && (k.cur.t in s.ready <==> k.phase == Requeued || k.phase == Saved)
      && (k.phase != Saved ==> k.frame == s.last[k.cur.t])
  }

  ghost predicate NextOk(s: State, c: nat)
    requires c < |s.cpus|
  {
    var k := s.cpus[c];
    && (k.phase == Guest <==> k.next == NoTask)
    && (k.next.The? ==> k.next.t in s.saved && k.next.t.cpu == c && k.next.t !in s.ready && k.next != k.cur)
  }

  /** The task's registers are still in its pCPU's frame. */
  predicate Unsaved(s: State, t: Task) {
    0 <= t.cpu < |s.cpus| && s.cpus[t.cpu].cur == The(t) && s.cpus[t.cpu].phase != Saved
  }

  ghost predicate SavedOk(s: State, t: Task)
    requires t in s.saved && t in s.last
  {
    s.saved[t] == s.last[t] || Unsaved(s, t)
  }

  /** Nowhere lost: queued, or current or next on its own pCPU. */
  ghost predicate Placed(s: State, t: Task) {
    t in s.ready || (0 <= t.cpu < |s.cpus| && (s.cpus[t.cpu].cur == The(t) || s.cpus[t.cpu].next == The(t)))
  }

  ghost predicate Inv(s: State) {
    && QueueOk(s) && Pinned(s)
    && (forall c: nat | c < |s.cpus| :: CurOk(s, c) && NextOk(s, c))
    && (forall t | t in s.saved :: SavedOk(s, t) && Placed(s, t))
  }

  // ----- preservation

  lemma CreateKeeps(s: State, t: Task, x: Context)
    requires Inv(s) && 0 <= t.cpu < |s.cpus|
    ensures Inv(Step(s, Create(t, x)))
  {
    if t !in s.saved {
      InsertSorted(s.ready, t);
      InsertDistinct(s.ready, t);
      var s' := Step(s, Create(t, x));
      forall c: nat | c < |s'.cpus| ensures CurOk(s', c) && NextOk(s', c) { assert CurOk(s, c) && NextOk(s, c); }
      forall u | u in s'.saved ensures SavedOk(s', u) && Placed(s', u) {
        if u != t { assert SavedOk(s, u) && Placed(s, u); }
      }
    }
  }

  lemma RunCpuKeeps(s: State, c: nat, x: Context, d: nat, s': State)
    requires Inv(s) && s' == Step(s, Run(c, x)) && d < |s.cpus|
    ensures CurOk(s', d) && NextOk(s', d)
  {
    assert CurOk(s, d) && NextOk(s, d);
    if c < |s.cpus| { assert CurOk(s, c); }
  }

  lemma RunTaskKeeps(s: State, c: nat, x: Context, u: Task, s': State)
    requires Inv(s) && s' == Step(s, Run(c, x)) && u in s.saved
    ensures u in s'.saved && u in s'.last && SavedOk(s', u) && Placed(s', u)
  {
    assert SavedOk(s, u) && Placed(s, u);
    if c < |s.cpus| { assert CurOk(s, c); }
    assert 0 <= u.cpu < |s.cpus|;
    assert s'.cpus[u.cpu].cur == s.cpus[u.cpu].cur && s'.cpus[u.cpu].phase == s.cpus[u.cpu].phase && s'.cpus[u.cpu].next == s.cpus[u.cpu].next;
  }

  lemma RunKeeps(s: State, c: nat, x: Context)
    requires Inv(s)
    ensures Inv(Step(s, Run(c, x)))
  {
    var s' := Step(s, Run(c, x));
    if c < |s.cpus| { assert CurOk(s, c); }
    assert s'.saved == s.saved && s'.last.Keys == s.last.Keys;
    forall d: nat | d < |s'.cpus| ensures CurOk(s', d) && NextOk(s', d) { RunCpuKeeps(s, c, x, d, s'); }
    forall u | u in s'.saved ensures SavedOk(s', u) && Placed(s', u) { RunTaskKeeps(s, c, x, u, s'); }
  }

  lemma PickCpuKeeps(s: State, c: nat, d: nat)
    requires Inv(s) && c < |s.cpus| && Switches(s, c) && d < |s.cpus|
    ensures var s' := Step(s, Pick(c)); CurOk(s', d) && NextOk(s', d)
  {
    var i := FirstFor(s.ready, c);
    var n, q := s.ready[i], Without(s.ready, i);
    WithoutKeeps(s.ready, i);
    assert n in s.ready && n in s.saved && n.cpu == c;
    assert CurOk(s, d) && NextOk(s, d);
    assert s.cpus[d].cur.The? && d != c ==> s.cpus[d].cur.t != n;
    assert s.cpus[d].next.The? && d != c ==> s.cpus[d].next.t != n;
  }

  lemma PickTaskKeeps(s: State, c: nat, u: Task, s': State)
    requires Inv(s) && c < |s.cpus| && Switches(s, c) && u in s.saved && s' == Step(s, Pick(c))
    ensures SavedOk(s', u) && Placed(s', u)
  {
    var n := s.ready[FirstFor(s.ready, c)];
    WithoutIn(s.ready, FirstFor(s.ready, c), u);
    assert n in s.ready && n in s.saved && n.cpu == c;
    assert SavedOk(s, u) && Placed(s, u) && NextOk(s, c);
    assert s'.cpus[u.cpu].cur == s.cpus[u.cpu].cur;
    if u == n {
      assert s'.cpus[u.cpu].next == The(u);
    } else {
      assert u in s.ready ==> u in s'.ready;
    }
  }

  lemma PickKeeps(s: State, c: nat)
    requires Inv(s)
    ensures Inv(Step(s, Pick(c)))
  {
    var s' := Step(s, Pick(c));
    if c < |s.cpus| && Switches(s, c) {
      WithoutKeeps(s.ready, FirstFor(s.ready, c));
      forall d: nat | d < |s'.cpus| ensures CurOk(s', d) && NextOk(s', d) { PickCpuKeeps(s, c, d); }
      forall u | u in s'.saved ensures SavedOk(s', u) && Placed(s', u) { PickTaskKeeps(s, c, u, s'); }
    }
  }

  lemma RequeueKeeps(s: State, c: nat)
    requires Inv(s)
    ensures Inv(Step(s, Requeue(c)))
  {
    var s' := Step(s, Requeue(c));
    if s' != s {
      assert CurOk(s, c) && NextOk(s, c);
      if s.cpus[c].cur != NoTask {
        InsertSorted(s.ready, s.cpus[c].cur.t);
        InsertDistinct(s.ready, s.cpus[c].cur.t);
      }
      forall d: nat | d < |s'.cpus| ensures CurOk(s', d) && NextOk(s', d) { assert CurOk(s, d) && NextOk(s, d); }
      forall u | u in s'.saved ensures SavedOk(s', u) && Placed(s', u) { assert SavedOk(s, u) && Placed(s, u); }
    }
  }

  lemma SaveKeeps(s: State, c: nat)
    requires Inv(s)
    ensures Inv(Step(s, Save(c)))
  {
    var s' := Step(s, Save(c));
    if s' != s {
      assert CurOk(s, c) && NextOk(s, c);
      forall d: nat | d < |s'.cpus| ensures CurOk(s', d) && NextOk(s', d) { assert CurOk(s, d) && NextOk(s, d); }
      forall u | u in s'.saved ensures SavedOk(s', u) && Placed(s', u) { assert SavedOk(s, u) && Placed(s, u); }
    }
  }

  lemma RestoreKeeps(s: State, c: nat)
    requires Inv(s)
    ensures Inv(Step(s, Restore(c)))
  {
    var s' := Step(s, Restore(c));
    if s' != s {
      assert CurOk(s, c) && NextOk(s, c) && SavedOk(s, s.cpus[c].next.t);
      forall d: nat | d < |s'.cpus| ensures CurOk(s', d) && NextOk(s', d) { assert CurOk(s, d) && NextOk(s, d); }
      forall u | u in s'.saved ensures SavedOk(s', u) && Placed(s', u) { assert SavedOk(s, u) && Placed(s, u); }
    }
  }

  /** Only pinned tasks are created. */
  predicate CreatesPinned(es: seq<Event>, n: nat) {
    forall i | 0 <= i < |es| && es[i].Create? :: 0 <= es[i].t.cpu < n
  }

  lemma StepInv(s: State, e: Event)
    requires Inv(s) && (e.Create? ==> 0 <= e.t.cpu < |s.cpus|)
    ensures Inv(Step(s, e)) && |Step(s, e).cpus| == |s.cpus|
  {
    match e
    case Create(t, x) => CreateKeeps(s, t, x);
    case Run(c, x) => RunKeeps(s, c, x);
    case Pick(c) => PickKeeps(s, c);
    case Requeue(c) => RequeueKeeps(s, c);
    case Save(c) => SaveKeeps(s, c);
    case Restore(c) => RestoreKeeps(s, c);
  }

  lemma {:induction false} RunInv(s: State, es: seq<Event>)
    requires Inv(s) && CreatesPinned(es, |s.cpus|)
    ensures Inv(Exec(s, es)) && |Exec(s, es).cpus| == |s.cpus|
    decreases |es|
  {
    if es != [] {
      StepInv(s, es[0]);
      RunInv(Step(s, es[0]), es[1..]);
    }
  }

  /** A pCPU in the guest runs its task with the context the task last ran with. */
  ghost predicate RunsLast(s: State) {
    forall c: nat | c < |s.cpus| && s.cpus[c].phase == Guest && s.cpus[c].cur.The? ::
      s.cpus[c].cur.t in s.last && s.cpus[c].frame == s.last[s.cpus[c].cur.t]
  }

  /** No task is dispatched twice, or both dispatched and queued. */
  ghost predicate DispatchedOnce(s: State) {
    && (forall c: nat, d: nat | c < d < |s.cpus| && Dispatched(s, c).The? :: Dispatched(s, c) != Dispatched(s, d))
    && (forall c: nat | c < |s.cpus| && Dispatched(s, c).The? :: Dispatched(s, c).t !in s.ready)
  }

  lemma InvDispatchedOnce(s: State)
    requires Inv(s)
    ensures DispatchedOnce(s) && RunsLast(s)
  {
    forall c: nat | c < |s.cpus| && Dispatched(s, c).The? ensures Dispatched(s, c).t.cpu == c && Dispatched(s, c).t !in s.ready {
      assert CurOk(s, c) && NextOk(s, c);
    }
    forall c: nat | c < |s.cpus| && s.cpus[c].phase == Guest && s.cpus[c].cur.The?
      ensures s.cpus[c].cur.t in s.last && s.cpus[c].frame == s.last[s.cpus[c].cur.t]
    {
      assert CurOk(s, c);
    }
  }

  /** In every interleaving of yields of pinned tasks: a task in the guest runs with the context it last ran
      with, is on one pCPU only, and no task is lost. */
  lemma Safety(n: nat, x: Context, es: seq<Event>)
    requires CreatesPinned(es, n)
    ensures var s := Exec(Init(n, x), es);
      RunsLast(s) && DispatchedOnce(s) && forall t | t in s.saved :: Placed(s, t)
    ensures var s := Exec(Init(n, x), es); forall c: nat | c < |s.cpus| :: OwnTasks(s, c)
  {
    RunInv(Init(n, x), es);
    InvDispatchedOnce(Exec(Init(n, x), es));
    var s := Exec(Init(n, x), es);
    forall c: nat | c < |s.cpus| ensures OwnTasks(s, c) { assert CurOk(s, c) && NextOk(s, c); }
  }

  /** A pCPU runs, switches from and switches to tasks pinned to it only, and the one it runs or switches to is
      not in the queue. */
  ghost predicate OwnTasks(s: State, c: nat)
    requires c < |s.cpus|
  {
    var k := s.cpus[c];
    && (k.cur.The? ==> k.cur.t.cpu == c && (k.phase == Guest ==> k.cur.t !in s.ready))
    && (k.next.The? ==> k.next.t.cpu == c && k.next.t !in s.ready)
  }

  /** The task a pCPU runs or is about to run: what `current_task` says there. */
  function Dispatched(s: State, c: nat): Opt
    requires c < |s.cpus|
  {
    if s.cpus[c].phase == Guest then s.cpus[c].cur else s.cpus[c].next
  }

  // ----- fairness

  /** Task t is number i in its pCPU's queue, and nothing that pCPU may run has a better priority. */
  ghost predicate Due(s: State, t: Task, i: nat) {
    && 0 <= t.cpu < |s.cpus| && i < |Mine(s.ready, t.cpu)| && Mine(s.ready, t.cpu)[i] == t
    && (forall u | u in s.ready && u.cpu == t.cpu :: u.prio >= t.prio)
    && (s.cpus[t.cpu].cur.The? ==> s.cpus[t.cpu].cur.t.prio >= t.prio)
    && (s.cpus[t.cpu].next.The? ==> s.cpus[t.cpu].next.t.prio >= t.prio)
  }

  /** Going behind: a task of no better priority does not move t. */
  lemma InsertBehind(q: seq<Task>, u: Task, t: Task, i: nat)
    requires i < |q| && q[i] == t && u.prio >= t.prio && Sorted(q)
    ensures i < |Insert(q, u)| && Insert(q, u)[i] == t
  {
    assert i < Position(q, u);
  }

  lemma InsertDue(q: seq<Task>, u: Task, t: Task, i: nat)
    requires Sorted(q) && Distinct(q) && u !in q && u.cpu != -1 && t.cpu != -1
    requires i < |Mine(q, t.cpu)| && Mine(q, t.cpu)[i] == t && (u.cpu == t.cpu ==> u.prio >= t.prio)
    ensures i < |Mine(Insert(q, u), t.cpu)| && Mine(Insert(q, u), t.cpu)[i] == t
    ensures forall x :: x in Insert(q, u) <==> x == u || x in q
  {
    InsertDistinct(q, u);
    MineInsert(q, u, t.cpu);
    MineSorted(q, t.cpu);
    if u.cpu == t.cpu { InsertBehind(Mine(q, t.cpu), u, t, i); }
  }

  lemma {:induction false} MineSorted(q: seq<Task>, c: int)
    requires Sorted(q)
    ensures Sorted(Mine(q, c))
  {
    if q != [] {
      MineSorted(q[1..], c);
      MineIn(q[1..], c);
      var m := Mine(q[1..], c);
      forall j | 0 <= j < |m| ensures q[0].prio <= m[j].prio {
        assert m[j] in q[1..];
        var k :| 0 <= k < |q[1..]| && q[1..][k] == m[j];
        assert q[k + 1] == m[j];
      }
    }
  }

  /** The pCPU of a due task always has one to switch to. */
  lemma DueSwitches(s: State, t: Task, i: nat)
    requires Inv(s) && Due(s, t, i) && s.cpus[t.cpu].phase == Guest
    ensures Switches(s, t.cpu) && Mine(s.ready, t.cpu)[0] == s.ready[FirstFor(s.ready, t.cpu)]
    ensures s.ready[FirstFor(s.ready, t.cpu)].cpu != -1
  {
    var c := t.cpu;
    if FirstFor(s.ready, c) == |s.ready| { MineNone(s.ready, c); }
    var n := s.ready[FirstFor(s.ready, c)];
    assert n in s.ready && n in s.saved;
    MineTake(s.ready, c, -2);
    MineSorted(s.ready, c);
    var m := Mine(s.ready, c);
    assert m[0] == n && m[i] == t && (i > 0 ==> m[0].prio <= m[i].prio);
  }

  /** A yield brings a due task one place forward, or switches to it. */
  lemma PickDue(s: State, t: Task, i: nat)
    requires Inv(s) && Due(s, t, i) && s.cpus[t.cpu].phase == Guest
    ensures var s' := Step(s, Pick(t.cpu));
      if i == 0 then s'.cpus[t.cpu].next == The(t) else Due(s', t, i - 1)
  {
    DueSwitches(s, t, i);
    var j := FirstFor(s.ready, t.cpu);
    MineTake(s.ready, t.cpu, -2);
    TakeDue(s, t, i, j);
  }

  lemma TakeDue(s: State, t: Task, i: nat, j: nat)
    requires QueueOk(s) && Due(s, t, i) && j < |s.ready| && s.ready[j].cpu == t.cpu
    requires Mine(s.ready, t.cpu) == [s.ready[j]] + Mine(Without(s.ready, j), t.cpu)
    ensures i == 0 ==> s.ready[j] == t
    ensures i > 0 ==> i - 1 < |Mine(Without(s.ready, j), t.cpu)| && Mine(Without(s.ready, j), t.cpu)[i - 1] == t
    ensures s.ready[j].prio >= t.prio && forall u | u in Without(s.ready, j) :: u in s.ready
  {
    assert s.ready[j] in s.ready;
    WithoutKeeps(s.ready, j);
  }

  lemma OtherPickDue(s: State, c: nat, t: Task, i: nat)
    requires Inv(s) && Due(s, t, i) && (c != t.cpu || s.cpus[c].phase != Guest)
    ensures Due(Step(s, Pick(c)), t, i)
  {
    if c < |s.cpus| && Switches(s, c) {
      var j := FirstFor(s.ready, c);
      assert s.ready[j] in s.ready && s.ready[j] in s.saved;
      MineTake(s.ready, c, t.cpu);
      WithoutKeeps(s.ready, j);
    }
  }

  lemma RequeueDue(s: State, c: nat, t: Task, i: nat)
    requires Inv(s) && Due(s, t, i)
    ensures Due(Step(s, Requeue(c)), t, i)
  {
    if c < |s.cpus| && s.cpus[c].phase == Picked && s.cpus[c].cur.The? {
      assert CurOk(s, c);
      InsertDue(s.ready, s.cpus[c].cur.t, t, i);
    }
  }

  lemma CreateDue(s: State, u: Task, x: Context, t: Task, i: nat)
    requires Inv(s) && Due(s, t, i) && 0 <= u.cpu < |s.cpus| && (u.cpu == t.cpu ==> u.prio >= t.prio)
    ensures Due(Step(s, Create(u, x)), t, i)
  {
    if u !in s.saved { InsertDue(s.ready, u, t, i); }
  }

  /** How often the pCPU yields in a run. */
  function Yields(s: State, es: seq<Event>, c: nat): nat
    decreases |es|
  {
    if es == [] then 0
    else (if es[0] == Pick(c) && c < |s.cpus| && s.cpus[c].phase == Guest then 1 else 0) + Yields(Step(s, es[0]), es[1..], c)
  }

  /** No better-priority task is created for the pCPU of t. */
  ghost predicate NoBetterArrivals(es: seq<Event>, t: Task) {
    forall i | 0 <= i < |es| && es[i].Create? && es[i].t.cpu == t.cpu :: es[i].t.prio >= t.prio
  }

  lemma StepDue(s: State, e: Event, t: Task, i: nat)
    requires Inv(s) && Due(s, t, i) && CreatesPinned([e], |s.cpus|) && NoBetterArrivals([e], t)
    requires !(e == Pick(t.cpu) && s.cpus[t.cpu].phase == Guest)
    ensures Due(Step(s, e), t, i)
  {
    assert [e][0] == e;
    match e
    case Create(u, x) => CreateDue(s, u, x, t, i);
    case Run(c, x) =>
    case Pick(c) => OtherPickDue(s, c, t, i);
    case Requeue(c) => RequeueDue(s, c, t, i);
    case Save(c) =>
    case Restore(c) =>
  }

  /** One step: the task keeps its place, or moves up by one at a yield of its pCPU. */
  lemma FairStep(s: State, e: Event, t: Task, i: nat)
    requires Inv(s) && Due(s, t, i) && CreatesPinned([e], |s.cpus|) && NoBetterArrivals([e], t)
    requires e == Pick(t.cpu) && s.cpus[t.cpu].phase == Guest ==> i > 0
    ensures Inv(Step(s, e)) && |Step(s, e).cpus| == |s.cpus|
    ensures Due(Step(s, e), t, if e == Pick(t.cpu) && s.cpus[t.cpu].phase == Guest then i - 1 else i)
  {
    assert [e][0] == e;
    StepInv(s, e);
    if e == Pick(t.cpu) && s.cpus[t.cpu].phase == Guest {
      PickDue(s, t, i);
    } else {
      StepDue(s, e, t, i);
    }
  }

  lemma Tail(es: seq<Event>, n: nat, t: Task)
    requires es != [] && CreatesPinned(es, n) && NoBetterArrivals(es, t)
    ensures CreatesPinned([es[0]], n) && NoBetterArrivals([es[0]], t)
    ensures CreatesPinned(es[1..], n) && NoBetterArrivals(es[1..], t)
  {}

  /** A task with i tasks ahead on its pCPU moves up by one at each yield of that pCPU, whatever all pCPUs do
      in between ... */
  lemma {:induction false} MovesUp(s: State, es: seq<Event>, t: Task, i: nat, k: nat)
    requires Inv(s) && Due(s, t, i) && CreatesPinned(es, |s.cpus|) && NoBetterArrivals(es, t)
    requires i == k + Yields(s, es, t.cpu)
    ensures Inv(Exec(s, es)) && Due(Exec(s, es), t, k)
    decreases |es|
  {
    if es != [] {
      Tail(es, |s.cpus|, t);
      FairStep(s, es[0], t, i);
      var moved := es[0] == Pick(t.cpu) && s.cpus[t.cpu].phase == Guest;
      MovesUp(Step(s, es[0]), es[1..], t, if moved then i - 1 else i, k);
    }
  }

  /** ... and is dispatched at the (i+1)-th. */
  lemma Fairness(s: State, es: seq<Event>, t: Task, i: nat)
    requires Inv(s) && Due(s, t, i) && CreatesPinned(es, |s.cpus|) && NoBetterArrivals(es, t)
    requires Yields(s, es, t.cpu) == i && t.cpu < |Exec(s, es).cpus| && Exec(s, es).cpus[t.cpu].phase == Guest
    ensures var s' := Exec(s, es + [Pick(t.cpu)]); t.cpu < |s'.cpus| && s'.cpus[t.cpu].next == The(t)
  {
    MovesUp(s, es, t, i, 0);
    ExecSnoc(s, es, Pick(t.cpu));
    PickDue(Exec(s, es), t, 0);
  }

  lemma {:induction false} ExecSnoc(s: State, es: seq<Event>, e: Event)
    ensures Exec(s, es + [e]) == Step(Exec(s, es), e)
    decreases |es|
  {
    if es != [] {
      assert (es + [e])[1..] == es[1..] + [e];
      ExecSnoc(Step(s, es[0]), es[1..], e);
    }
  }

  // ----- what a yield and a run do

  /** A yield of a pCPU in the guest changes anything exactly when some task it may run is no worse than its
      current one; it then takes the first of the best of these off the queue. */
  lemma YieldExactly(s: State, c: nat)
    requires c < |s.cpus| && s.cpus[c].phase == Guest && Sorted(s.ready) && s.cpus[c].next == NoTask
    ensures Step(s, Pick(c)) != s
       <==> exists u :: u in s.ready && Eligible(u, c) && (s.cpus[c].cur.The? ==> u.prio <= s.cpus[c].cur.t.prio)
    ensures Step(s, Pick(c)) != s ==>
      var i, s' := FirstFor(s.ready, c), Step(s, Pick(c));
      && i < |s.ready| && s'.cpus[c].next == The(s.ready[i]) && s'.cpus[c].phase == Picked && s'.ready == s.ready[..i] + s.ready[i + 1..]
      && (forall u | u in s.ready && Eligible(u, c) :: s.ready[i].prio <= u.prio)
  {
    var i := FirstFor(s.ready, c);
    forall u | u in s.ready && Eligible(u, c) ensures i < |s.ready| && s.ready[i].prio <= u.prio {
      var j :| 0 <= j < |s.ready| && s.ready[j] == u;
      assert i <= j;
    }
    if i < |s.ready| { assert s.ready[i] in s.ready; }
  }

  /** A current task that is strictly better than all its pCPU may run keeps it. */
  lemma BetterKeeps(s: State, c: nat)
    requires c < |s.cpus| && s.cpus[c].phase == Guest && s.cpus[c].cur.The? && Sorted(s.ready) && s.cpus[c].next == NoTask
    requires forall u | u in s.ready && Eligible(u, c) :: s.cpus[c].cur.t.prio < u.prio
    ensures Step(s, Pick(c)) == s
  {
    YieldExactly(s, c);
  }

  /** A switch that is not interrupted: the task taken runs with the context saved for it, the old one is back
      in the queue with the context it left. */
  lemma SwitchCompletes(s: State, c: nat) returns (s1: State, s2: State, s3: State, s4: State)
    requires Inv(s) && c < |s.cpus| && Switches(s, c)
    ensures s1 == Step(s, Pick(c)) && s2 == Step(s1, Requeue(c)) && s3 == Step(s2, Save(c)) && s4 == Step(s3, Restore(c))
    ensures var t := s.ready[FirstFor(s.ready, c)];
      && t in s.saved && |s4.cpus| == |s.cpus| && s4.cpus[c] == Cpu(Guest, The(t), NoTask, s.saved[t])
      && (s.cpus[c].cur.The? ==> s.cpus[c].cur.t in s4.ready && s.cpus[c].cur.t in s4.saved && s4.saved[s.cpus[c].cur.t] == s.cpus[c].frame)
  {
    hide Pinned, SavedOk, Placed, NextOk, Insert, Without;
    var i := FirstFor(s.ready, c);
    assert s.ready[i] in s.ready && CurOk(s, c) && NextOk(s, c);
    s1 := Step(s, Pick(c));
    s2 := Step(s1, Requeue(c));
    if s.cpus[c].cur.The? {
      WithoutDistinct(s.ready, i, s.cpus[c].cur.t);
      InsertDistinct(s1.ready, s.cpus[c].cur.t);
    }
    s3 := Step(s2, Save(c));
    s4 := Step(s3, Restore(c));
  }

  lemma WithoutDistinct(q: seq<Task>, i: nat, u: Task)
    requires Distinct(q) && i < |q| && u !in q
    ensures Distinct(Without(q, i)) && u !in Without(q, i)
  {}

  /** The event gives the task a context: it is created with it, or it runs and leaves it. */
  predicate Leaves(s: State, e: Event, t: Task) {
    || (e.Create? && e.t == t && t !in s.saved)
    || (e.Run? && e.c < |s.cpus| && s.cpus[e.c].phase == Guest && s.cpus[e.c].cur == The(t))
  }

  /** Event k of the run was the last that gave the task a context. */
  ghost predicate LastLeft(s0: State, es: seq<Event>, t: Task, k: nat) {
    k < |es| && Leaves(Exec(s0, es[..k]), es[k], t) && forall j | k < j < |es| :: !Leaves(Exec(s0, es[..j]), es[j], t)
  }

  lemma LeftStep(s0: State, es: seq<Event>, e: Event, t: Task, k: nat)
    requires LastLeft(s0, es, t, k) && !Leaves(Exec(s0, es), e, t)
    ensures LastLeft(s0, es + [e], t, k)
  {
    forall j | 0 <= j < |es| ensures (es + [e])[..j] == es[..j] {}
    assert (es + [e])[..|es|] == es;
  }

  lemma LeftNow(s0: State, es: seq<Event>, e: Event, t: Task)
    requires Leaves(Exec(s0, es), e, t)
    ensures LastLeft(s0, es + [e], t, |es|)
  {
    assert (es + [e])[..|es|] == es;
  }

  /** In every run of pinned tasks exactly the created tasks are known, each with the context it was last given:
      by its creation, or by the guest that ran it. */
  lemma {:induction false} ContextHistory(n: nat, x: Context, es: seq<Event>, t: Task) returns (k: nat)
    requires CreatesPinned(es, n)
    ensures Inv(Exec(Init(n, x), es)) && |Exec(Init(n, x), es).cpus| == n
    ensures t in Exec(Init(n, x), es).saved <==> exists i :: 0 <= i < |es| && es[i].Create? && es[i].t == t
    ensures t in Exec(Init(n, x), es).saved ==> LastLeft(Init(n, x), es, t, k) && Exec(Init(n, x), es).last[t] == es[k].x
    decreases |es|
  {
    RunInv(Init(n, x), es);
    k := 0;
    if es != [] {
      var m, e := |es| - 1, es[|es| - 1];
      var pre := es[..m];
      assert es == pre + [e];
      k := ContextHistory(n, x, pre, t);
      var s := Exec(Init(n, x), pre);
      ExecSnoc(Init(n, x), pre, e);
      KnownStep(s, e, t);
      assert (exists i :: 0 <= i < |es| && es[i].Create? && es[i].t == t)
        <==> (exists i :: 0 <= i < |pre| && pre[i].Create? && pre[i].t == t) || (e.Create? && e.t == t);
      if Leaves(s, e, t) {
        LeftNow(Init(n, x), pre, e, t);
        k := m;
      } else if t in s.saved {
        LeftStep(Init(n, x), pre, e, t, k);
      }
    }
  }

  lemma KnownStep(s: State, e: Event, t: Task)
    requires Inv(s)
    ensures t in Step(s, e).saved <==> t in s.saved || (e.Create? && e.t == t)
    ensures Step(s, e).saved.Keys == Step(s, e).last.Keys
    ensures Leaves(s, e, t) ==> t in Step(s, e).last && Step(s, e).last[t] == e.x
    ensures !Leaves(s, e, t) && t in s.last ==> t in Step(s, e).last && Step(s, e).last[t] == s.last[t]
  {
    match e
    case Create(u, x) =>
    case Run(c, x) => if c < |s.cpus| { assert CurOk(s, c); }
    case Pick(c) =>
    case Requeue(c) =>
    case Save(c) => if c < |s.cpus| { assert CurOk(s, c); }
    case Restore(c) =>
  }

  // ----- without pinning

  /** The context of a task that any pCPU may take is lost: requeued before it is saved, it is restored
      elsewhere with the context of an earlier switch. */
  function Race(t: Task, b: Task, x: Context, y: Context): seq<Event> {
    [Create(t, x), Create(b, x), Pick(0), Requeue(0), Save(0), Restore(0), Run(0, y), Pick(0), Requeue(0),
     Pick(1), Requeue(1), Save(1), Restore(1)]
  }

  lemma ExecFrom(s: State, es: seq<Event>, i: nat)
    requires i < |es|
    ensures Exec(s, es[i..]) == Exec(Step(s, es[i]), es[i + 1..])
  {
    assert es[i..][1..] == es[i + 1..];
  }

  lemma ExecThree(s: State, es: seq<Event>, i: nat) returns (s': State)
    requires i + 3 <= |es|
    ensures s' == Step(Step(Step(s, es[i]), es[i + 1]), es[i + 2]) && Exec(s, es[i..]) == Exec(s', es[i + 3..])
  {
    ExecFrom(s, es, i);
    ExecFrom(Step(s, es[i]), es, i + 1);
    ExecFrom(Step(Step(s, es[i]), es[i + 1]), es, i + 2);
    s' := Step(Step(Step(s, es[i]), es[i + 1]), es[i + 2]);
  }

  lemma RaceStart(s: State, es: seq<Event>, t: Task, b: Task, x: Context) returns (s': State)
    requires |s.cpus| >= 2 && s.ready == [] && s.saved == map[] && s.last == map[] && s.cpus[0] == Cpu(Guest, NoTask, NoTask, x)
    requires t.cpu == -1 && b.cpu == -1 && b != t && b.prio == t.prio && |es| > 3 && es[..3] == [Create(t, x), Create(b, x), Pick(0)]
    ensures Exec(s, es) == Exec(s', es[3..]) && |s'.cpus| == |s.cpus| && s'.cpus[1] == s.cpus[1]
    ensures s'.ready == [b] && s'.cpus[0] == Cpu(Picked, NoTask, The(t), x) && t in s'.saved && t in s'.last && s'.saved[t] == x
  {
    assert es[0] == es[..3][0] && es[1] == es[..3][1] && es[2] == es[..3][2] && es[0..] == es;
    assert Insert([], t) == [t];
    assert Insert([t], b) == [t, b];
    assert Without([t, b], 0) == [b];
    s' := ExecThree(s, es, 0);
  }

  lemma RaceRun(s: State, es: seq<Event>, t: Task, b: Task, x: Context) returns (s': State)
    requires |s.cpus| >= 2 && |es| > 6 && es[3..6] == [Requeue(0), Save(0), Restore(0)]
    requires s.ready == [b] && s.cpus[0] == Cpu(Picked, NoTask, The(t), x) && t in s.saved && t in s.last && s.saved[t] == x
    ensures Exec(s, es[3..]) == Exec(s', es[6..]) && |s'.cpus| == |s.cpus| && s'.cpus[1] == s.cpus[1]
    ensures s'.ready == [b] && s'.cpus[0] == Cpu(Guest, The(t), NoTask, x) && s'.saved == s.saved && s'.last == s.last
  {
    assert es[3] == es[3..6][0] && es[4] == es[3..6][1] && es[5] == es[3..6][2];
    s' := ExecThree(s, es, 3);
  }

  lemma RaceRequeue(s: State, es: seq<Event>, t: Task, b: Task, x: Context, y: Context) returns (s': State)
    requires |s.cpus| >= 2 && t.cpu == -1 && b.cpu == -1 && b != t && b.prio == t.prio && |es| > 9
    requires es[6..9] == [Run(0, y), Pick(0), Requeue(0)]
    requires s.cpus[0] == Cpu(Guest, The(t), NoTask, x) && s.ready == [b]
    ensures Exec(s, es[6..]) == Exec(s', es[9..]) && |s'.cpus| == |s.cpus| && s'.cpus[1] == s.cpus[1]
    ensures s'.ready == [t] && s'.saved == s.saved && s'.last == s.last[t := y]
  {
    assert es[6] == es[6..9][0] && es[7] == es[6..9][1] && es[8] == es[6..9][2];
    assert Without([b], 0) == [] && Insert([], t) == [t];
    s' := ExecThree(s, es, 6);
  }

  lemma RaceEnd(s: State, es: seq<Event>, t: Task, x: Context, y: Context)
    requires |s.cpus| >= 2 && t.cpu == -1 && x != y && s.ready == [t] && s.cpus[1] == Cpu(Guest, NoTask, NoTask, x)
    requires t in s.saved && t in s.last && s.saved[t] == x && s.last[t] == y
    requires |es| == 13 && es[9..13] == [Pick(1), Requeue(1), Save(1), Restore(1)]
    ensures !RunsLast(Exec(s, es[9..]))
  {
    assert es[9] == es[9..13][0] && es[10] == es[9..13][1] && es[11] == es[9..13][2] && es[12] == es[9..13][3];
    var s1 := ExecThree(s, es, 9);
    assert s1.cpus[1] == Cpu(Saved, NoTask, The(t), x) && s1.saved[t] == x && s1.last[t] == y;
    ExecFrom(s1, es, 12);
    var s2 := Step(s1, es[12]);
    assert s2.cpus[1] == Cpu(Guest, The(t), NoTask, x) && s2.last[t] == y;
    assert es[13..] == [];
  }

  /** Two pCPUs and one other task of the same priority suffice. */
  lemma UnpinnedLosesContext(n: nat, t: Task, b: Task, x: Context, y: Context)
    requires n >= 2 && t.cpu == -1 && b.cpu == -1 && b != t && b.prio == t.prio && x != y
    ensures !RunsLast(Exec(Init(n, x), Race(t, b, x, y)))
  {
    var es := Race(t, b, x, y);
    var s1 := RaceStart(Init(n, x), es, t, b, x);
    var s2 := RaceRun(s1, es, t, b, x);
    var s3 := RaceRequeue(s2, es, t, b, x, y);
    RaceEnd(s3, es, t, x, y);
  }

  /** Only tasks of these affinities are created. */
  ghost predicate CreatesIn(es: seq<Event>, affinities: set<int>) {
    forall i | 0 <= i < |es| && es[i].Create? :: es[i].t.cpu in affinities
  }

  /** Single dispatch with the context last run with, and nothing lost. */
  ghost predicate Sound(s: State) {
    RunsLast(s) && DispatchedOnce(s) && forall t | t in s.saved :: Placed(s, t)
  }

  ghost predicate AlwaysSound(n: nat, affinities: set<int>) {
    forall x: Context, es: seq<Event> | CreatesIn(es, affinities) :: Sound(Exec(Init(n, x), es))
  }

  lemma RaceCreates(t: Task, b: Task, x: Context, y: Context, affinities: set<int>)
    requires t.cpu in affinities && b.cpu in affinities
    ensures CreatesIn(Race(t, b, x, y), affinities)
  {}

  lemma UnsoundRun(n: nat, affinities: set<int>) returns (x: Context, es: seq<Event>)
    requires n >= 2 && -1 in affinities
    ensures CreatesIn(es, affinities) && !Sound(Exec(Init(n, x), es))
  {
    x := Context([], []);
    var y, t, b := Context([0], []), Task(0, 0, -1), Task(1, 0, -1);
    assert |x.regs| != |y.regs|;
    UnpinnedLosesContext(n, t, b, x, y);
    RaceCreates(t, b, x, y, affinities);
    es := Race(t, b, x, y);
  }

  /** Whatever affinities a system uses, every interleaving is sound exactly when -1 is not among them. */
  lemma SoundExactlyWhenPinned(n: nat, affinities: set<int>)
    requires n >= 2 && forall a | a in affinities :: -1 <= a < n
    ensures AlwaysSound(n, affinities) <==> -1 !in affinities
  {
    if -1 in affinities {
      var x, es := UnsoundRun(n, affinities);
    } else {
      forall x: Context, es: seq<Event> | CreatesIn(es, affinities) ensures Sound(Exec(Init(n, x), es)) {
        Safety(n, x, es);
      }
    }
  }
}
