/** Whole runs of a heap's client: any sequence of allocations, releases, resizes and payload writes. */
module TlsfRuns {
  import opened Bits
  import opened TlsfMapping
  import opened TlsfBlocks
  import TlsfLists
  import opened TlsfShape
  import opened TlsfAlign
  import opened TlsfHeap

  /** What a client asks for; pointers are named by their position in its list of live pointers. */
  datatype Op =
    | Malloc(size: nat)
    | Memalign(k: nat, size: nat)
    | Free(i: nat)
    | Realloc(i: nat, size: nat)
    | Write(i: nat, j: nat, v: int)

  /** What came of it: word j of pointer p was written, p was freed, or the first n bytes at p are now at q. */
  datatype Event = Wrote(p: int, j: int, v: int) | Freed(p: int) | Moved(p: int, q: int, n: nat)

  type Memory = map<(int, int), int>

  /** The words of live blocks a client knows: the last value written to each. */
  function Known(log: seq<Event>): Memory {
    if log == [] then map[]
    else
      var known := Known(log[..|log| - 1]);
      match log[|log| - 1]
      case Wrote(p, j, v) => known[(p, j) := v]
      case Freed(p) => Others(known, p)
      case Moved(p, q, n) => Redirected(known, p, q, n)
  }

  function Others(known: Memory, p: int): Memory {
    map k | k in known && k.0 != p :: known[k]
  }

  /** The whole words among the first n bytes at p, now at q. */
  function Carried(known: Memory, p: int, q: int, n: nat): Memory {
    map k | k in known && k.0 == p && 8 * (k.1 + 1) <= n :: (q, k.1) := known[k]
  }

  /** What is known after the first n bytes at p went to q. */
  function Redirected(known: Memory, p: int, q: int, n: nat): Memory {
    Others(Others(known, p), q) + Carried(known, p, q, n)
  }

  /** Where a word written to word j of pointer p is after the events: at the pointer that block has now, or
      gone, because it was overwritten, freed or cut off (or its pointer handed out anew, which the allocator
      does to no live one). */
  datatype Place = Gone | Stays(p: int)

  function Now(log: seq<Event>, p: int, j: int): Place {
    if log == [] then Stays(p)
    else Follow(Now(log[..|log| - 1], p, j), log[|log| - 1], j)
  }

  /** One more event for word j of a block. */
  function Follow(place: Place, e: Event, j: int): Place {
    if place.Gone? then Gone
    else
      match e
      case Wrote(q, i, _) => if q == place.p && i == j then Gone else place
      case Freed(q) => if q == place.p then Gone else place
      case Moved(q, r, n) => if q == place.p then (if 8 * (j + 1) <= n then Stays(r) else Gone) else if r == place.p then Gone else place
  }

  /** A word last written by event k and still there is known, at its block's present pointer. */
  lemma {:induction false} LastWritten(log: seq<Event>, k: nat)
    requires k < |log| && log[k].Wrote?
    ensures var e, place := log[k], Now(log[k + 1..], log[k].p, log[k].j);
      place.Stays? ==> (place.p, e.j) in Known(log) && Known(log)[(place.p, e.j)] == e.v
    decreases |log|
  {
    var n := |log| - 1;
    if k < n {
      LastWritten(log[..n], k);
      NowStep(log, k, n, log[k].p, log[k].j);
      FollowKnown(Known(log[..n]), Now(log[..n][k + 1..], log[k].p, log[k].j), log[..n], log[n], log[k].j, log[k].v);
      assert log[..n] + [log[n]] == log;
    }
  }

  /** An event that leaves the word leaves what is known of it. */
  lemma FollowKnown(known: Memory, place: Place, log: seq<Event>, e: Event, j: int, v: int)
    requires known == Known(log) && (place.Stays? ==> (place.p, j) in known && known[(place.p, j)] == v)
    ensures var next := Follow(place, e, j); next.Stays? ==> (next.p, j) in Known(log + [e]) && Known(log + [e])[(next.p, j)] == v
  {
    KnownSnoc(log, e);
  }

  lemma NowStep(log: seq<Event>, k: nat, n: nat, p: int, j: int)
    requires k < n && n + 1 == |log|
    ensures Now(log[k + 1..], p, j) == Follow(Now(log[..n][k + 1..], p, j), log[n], j)
  {
    assert log[k + 1..][n - k - 1] == log[n] && log[k + 1..][..n - k - 1] == log[..n][k + 1..];
  }

  lemma KnownSnoc(log: seq<Event>, e: Event)
    ensures (log + [e])[..|log + [e]| - 1] == log && (log + [e])[|log|] == e
    ensures e.Moved? ==> Known(log + [e]) == Redirected(Known(log), e.p, e.q, e.n)
    ensures e.Freed? ==> Known(log + [e]) == Others(Known(log), e.p)
    ensures e.Wrote? ==> Known(log + [e]) == Known(log)[(e.p, e.j) := e.v]
  {
    assert (log + [e])[..|log|] == log;
  }

  /** Nothing else is known. */
  lemma {:induction false} KnownWasWritten(log: seq<Event>, q: int, j: int) returns (k: nat)
    requires (q, j) in Known(log)
    ensures k < |log| && log[k].Wrote? && log[k].j == j && log[k].v == Known(log)[(q, j)]
    ensures Now(log[k + 1..], log[k].p, j) == Stays(q)
    decreases |log|
  {
    var n := |log| - 1;
    var init, last := log[..n], log[n];
    if last.Wrote? && last.p == q && last.j == j {
      k := n;
    } else {
      var from := if last.Moved? && q == last.q then last.p else q;
      k := KnownWasWritten(init, from, j);
      NowStep(log, k, n, log[k].p, j);
    }
  }

  /** Every word a client wrote and that is still there has its value in memory. */
  ghost predicate Remembered(m: seq<int>, log: seq<Event>) {
    forall k {:trigger log[k]} | 0 <= k < |log| && log[k].Wrote? :: WordKept(m, log, k)
  }

  ghost predicate WordKept(m: seq<int>, log: seq<Event>, k: nat)
    requires k < |log| && log[k].Wrote?
  {
    var place := Now(log[k + 1..], log[k].p, log[k].j);
    place.Stays? ==> 0 <= place.p + log[k].j < |m| && m[place.p + log[k].j] == log[k].v
  }

  lemma HoldsRemembered(m: seq<int>, used: map<int, int>, log: seq<Event>)
    requires Holds(m, used, Known(log))
    ensures Remembered(m, log)
  {
    forall k | 0 <= k < |log| && log[k].Wrote? ensures WordKept(m, log, k) {
      LastWritten(log, k);
      var place := Now(log[k + 1..], log[k].p, log[k].j);
      if place.Stays? { assert HoldsAt(m, used, (place.p, log[k].j), log[k].v); }
    }
  }

  /** Memory holds what the client knows, in blocks it holds. */
  ghost predicate Holds(m: seq<int>, used: map<int, int>, known: Memory) {
    forall k {:trigger known[k]} | k in known :: HoldsAt(m, used, k, known[k])
  }

  ghost predicate HoldsAt(m: seq<int>, used: map<int, int>, k: (int, int), v: int) {
    k.0 - 2 in used && 0 <= k.1 < used[k.0 - 2] && 0 <= k.0 + k.1 < |m| && m[k.0 + k.1] == v
  }

  /** Blocks that stay in use with their length keep what is known of them. */
  lemma HoldsKept(m: seq<int>, used: map<int, int>, m': seq<int>, used': map<int, int>, bs: Blocks, known: Memory)
    requires Holds(m, used, known) && PayloadKept(m, m', bs)
    requires forall k | k in known :: SameBlock(used, used', bs, k.0 - 2)
    ensures Holds(m', used', known)
  {
    forall k | k in known ensures HoldsAt(m', used', k, known[k]) {
      assert HoldsAt(m, used, k, known[k]) && SameBlock(used, used', bs, k.0 - 2);
      var h, i := k.0 - 2, k.0 + k.1;
      assert InPayload(bs, h, i);
    }
  }

  ghost predicate SameBlock(used: map<int, int>, used': map<int, int>, bs: Blocks, h: int) {
    h in used && h in used' && h in Used(bs) && used[h] == used'[h] == bs[h].w
  }

  lemma HoldsOthers(m: seq<int>, used: map<int, int>, known: Memory, p: int)
    requires Holds(m, used, known)
    ensures Holds(m, used, Others(known, p))
  {
    forall k | k in Others(known, p) ensures HoldsAt(m, used, k, Others(known, p)[k]) {
      assert HoldsAt(m, used, k, known[k]);
    }
  }

  /** A new block disturbs nothing that is known. */
  lemma HoldsNew(m: seq<int>, m': seq<int>, bs: Blocks, bs': Blocks, known: Memory, h: int)
    requires Holds(m, Used(bs), known) && PayloadKept(m, m', bs) && h !in Used(bs)
    requires h in bs' && Used(bs') == Used(bs)[h := bs'[h].w]
    ensures Holds(m', Used(bs'), known)
  {
    forall k | k in known ensures SameBlock(Used(bs), Used(bs'), bs, k.0 - 2) { assert HoldsAt(m, Used(bs), k, known[k]); }
    HoldsKept(m, Used(bs), m', Used(bs'), bs, known);
  }

  lemma HoldsFreed(m: seq<int>, m': seq<int>, bs: Blocks, bs': Blocks, known: Memory, p: int)
    requires Holds(m, Used(bs), known) && PayloadKept(m, m', bs') && Used(bs') == Used(bs) - {p - 2}
    ensures Holds(m', Used(bs'), Others(known, p))
  {
    HoldsOthers(m, Used(bs), known, p);
    forall k | k in Others(known, p) ensures SameBlock(Used(bs), Used(bs'), bs', k.0 - 2) {
      assert HoldsAt(m, Used(bs), k, known[k]);
      assert k.0 - 2 in Used(bs');
    }
    HoldsKept(m, Used(bs), m', Used(bs'), bs', Others(known, p));
  }

  lemma HoldsMoved(m: seq<int>, m': seq<int>, bs: Blocks, bs': Blocks, known: Memory, p: int, q: int, n: nat)
    requires Holds(m, Used(bs), known) && PayloadKept(m, m', bs - {p - 2}) && (p == q || q - 2 !in Used(bs))
    requires q - 2 in bs' && Used(bs') == (Used(bs) - {p - 2})[q - 2 := bs'[q - 2].w]
    requires Heap.SameBytes(m, p, m', q, n) && n <= 8 * bs'[q - 2].w && |m| == |m'|
    ensures Holds(m', Used(bs'), Redirected(known, p, q, n))
  {
    var known' := Redirected(known, p, q, n);
    forall k | k in known' ensures HoldsAt(m', Used(bs'), k, known'[k]) {
      if k.0 == q {
        MovedWord(m, m', Used(bs), known, p, q, n, k.1);
        assert k.1 < bs'[q - 2].w;
      } else {
        assert HoldsAt(m, Used(bs), k, known[k]) && InPayload(bs - {p - 2}, k.0 - 2, k.0 + k.1);
      }
    }
  }

  /** A whole word that was carried along is at its new place. */
  lemma MovedWord(m: seq<int>, m': seq<int>, used: map<int, int>, known: Memory, p: int, q: int, n: nat, j: int)
    requires Holds(m, used, known) && Heap.SameBytes(m, p, m', q, n) && |m| == |m'| && (q, j) in Redirected(known, p, q, n)
    ensures 0 <= j && 8 * (j + 1) <= n && 0 <= q + j < |m'| && m'[q + j] == Redirected(known, p, q, n)[(q, j)]
  {
    assert (q, j) in Carried(known, p, q, n);
    assert HoldsAt(m, used, (p, j), known[(p, j)]);
    assert q <= q + j < q + n / 8;
  }

  lemma HoldsWrote(m: seq<int>, m': seq<int>, used: map<int, int>, known: Memory, p: int, j: int, v: int)
    requires Holds(m, used, known) && p - 2 in used && 0 <= j < used[p - 2] && 0 <= p + j < |m| && m' == m[p + j := v]
    requires forall h | h in used && h != p - 2 :: h + 2 + used[h] <= p || p + used[p - 2] <= h + 2
    ensures Holds(m', used, known[(p, j) := v])
  {
    var known' := known[(p, j) := v];
    forall k | k in known' ensures HoldsAt(m', used, k, known'[k]) {
      if k != (p, j) { assert HoldsAt(m, used, k, known[k]); }
    }
  }

  class Client {
    const heap: Heap
    var ptrs: seq<int>
    ghost var log: seq<Event>

    ghost predicate Valid()
      reads this, heap, heap.mem
    {
      heap.Valid() && heap.AreLive(ptrs) && Holds(heap.mem[..], Used(heap.bs), Known(log))
    }

    constructor (h: Heap)
      requires h.Valid() && Used(h.bs).Keys == {h.last}
      ensures Valid() && heap == h && ptrs == [] && log == []
    {
      heap, ptrs, log := h, [], [];
    }

    /** A pointer that was not live joins the list. */
    lemma Gained(qs: seq<int>, p: int, used: set<int>)
      requires heap.Valid() && heap.Live(p) && ListOf(qs, used, heap.last) && p - 2 !in used && Used(heap.bs).Keys == used + {p - 2}
      ensures heap.AreLive(qs + [p]) && p !in qs
    {
      heap.ReadBlock({}, p - 2);
      ListGains(qs, p, used, heap.last);
    }

    ghost function State(): Snap
      reads this, heap
    {
      Snap(ptrs, heap.bs)
    }

    method DoMalloc(size: nat)
      requires Valid() && size < SIZE_T_RANGE
      modifies this`ptrs, heap, heap.mem
      ensures Valid() && Gave(old(State()), State(), Heap.Granted(size))
    {
      ghost var m0, bs0 := heap.mem[..], heap.bs;
      var p := heap.Malloc(size);
      if p != 0 {
        HoldsNew(m0, heap.mem[..], bs0, heap.bs, Known(log), p - 2);
        assert Used(heap.bs).Keys == Used(bs0).Keys + {p - 2};
        Gained(ptrs, p, Used(bs0).Keys);
        ptrs := ptrs + [p];
      }
    }

    method DoMemalign(k: nat, align: nat, size: nat)
      requires Valid() && size < SIZE_T_RANGE && k <= 62 && align == Pow2(k) && align < SIZE_T_RANGE
      modifies this`ptrs, heap, heap.mem
      ensures Valid() && Gave(old(State()), State(), Heap.AlignedRequest(size, align))
    {
      ghost var m0, bs0 := heap.mem[..], heap.bs;
      var p := heap.Memalign(k, align, size);
      if p != 0 {
        HoldsNew(m0, heap.mem[..], bs0, heap.bs, Known(log), p - 2);
        assert Used(heap.bs).Keys == Used(bs0).Keys + {p - 2};
        Gained(ptrs, p, Used(bs0).Keys);
        ptrs := ptrs + [p];
      }
    }

    method DoFree(i: nat)
      requires Valid() && i < |ptrs|
      modifies this`ptrs, this`log, heap, heap.mem
      ensures Valid() && ptrs == TlsfLists.Without(old(ptrs), i) && log == old(log) + [Freed(old(ptrs)[i])]
    {
      ghost var m0, bs0, known := heap.mem[..], heap.bs, Known(log);
      var p := ptrs[i];
      LiveAt(i);
      heap.Free(p);
      HoldsFreed(m0, heap.mem[..], bs0, heap.bs, known, p);
      FreedLive(bs0, p, i);
      KnownSnoc(log, Freed(p));
      ptrs := TlsfLists.Without(ptrs, i);
      log := log + [Freed(p)];
    }

    lemma LiveAt(i: nat)
      requires heap.Valid() && heap.AreLive(ptrs) && i < |ptrs|
      ensures heap.Live(ptrs[i]) && ptrs[i] != 0 && ptrs[i] - 2 in Used(heap.bs) && ListOf(ptrs, Used(heap.bs).Keys, heap.last)
    {
      ListRemoved(ptrs, i, Used(heap.bs).Keys, heap.last);
    }

    lemma FreedLive(bs0: Blocks, p: int, i: nat)
      requires i < |ptrs| && ptrs[i] == p && ListOf(ptrs, Used(bs0).Keys, heap.last) && Used(heap.bs) == Used(bs0) - {p - 2}
      ensures heap.AreLive(TlsfLists.Without(ptrs, i))
    {
      ListRemoved(ptrs, i, Used(bs0).Keys, heap.last);
      assert Used(heap.bs).Keys == Used(bs0).Keys - {p - 2};
    }

    method DoWrite(i: nat, j: nat, v: int)
      requires Valid() && i < |ptrs| && ptrs[i] - 2 in heap.bs && j < heap.bs[ptrs[i] - 2].w
      modifies this`log, heap.mem
      ensures Valid() && log == old(log) + [Wrote(ptrs[i], j, v)]
    {
      ghost var view, known := heap.Snapshot(), Known(log);
      var p := ptrs[i];
      LiveAt(i);
      heap.ReadBlock({}, p - 2);
      heap.Store(p + j, v);
      view.PayloadWrite(heap.mem[..], p - 2);
      forall h | h in Used(heap.bs) && h != p - 2 ensures h + 2 + Used(heap.bs)[h] <= p || p + Used(heap.bs)[p - 2] <= h + 2 {
        heap.LiveApart(h, p - 2);
      }
      HoldsWrote(view.m, heap.mem[..], Used(heap.bs), known, p, j, v);
      KnownSnoc(log, Wrote(p, j, v));
      log := log + [Wrote(p, j, v)];
    }

    method DoRealloc(i: nat, size: nat) returns (q: int)
      requires Valid() && i < |ptrs| && 0 < size <= BLOCK_SIZE_MAX - 8
      modifies this`ptrs, this`log, heap, heap.mem
      ensures Valid() && ResizeAnswer(old(State()), State(), i, size, q)
      ensures log == old(log) + if q == 0 then [] else [Moved(old(ptrs)[i], q, Kept(old(heap.bs), old(ptrs)[i], size))]
    {
      hide ResizeAnswer, Holds, Known, Used, Kept, ListOf, Heap.Valid, Heap.Resized, Heap.AreLive, Heap.Live, TlsfLists.Without;
      ghost var m0, bs0 := heap.mem[..], heap.bs;
      var p := ptrs[i];
      LiveAt(i);
      q := heap.Realloc(p, size);
      AfterRealloc(m0, bs0, i, size, q);
      if q != 0 {
        ptrs := TlsfLists.Without(ptrs, i) + [q];
        log := log + [Moved(p, q, Kept(bs0, p, size))];
      }
    }

    /** Everything that holds after a resize, whichever way it went. */
    lemma AfterRealloc(m0: seq<int>, bs0: Blocks, i: nat, size: nat, q: int)
      requires heap.Valid() && i < |ptrs| && 0 < size <= BLOCK_SIZE_MAX - 8 && ListOf(ptrs, Used(bs0).Keys, heap.last)
      requires ptrs[i] - 2 in bs0 && bs0[ptrs[i] - 2].w >= 0 && ptrs[i] - 2 in Used(bs0)
      requires heap.Resized(bs0, m0, ptrs[i], q, size, Heap.Granted(size)) && Holds(m0, Used(bs0), Known(log))
      ensures var qs, log' := TlsfLists.Without(ptrs, i) + [q], log + [Moved(ptrs[i], q, Kept(bs0, ptrs[i], size))];
        if q == 0 then heap.AreLive(ptrs) && ResizeAnswer(Snap(ptrs, bs0), Snap(ptrs, heap.bs), i, size, q)
                       && Holds(heap.mem[..], Used(heap.bs), Known(log))
        else heap.AreLive(qs) && ResizeAnswer(Snap(ptrs, bs0), Snap(qs, heap.bs), i, size, q) && Holds(heap.mem[..], Used(heap.bs), Known(log'))
    {
      var p := ptrs[i];
      Heap.GrantCoversExactly(size);
      if q != 0 {
        MovedLive(m0, bs0, p, q, i, size, Heap.Granted(size));
        MovedHolds(m0, bs0, p, q, size, Heap.Granted(size));
        KnownSnoc(log, Moved(p, q, Kept(bs0, p, size)));
      }
      Resizes(bs0, m0, i, p, size, q, Heap.Granted(size));
    }

    /** The allocator's answer, as the client sees it. */
    lemma Resizes(bs0: Blocks, m0: seq<int>, i: nat, p: int, size: nat, q: int, adjust: nat)
      requires i < |ptrs| && ptrs[i] == p && size < SIZE_T_RANGE && p - 2 in bs0 && bs0[p - 2].w >= 0 && adjust == Heap.Granted(size)
      requires heap.Resized(bs0, m0, p, q, size, adjust) && (q != 0 && q != p ==> q !in ptrs)
      ensures ResizeAnswer(Snap(ptrs, bs0), Snap(if q == 0 then ptrs else TlsfLists.Without(ptrs, i) + [q], heap.bs), i, size, q)
    {}

    lemma MovedLive(m0: seq<int>, bs0: Blocks, p: int, q: int, i: nat, size: nat, adjust: nat)
      requires heap.Valid() && i < |ptrs| && ptrs[i] == p && p - 2 in bs0 && bs0[p - 2].w >= 0
      requires ListOf(ptrs, Used(bs0).Keys, heap.last) && heap.ResizedTo(bs0, m0, p, q, size, adjust)
      ensures heap.AreLive(TlsfLists.Without(ptrs, i) + [q]) && (q == p || q !in ptrs)
    {
      var used := Used(bs0).Keys;
      if q != p { NotListed(ptrs, q, used, heap.last); }
      ListRemoved(ptrs, i, used, heap.last);
      assert Used(heap.bs).Keys == used - {p - 2} + {q - 2};
      Gained(TlsfLists.Without(ptrs, i), q, used - {p - 2});
    }

    lemma MovedHolds(m0: seq<int>, bs0: Blocks, p: int, q: int, size: nat, adjust: nat)
      requires p - 2 in Used(bs0) && bs0[p - 2].w >= 0 && 0 < size <= adjust
      requires Holds(m0, Used(bs0), Known(log)) && heap.ResizedTo(bs0, m0, p, q, size, adjust)
      ensures Holds(heap.mem[..], Used(heap.bs), Redirected(Known(log), p, q, Kept(bs0, p, size)))
    {
      HoldsMoved(m0, heap.mem[..], bs0, heap.bs, Known(log), p, q, Kept(bs0, p, size));
    }

    /** One request; it is ignored when it names no live pointer or no word of its block. */
    method Do(op: Op) returns (ghost events: seq<Event>)
      requires Valid() && Legal(op)
      modifies this`ptrs, this`log, heap, heap.mem
      ensures Valid() && log == old(log) + events && Answered(op, old(State()), State(), events)
    {
      hide Holds, Known, Used, ListOf, Heap.AreLive, Gave, Heap.Granted, Heap.AlignedRequest, Pow2;
      events := [];
      ghost var log0 := log;
      match op
      case Malloc(size) => DoMalloc(size);
      case Memalign(k, size) => DoMemalign(k, Pow2(k), size);
      case Free(i) => if i < |ptrs| { events := [Freed(ptrs[i])]; DoFree(i); }
      case Realloc(i, size) => if i < |ptrs| { events := DoResize(i, size); }
      case Write(i, j, v) => if i < |ptrs| { events := DoStore(i, j, v); }
    }

    /** A `realloc` of a live block, to no size as well. */
    method DoResize(i: nat, size: nat) returns (ghost events: seq<Event>)
      requires Valid() && i < |ptrs| && Legal(Realloc(i, size))
      modifies this`ptrs, this`log, heap, heap.mem
      ensures Valid() && log == old(log) + events && Answered(Realloc(i, size), old(State()), State(), events)
    {
      hide Holds, Known, Used, ListOf, Heap.AreLive, Gave, Heap.Granted, Heap.AlignedRequest, Pow2;
      events := [];
      if size == 0 {
        events := [Freed(ptrs[i])];
        DoFree(i);
      } else {
        ghost var p, bs0 := ptrs[i], heap.bs;
        BlockOf(i);
        var q := DoRealloc(i, size);
        if q != 0 { events := [Moved(p, q, Kept(bs0, p, size))]; }
      }
    }

    /** A write to word j, which is ignored when the block has no such word. */
    method DoStore(i: nat, j: nat, v: int) returns (ghost events: seq<Event>)
      requires Valid() && i < |ptrs|
      modifies this`log, heap.mem
      ensures Valid() && log == old(log) + events && Answered(Write(i, j, v), old(State()), State(), events)
    {
      hide Holds, Known, Used, ListOf, Heap.AreLive, Gave, Heap.Granted, Heap.AlignedRequest, Pow2;
      events := [];
      BlockOf(i);
      if 8 * (j + 1) <= heap.BlockSize(ptrs[i] - 2) {
        events := [Wrote(ptrs[i], j, v)];
        DoWrite(i, j, v);
      }
    }

    lemma BlockOf(i: nat)
      requires Valid() && i < |ptrs|
      ensures ptrs[i] - 2 in heap.bs && 0 <= ptrs[i] - 1 < heap.mem.Length
      ensures heap.BlockSize(ptrs[i] - 2) == 8 * heap.bs[ptrs[i] - 2].w && 0 <= heap.bs[ptrs[i] - 2].w
    {
      LiveAt(i);
      heap.ReadBlock({}, ptrs[i] - 2);
    }

    /** Any run answers every request as `Answered` says, keeps the heap valid and, word for word, everything
        the client wrote into blocks it still holds. `hist` are the states before, between and after the
        requests, `events` what came of each. */
    method Run(ops: seq<Op>) returns (ghost hist: seq<Snap>, ghost events: seq<seq<Event>>)
      requires Valid() && forall i | 0 <= i < |ops| :: Legal(ops[i])
      modifies this`ptrs, this`log, heap, heap.mem
      ensures Valid() && Remembered(heap.mem[..], log) && log == old(log) + Flat(events)
      ensures |hist| == |ops| + 1 && |events| == |ops| && hist[0] == old(State()) && hist[|ops|] == State()
      ensures History(ops, hist, events, |ops|)
    {
      hide Legal, Remembered, Used, Heap.AreLive, ListOf;
      hist, events := [State()], [];
      for i := 0 to |ops|
        invariant Valid() && log == old(log) + Flat(events)
        invariant |hist| == i + 1 && |events| == i && hist[0] == old(State()) && hist[i] == State()
        invariant History(ops, hist, events, i)
      {
        ghost var e := Do(ops[i]);
        FlatSnoc(events, e);
        HistorySnoc(ops, hist, events, i, State(), e);
        hist, events := hist + [State()], events + [e];
      }
      HoldsRemembered(heap.mem[..], Used(heap.bs), log);
    }

    /** ... and when it then frees what is left, the heap is the one initial block again. */
    method RunAndFree(ops: seq<Op>)
      requires Valid() && forall i | 0 <= i < |ops| :: Legal(ops[i])
      modifies this`ptrs, this`log, heap, heap.mem
      ensures heap.Valid() && heap.bs == OneFreeBlock(heap.first, heap.last)
    {
      ghost var _, _ := Run(ops);
      heap.FreeAll(ptrs);
    }
  }

  // ----- what a request comes to

  /** The live pointers and the blocks. */
  datatype Snap = Snap(ptrs: seq<int>, bs: Blocks)

  /** The request and what it came to. */
  ghost predicate Answered(op: Op, s0: Snap, s1: Snap, events: seq<Event>)
    requires Legal(op)
  {
    match op
    case Malloc(size) => events == [] && Gave(s0, s1, Heap.Granted(size))
    case Memalign(k, size) => events == [] && Gave(s0, s1, Heap.AlignedRequest(size, Pow2(k)))
    case Free(i) => Released(s0, s1, i, events)
    case Realloc(i, size) =>
      if size == 0 || i >= |s0.ptrs| then Released(s0, s1, i, events)
      else
        var p := s0.ptrs[i];
        exists q :: ResizeAnswer(s0, s1, i, size, q) && s0.bs[p - 2].w >= 0
                    && var n := if 8 * s0.bs[p - 2].w < size then 8 * s0.bs[p - 2].w else size;
                       events == if q == 0 then [] else [Moved(p, q, n)]
    case Write(i, j, v) =>
      s1 == s0
      && events == if i < |s0.ptrs| && s0.ptrs[i] - 2 in s0.bs && j < s0.bs[s0.ptrs[i] - 2].w then [Wrote(s0.ptrs[i], j, v)] else []
  }

  /** The first n requests, each with what it came to. */
  ghost predicate History(ops: seq<Op>, hist: seq<Snap>, events: seq<seq<Event>>, n: nat)
    requires forall i | 0 <= i < |ops| :: Legal(ops[i])
  {
    n <= |ops| && n < |hist| && n <= |events| && forall i | 0 <= i < n :: Answered(ops[i], hist[i], hist[i + 1], events[i])
  }

  lemma HistorySnoc(ops: seq<Op>, hist: seq<Snap>, events: seq<seq<Event>>, n: nat, s: Snap, e: seq<Event>)
    requires forall i | 0 <= i < |ops| :: Legal(ops[i])
    requires History(ops, hist, events, n) && |hist| == n + 1 && |events| == n < |ops| && Answered(ops[n], hist[n], s, e)
    ensures History(ops, hist + [s], events + [e], n + 1)
  {
    var hist', events' := hist + [s], events + [e];
    forall i | 0 <= i < n + 1 ensures Answered(ops[i], hist'[i], hist'[i + 1], events'[i]) {
      if i < n { assert Answered(ops[i], hist[i], hist[i + 1], events[i]); }
    }
  }

  /** A new pointer at the end of the list, unless nothing is asked for or no suitable class is populated. */
  ghost predicate Gave(s0: Snap, s1: Snap, request: nat) {
    if request == 0 || Heap.NoneSuitable(s0.bs, request) then s1 == s0
    else
      var n := |s0.ptrs|;
      |s1.ptrs| == n + 1 && s1.ptrs[..n] == s0.ptrs && s1.ptrs[n] !in s0.ptrs
  }

  ghost predicate Released(s0: Snap, s1: Snap, i: nat, events: seq<Event>) {
    if i < |s0.ptrs| then s1.ptrs == TlsfLists.Without(s0.ptrs, i) && events == [Freed(s0.ptrs[i])]
    else s1 == s0 && events == []
  }

  /** q is null, and nothing changed, exactly when the block had to move and there was no place for it; it is
      the old pointer exactly when the block need not move, and otherwise one that was not live. */
  ghost predicate ResizeAnswer(s0: Snap, s1: Snap, i: nat, size: nat, q: int)
    requires i < |s0.ptrs| && size < SIZE_T_RANGE
  {
    var p, g := s0.ptrs[i], Heap.Granted(size);
    && p - 2 in s0.bs
    && (q == 0 <==> Heap.MustMove(s0.bs, p - 2, g) && Heap.NoneSuitable(s0.bs, g))
    && (q == 0 ==> s1 == s0)
    && (q != 0 ==> s1.ptrs == TlsfLists.Without(s0.ptrs, i) + [q] && (q == p <==> !Heap.MustMove(s0.bs, p - 2, g)))
    && (q != 0 && q != p ==> q !in s0.ptrs)
  }

  function Flat(events: seq<seq<Event>>): seq<Event> {
    if events == [] then [] else Flat(events[..|events| - 1]) + events[|events| - 1]
  }

  lemma FlatSnoc(events: seq<seq<Event>>, e: seq<Event>)
    ensures Flat(events + [e]) == Flat(events) + e
  {
    assert (events + [e])[..|events|] == events;
  }

  /** Sizes the allocator accepts: below 2^64, and up to 2^32 - 8 when a live block is resized. */
  predicate Legal(op: Op) {
    match op
    case Malloc(size) => size < SIZE_T_RANGE
    case Memalign(k, size) => size < SIZE_T_RANGE && k <= 62 && Pow2(k) < SIZE_T_RANGE
    case Realloc(_, size) => size <= BLOCK_SIZE_MAX - 8
    case _ => true
  }

  /** Nothing else is asked of a request. */
  lemma LegalExactly(i: nat, j: nat, v: int, k: nat, size: nat)
    ensures Legal(Free(i)) && Legal(Write(i, j, v)) && (Legal(Malloc(size)) <==> size <= 0xFFFF_FFFF_FFFF_FFFF)
    ensures Legal(Realloc(i, size)) <==> size <= 0xFFFF_FFF8
    ensures k <= 62 ==> (Legal(Memalign(k, size)) <==> size <= 0xFFFF_FFFF_FFFF_FFFF)
  {
    if k <= 62 { Pow2Bounds(k); }
  }

  /** How many bytes a resize keeps: the smaller of the old block and the new size. */
  function Kept(bs: Blocks, p: int, size: nat): nat {
    if p - 2 in bs && 0 <= 8 * bs[p - 2].w < size then 8 * bs[p - 2].w else size
  }
}
