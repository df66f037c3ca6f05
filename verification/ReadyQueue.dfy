/** The ready queue as a sequence: priority insertion, affinity, and the view each pCPU has of it. */
module ReadyQueue {
  datatype Task = Task(id: nat, prio: int, cpu: int)

  /** A task may run on a pCPU when pinned to it or to none. */
  predicate Eligible(t: Task, c: int) {
    t.cpu == -1 || t.cpu == c
  }

  ghost predicate Sorted(q: seq<Task>) {
    forall i, j | 0 <= i < j < |q| :: q[i].prio <= q[j].prio
  }

  ghost predicate Distinct(q: seq<Task>) {
    forall i, j | 0 <= i < j < |q| :: q[i] != q[j]
  }

  /** Where `__insert_task_sorted` puts a task: before the first one of larger priority number. */
  function Position(q: seq<Task>, t: Task): (i: nat)
    ensures i <= |q| && (i < |q| ==> t.prio < q[i].prio)
    ensures forall j | 0 <= j < i :: q[j].prio <= t.prio
  {
    if q == [] then 0 else if t.prio < q[0].prio then 0 else 1 + Position(q[1..], t)
  }

  function Insert(q: seq<Task>, t: Task): seq<Task> {
    q[..Position(q, t)] + [t] + q[Position(q, t)..]
  }

  /** Index of the first task the pCPU may run; |q| when there is none. */
  function FirstFor(q: seq<Task>, c: int): (i: nat)
    ensures i <= |q| && (i < |q| ==> Eligible(q[i], c))
    ensures forall j | 0 <= j < i :: !Eligible(q[j], c)
  {
    if q == [] then 0 else if Eligible(q[0], c) then 0 else 1 + FirstFor(q[1..], c)
  }

  function Without(q: seq<Task>, i: nat): seq<Task>
    requires i < |q|
  {
    q[..i] + q[i + 1..]
  }

  /** The tasks of one priority, in queue order. */
  function Level(q: seq<Task>, p: int): seq<Task> {
    if q == [] then [] else (if q[0].prio == p then [q[0]] else []) + Level(q[1..], p)
  }

  /** The tasks one pCPU may run, in queue order. */
  function Mine(q: seq<Task>, c: int): seq<Task> {
    if q == [] then [] else (if Eligible(q[0], c) then [q[0]] else []) + Mine(q[1..], c)
  }

  // ----- insertion

  lemma InsertAt(q: seq<Task>, t: Task, j: nat)
    requires j <= |q|
    ensures |Insert(q, t)| == |q| + 1
    ensures Insert(q, t)[j] == if j < Position(q, t) then q[j] else if j == Position(q, t) then t else q[j - 1]
  {}

  lemma InsertSorted(q: seq<Task>, t: Task)
    requires Sorted(q)
    ensures Sorted(Insert(q, t)) && multiset(Insert(q, t)) == multiset(q) + multiset{t}
  {
    var i := Position(q, t);
    assert multiset(q) == multiset(q[..i]) + multiset(q[i..]) by { assert q == q[..i] + q[i..]; }
    forall j, k | 0 <= j < k < |Insert(q, t)| ensures Insert(q, t)[j].prio <= Insert(q, t)[k].prio {
      InsertAt(q, t, j);
      InsertAt(q, t, k);
      if i < k && i < |q| - 1 && i < k - 1 { assert q[i].prio <= q[k - 1].prio; }
    }
  }

  lemma InsertDistinct(q: seq<Task>, t: Task)
    requires Distinct(q) && t !in q
    ensures Distinct(Insert(q, t)) && forall x :: x in Insert(q, t) <==> x == t || x in q
  {
    var i := Position(q, t);
    assert q == q[..i] + q[i..];
    forall j, k | 0 <= j < k < |Insert(q, t)| ensures Insert(q, t)[j] != Insert(q, t)[k] {
      InsertAt(q, t, j);
      InsertAt(q, t, k);
    }
  }

  lemma WithoutIn(q: seq<Task>, i: nat, x: Task)
    requires i < |q| && Distinct(q)
    ensures x in Without(q, i) <==> x in q && x != q[i]
  {
    if x in q && x != q[i] {
      var k :| 0 <= k < |q| && q[k] == x;
      if k < i { assert Without(q, i)[k] == x; } else { assert Without(q, i)[k - 1] == x; }
    }
  }

  lemma WithoutKeeps(q: seq<Task>, i: nat)
    requires i < |q| && Distinct(q) && Sorted(q)
    ensures Distinct(Without(q, i)) && Sorted(Without(q, i)) && forall x :: x in Without(q, i) <==> x in q && x != q[i]
  {
    var w := Without(q, i);
    forall j, k | 0 <= j < k < |w| ensures w[j] != w[k] && w[j].prio <= w[k].prio {
      assert w[j] == if j < i then q[j] else q[j + 1];
      assert w[k] == if k < i then q[k] else q[k + 1];
    }
    forall x ensures x in w <==> x in q && x != q[i] { WithoutIn(q, i, x); }
  }

  lemma {:induction false} LevelConcat(a: seq<Task>, b: seq<Task>, p: int)
    ensures Level(a + b, p) == Level(a, p) + Level(b, p)
  {
    if a == [] {
      assert a + b == b;
    } else {
      var head := if a[0].prio == p then [a[0]] else [];
      calc {
        Level(a + b, p);
        { assert (a + b)[0] == a[0] && (a + b)[1..] == a[1..] + b; }
        head + Level(a[1..] + b, p);
        { LevelConcat(a[1..], b, p); }
        head + (Level(a[1..], p) + Level(b, p));
        Level(a, p) + Level(b, p);
      }
    }
  }

  lemma {:induction false} LevelNone(q: seq<Task>, p: int)
    requires forall j | 0 <= j < |q| :: q[j].prio != p
    ensures Level(q, p) == []
  {
    if q != [] { LevelNone(q[1..], p); }
  }

  /** First in, first out among equals: a task goes behind every queued task of its priority. */
  lemma InsertFifo(q: seq<Task>, t: Task, p: int)
    requires Sorted(q)
    ensures Level(Insert(q, t), p) == Level(q, p) + if t.prio == p then [t] else []
  {
    var i := Position(q, t);
    assert q == q[..i] + q[i..];
    LevelConcat(q[..i], q[i..], p);
    LevelConcat(q[..i] + [t], q[i..], p);
    LevelConcat(q[..i], [t], p);
    assert Level([t], p) == if t.prio == p then [t] else [];
    if t.prio == p {
      forall j | 0 <= j < |q[i..]| ensures q[i..][j].prio != p { assert q[i].prio <= q[i + j].prio; }
      LevelNone(q[i..], p);
    }
  }

  // ----- one pCPU's view

  lemma {:induction false} MineConcat(a: seq<Task>, b: seq<Task>, c: int)
    ensures Mine(a + b, c) == Mine(a, c) + Mine(b, c)
  {
    if a == [] {
      assert a + b == b;
    } else {
      var head := if Eligible(a[0], c) then [a[0]] else [];
      calc {
        Mine(a + b, c);
        { assert (a + b)[0] == a[0] && (a + b)[1..] == a[1..] + b; }
        head + Mine(a[1..] + b, c);
        { MineConcat(a[1..], b, c); }
        head + (Mine(a[1..], c) + Mine(b, c));
        Mine(a, c) + Mine(b, c);
      }
    }
  }

  lemma {:induction false} MineIn(q: seq<Task>, c: int)
    ensures forall x :: x in Mine(q, c) <==> x in q && Eligible(x, c)
  {
    if q != [] {
      MineIn(q[1..], c);
      assert q == [q[0]] + q[1..];
    }
  }

  lemma {:induction false} MineNone(q: seq<Task>, c: int)
    requires forall j | 0 <= j < |q| :: !Eligible(q[j], c)
    ensures Mine(q, c) == []
  {
    if q != [] { MineNone(q[1..], c); }
  }

  /** A pCPU's own tasks are queued as in a queue of its own ... */
  lemma MineInsert(q: seq<Task>, t: Task, c: int)
    requires Sorted(q)
    ensures Mine(Insert(q, t), c) == if Eligible(t, c) then Insert(Mine(q, c), t) else Mine(q, c)
  {
    var i := Position(q, t);
    assert q == q[..i] + q[i..];
    MineConcat(q[..i], q[i..], c);
    MineConcat(q[..i] + [t], q[i..], c);
    MineConcat(q[..i], [t], c);
    assert Mine([t], c) == if Eligible(t, c) then [t] else [];
    if Eligible(t, c) {
      MineIn(q[..i], c);
      MineIn(q[i..], c);
      var a, b := Mine(q[..i], c), Mine(q[i..], c);
      forall j | 0 <= j < |a| ensures a[j].prio <= t.prio { assert a[j] in q[..i]; }
      forall j | 0 <= j < |b| ensures t.prio < b[j].prio {
        assert b[j] in q[i..];
        var k :| 0 <= k < |q[i..]| && q[i..][k] == b[j];
        assert q[i].prio <= q[i + k].prio;
      }
      PositionSplit(a, b, t);
      assert Insert(a + b, t) == a + [t] + b;
    } else {
      assert Mine(q[..i] + [t], c) == Mine(q[..i], c);
    }
  }

  lemma {:induction false} PositionSplit(a: seq<Task>, b: seq<Task>, t: Task)
    requires forall j | 0 <= j < |a| :: a[j].prio <= t.prio
    requires forall j | 0 <= j < |b| :: t.prio < b[j].prio
    ensures Position(a + b, t) == |a|
  {
    if a != [] {
      assert (a + b)[1..] == a[1..] + b;
      PositionSplit(a[1..], b, t);
    } else {
      assert a + b == b;
    }
  }

  /** ... and taking the first it may run takes the head of that queue, and nothing of another's. */
  lemma MineTake(q: seq<Task>, c: int, d: int)
    requires FirstFor(q, c) < |q| && c != d && q[FirstFor(q, c)].cpu != -1
    ensures var i := FirstFor(q, c);
      && Mine(q, c) == [q[i]] + Mine(Without(q, i), c)
      && Mine(q, d) == Mine(Without(q, i), d)
  {
    var i := FirstFor(q, c);
    MineSplit(q, i, c);
    MineSplit(q, i, d);
    MineNone(q[..i], c);
  }

  lemma MineSplit(q: seq<Task>, i: nat, c: int)
    requires i < |q|
    ensures Mine(q, c) == Mine(q[..i], c) + (if Eligible(q[i], c) then [q[i]] else []) + Mine(q[i + 1..], c)
    ensures Mine(Without(q, i), c) == Mine(q[..i], c) + Mine(q[i + 1..], c)
  {
    assert q == q[..i] + ([q[i]] + q[i + 1..]);
    MineConcat(q[..i], [q[i]] + q[i + 1..], c);
    MineConcat([q[i]], q[i + 1..], c);
    MineConcat(q[..i], q[i + 1..], c);
    assert Mine([q[i]], c) == if Eligible(q[i], c) then [q[i]] else [];
  }
}
