/** The ready queue as the code keeps it: a circular doubly linked list threaded through the tasks. */
module ReadyList {
  import opened ReadyQueue

  class Node {
    const task: Task
    var next: Node?
    var prev: Node?

    constructor (t: Task)
      ensures task == t && next == null && prev == null
    {
      task, next, prev := t, null, null;
    }
  }

  function Successor(r: seq<Node>, i: nat): Node
    requires i < |r|
  {
    if i + 1 < |r| then r[i + 1] else r[0]
  }

  function Predecessor(r: seq<Node>, i: nat): Node
    requires i < |r|
  {
    if i > 0 then r[i - 1] else r[|r| - 1]
  }

  ghost predicate Distinct(r: seq<Node>) {
    forall i, j | 0 <= i < j < |r| :: r[i] != r[j]
  }

  ghost predicate Linked(r: seq<Node>, i: nat)
    requires i < |r|
    reads r
  {
    r[i].next == Successor(r, i) && r[i].prev == Predecessor(r, i)
  }

  /** The nodes link to each other in a circle, in this order both ways. */
  ghost predicate Ring(r: seq<Node>)
    reads r
  {
    |r| > 0 && Distinct(r) && forall i: nat | i < |r| :: Linked(r, i)
  }

  function Tasks(nodes: seq<Node>): seq<Task> {
    seq(|nodes|, i requires 0 <= i < |nodes| => nodes[i].task)
  }

  /** `__list_add`. */
  method ListAdd(n: Node, prev: Node, next: Node, ghost r: seq<Node>, ghost k: nat)
    requires Ring(r) && k < |r| && prev == r[k] && next == Successor(r, k) && n !in r
    modifies n, prev, next
    ensures Ring(r[..k + 1] + [n] + r[k + 1..])
  {
    next.prev := n;
    n.next := next;
    n.prev := prev;
    prev.next := n;
    ghost var r' := r[..k + 1] + [n] + r[k + 1..];
    forall i: nat | i < |r'| ensures Linked(r', i) {
      assert i <= k ==> r'[i] == r[i] && old(Linked(r, i));
      assert i > k + 1 ==> r'[i] == r[i - 1] && old(Linked(r, i - 1));
    }
  }

  /** `list_del`, and the clearing of the links that `__chain_extract_task` adds. */
  method ListDel(n: Node, ghost r: seq<Node>, ghost k: nat)
    requires Ring(r) && 0 < k < |r| && n == r[k]
    modifies n, Predecessor(r, k), Successor(r, k)
    ensures Ring(r[..k] + r[k + 1..]) && n.next == null && n.prev == null
  {
    assert Linked(r, k);
    var prev, next := n.prev, n.next;
    next.prev := prev;
    prev.next := next;
    n.next, n.prev := null, null;
    ghost var r' := r[..k] + r[k + 1..];
    forall i: nat | i < |r'| ensures Linked(r', i) {
      assert i < k ==> r'[i] == r[i] && old(Linked(r, i));
      assert i >= k ==> r'[i] == r[i + 1] && old(Linked(r, i + 1));
    }
  }

  class ReadyList {
    const head: Node
    ghost var nodes: seq<Node>

    ghost predicate Valid()
      reads this, head, nodes
    {
      Ring([head] + nodes)
    }

    /** The queue the list stands for. */
    ghost function Queue(): seq<Task>
      reads this
    {
      Tasks(nodes)
    }

    /** `INIT_LIST_HEAD`. */
    constructor ()
      ensures Valid() && nodes == [] && fresh(head)
    {
      head := new Node(Task(0, 0, 0));
      nodes := [];
      new;
      head.next, head.prev := head, head;
      assert Linked([head] + nodes, 0);
    }

    /** `__insert_task_sorted`: the list becomes the queue with the task inserted by priority. */
    method InsertTaskSorted(n: Node)
      requires Valid() && n !in nodes && n != head
      modifies this`nodes, head, nodes, n
      ensures Valid() && Queue() == Insert(old(Queue()), n.task)
      ensures var i := Position(old(Queue()), n.task); nodes == old(nodes)[..i] + [n] + old(nodes)[i..]
    {
      hide Tasks, Position;
      ghost var r := [head] + nodes;
      assert Linked(r, 0);
      var p := head;
      var pos := head.next;
      ghost var i := 0;
      while pos != head
        invariant 0 <= i <= |nodes| && pos == Successor(r, i)
        invariant forall j | 0 <= j < i :: nodes[j].task.prio <= n.task.prio
        decreases |nodes| - i
      {
        if n.task.prio < pos.task.prio {
          p := pos;
          break;
        }
        i := i + 1;
        assert Linked(r, i);
        pos := pos.next;
      }
      PlaceIs(nodes, n, i);
      assert i + 1 < |r| ==> Linked(r, i + 1);
      ListAdd(n, p.prev, p, r, i);
      RingAdd(head, nodes, n, i);
      nodes := nodes[..i] + [n] + nodes[i..];
    }

    /** `simple_scheduler_next_no_publish` on pCPU c: takes the first task it may run off the list, unless
        there is none or its current task is strictly better. */
    method Next(c: int, hasCurrent: bool, currentPrio: int) returns (next: Node?)
      requires Valid()
      modifies this`nodes, head, nodes
      ensures Valid()
      ensures var i := FirstFor(old(Queue()), c);
        next == null <==> i == |old(nodes)| || (hasCurrent && currentPrio < old(nodes)[i].task.prio)
      ensures next == null ==> nodes == old(nodes)
      ensures next != null ==>
        var i := FirstFor(old(Queue()), c);
        && i < |old(nodes)| && next == old(nodes)[i] && next.next == null && next.prev == null
        && nodes == old(nodes)[..i] + old(nodes)[i + 1..] && Queue() == Without(old(Queue()), i)
    {
      hide FirstFor, Without;
      ghost var r := [head] + nodes;
      assert Linked(r, 0);
      next := null;
      var pos := head.next;
      ghost var i := 0;
      while pos != head
        invariant 0 <= i <= |nodes| && pos == Successor(r, i) && next == null
        invariant forall j | 0 <= j < i :: !Eligible(nodes[j].task, c)
        decreases |nodes| - i
      {
        if Eligible(pos.task, c) {
          next := pos;
          break;
        }
        i := i + 1;
        assert Linked(r, i);
        pos := pos.next;
      }
      FirstIs(nodes, c, i);
      if next == null { return; }
      if hasCurrent && currentPrio < next.task.prio { return null; }
      ListDel(next, r, i + 1);
      RingDel(head, nodes, i);
      nodes := nodes[..i] + nodes[i + 1..];
    }
  }

  lemma RingAdd(head: Node, nodes: seq<Node>, n: Node, i: nat)
    requires i <= |nodes|
    ensures var r := [head] + nodes; [head] + (nodes[..i] + [n] + nodes[i..]) == r[..i + 1] + [n] + r[i + 1..]
    ensures Tasks(nodes[..i] + [n] + nodes[i..]) == Tasks(nodes)[..i] + [n.task] + Tasks(nodes)[i..]
  {}

  lemma RingDel(head: Node, nodes: seq<Node>, i: nat)
    requires i < |nodes|
    ensures var r := [head] + nodes; [head] + (nodes[..i] + nodes[i + 1..]) == r[..i + 1] + r[i + 2..]
    ensures Tasks(nodes[..i] + nodes[i + 1..]) == Without(Tasks(nodes), i)
  {}

  lemma PlaceIs(nodes: seq<Node>, n: Node, i: nat)
    requires i <= |nodes| && (i < |nodes| ==> n.task.prio < nodes[i].task.prio)
    requires forall j | 0 <= j < i :: nodes[j].task.prio <= n.task.prio
    ensures Position(Tasks(nodes), n.task) == i
  {
    PositionIs(Tasks(nodes), n.task, i);
  }

  lemma FirstIs(nodes: seq<Node>, c: int, i: nat)
    requires i <= |nodes| && (i < |nodes| ==> Eligible(nodes[i].task, c)) && forall j | 0 <= j < i :: !Eligible(nodes[j].task, c)
    ensures FirstFor(Tasks(nodes), c) == i
  {
    FirstForIs(Tasks(nodes), c, i);
  }

  lemma {:induction false} PositionIs(q: seq<Task>, t: Task, i: nat)
    requires i <= |q| && (i < |q| ==> t.prio < q[i].prio) && forall j | 0 <= j < i :: q[j].prio <= t.prio
    ensures Position(q, t) == i
  {}

  lemma {:induction false} FirstForIs(q: seq<Task>, c: int, i: nat)
    requires i <= |q| && (i < |q| ==> Eligible(q[i], c)) && forall j | 0 <= j < i :: !Eligible(q[j], c)
    ensures FirstFor(q, c) == i
  {}
}
