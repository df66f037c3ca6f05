/** The segregated free lists of the TLSF heap: doubly linked chains threaded through the free blocks,
    one per size class, null-terminated at both ends by block_null (words 0..3). */
module TlsfLists {
  import opened Bits
  import opened Masks
  import opened TlsfMapping
  import opened TlsfBlocks

  const NULL_BLOCK: int := 0

  type Lists = seq<seq<seq<int>>>
  type Heads = seq<seq<int>>

  /** Size class of a block of w payload words. The lemmas below hold for any such function. */
  type Classifier = int -> Class

  function ClassOf(w: int): Class {
    if w < 0 then Class(0, 0) else MappingInsert(8 * w)
  }

  function At(l: seq<int>, k: int): int {
    if 0 <= k < |l| then l[k] else NULL_BLOCK
  }

  ghost predicate Shape<T>(t: seq<seq<T>>) {
    |t| == FL_INDEX_COUNT && forall i | 0 <= i < FL_INDEX_COUNT :: |t[i]| == SL_INDEX_COUNT
  }

  /** The links stored in the k-th block of a list: next in word 2, previous in word 3. */
  ghost predicate Linked(m: seq<int>, l: seq<int>, k: int)
    requires 0 <= k < |l|
  {
    0 < l[k] < |m| - 3 && m[l[k] + 2] == At(l, k + 1) && m[l[k] + 3] == At(l, k - 1)
  }

  /** One list: its head, and the forward and backward links stored in each of its blocks. */
  ghost predicate Chain(m: seq<int>, head: int, l: seq<int>) {
    && head == At(l, 0)
    && (forall k {:trigger Linked(m, l, k)} | 0 <= k < |l| :: Linked(m, l, k))
  }

  /** Free block x is stored in the list of its class. */
  ghost predicate Filed(cls: Classifier, bs: Blocks, lists: Lists, x: int)
    requires Shape(lists)
  {
    x in bs && bs[x].free && InRange(cls(bs[x].w)) && x in lists[cls(bs[x].w).fl][cls(bs[x].w).sl]
  }

  /** List (i, j) holds listed blocks of its own class only, each once. */
  ghost predicate Pure(cls: Classifier, bs: Blocks, l: seq<int>, listed: set<int>, i: int, j: nat) {
    Distinct(l) && forall x | x in l :: x in listed && x in bs && bs[x].free && cls(bs[x].w) == Class(i, j)
  }

  /** `listed` is exactly what the lists hold, each block once, in the list of its class. */
  ghost predicate Index(cls: Classifier, bs: Blocks, lists: Lists, listed: set<int>) {
    && Shape(lists)
    && (forall x {:trigger Filed(cls, bs, lists, x)} | x in listed :: Filed(cls, bs, lists, x))
    && (forall i: nat, j: nat {:trigger Pure(cls, bs, lists[i][j], listed, i, j)} | i < FL_INDEX_COUNT && j < SL_INDEX_COUNT ::
          Pure(cls, bs, lists[i][j], listed, i, j))
  }

  ghost predicate Distinct(l: seq<int>) {
    forall a, b | 0 <= a < b < |l| :: l[a] != l[b]
  }

  ghost predicate Chains(m: seq<int>, heads: Heads, lists: Lists) {
    && Shape(heads) && Shape(lists)
    && (forall i, j {:trigger Chain(m, heads[i][j], lists[i][j])} | 0 <= i < FL_INDEX_COUNT && 0 <= j < SL_INDEX_COUNT ::
          Chain(m, heads[i][j], lists[i][j]))
  }

  /** Each bitmap bit says whether the list (or row of lists) it stands for is populated. */
  ghost predicate Bitmaps(fl: nat, sl: seq<nat>, lists: Lists) {
    && Shape(lists) && |sl| == FL_INDEX_COUNT && fl < 0x200_0000
    && (forall i | 0 <= i < FL_INDEX_COUNT :: sl[i] < 0x1_0000_0000 && Bit(fl, i) == (sl[i] != 0))
    && (forall i, j | 0 <= i < FL_INDEX_COUNT && 0 <= j < SL_INDEX_COUNT :: Bit(sl[i], j) == (lists[i][j] != []))
  }

  /** Blocks are far enough apart that their link words never coincide. */
  ghost predicate Spaced(listed: set<int>) {
    && (forall x | x in listed :: x >= 4)
    && (forall x, y | x in listed && y in listed && x < y :: x + 4 <= y)
  }

  /** Two memories differ at most in block_null and in link words of free blocks. */
  ghost predicate OnlyLinks(m: seq<int>, m': seq<int>, bs: Blocks) {
    && |m| == |m'|
    && (forall i | 0 <= i < |m| :: m'[i] == m[i] || i == 2 || i == 3
          || (i - 2 in bs && bs[i - 2].free) || (i - 3 in bs && bs[i - 3].free))
  }

  function Update<T>(t: seq<seq<T>>, i: int, j: int, v: T): seq<seq<T>>
    requires 0 <= i < |t| && 0 <= j < |t[i]|
  {
    t[i := t[i][j := v]]
  }

  lemma TilesSpaced(bs: Blocks, first: int, last: int, listed: set<int>)
    requires Tiles(bs, first, last) && forall x | x in listed :: x in bs && bs[x].free
    ensures Spaced(listed)
  {
    forall x, y | x in listed && y in listed && x < y ensures InOrder(bs, x, y) {}
  }

  /** Writing link words leaves sizes, back links and the payload of used blocks alone. */
  lemma OnlyLinksPhysical(m: seq<int>, m': seq<int>, bs: Blocks, first: int, last: int)
    requires Physical(m, bs, first, last) && OnlyLinks(m, m', bs)
    ensures Physical(m', bs, first, last) && PayloadKept(m, m', bs)
  {
    forall h | h in bs ensures 0 <= h + 1 < |m'| && m'[h + 1] == m[h + 1] { OnlyLinksSize(m, m', bs, first, last, h); }
    forall h | h in bs && bs[h].free ensures 0 <= Next(bs, h) < |m'| && m'[Next(bs, h)] == h { OnlyLinksBack(m, m', bs, first, last, h); }
    OnlyLinksPayload(m, m', bs, first, last);
  }

  lemma OnlyLinksSize(m: seq<int>, m': seq<int>, bs: Blocks, first: int, last: int, h: int)
    requires Physical(m, bs, first, last) && OnlyLinks(m, m', bs) && h in bs
    ensures 0 <= h + 1 < |m'| && m'[h + 1] == m[h + 1]
  {
    assert InOrder(bs, h - 1, h) && InOrder(bs, h - 2, h);
  }

  lemma OnlyLinksBack(m: seq<int>, m': seq<int>, bs: Blocks, first: int, last: int, h: int)
    requires Physical(m, bs, first, last) && OnlyLinks(m, m', bs) && h in bs && bs[h].free
    ensures 0 <= Next(bs, h) < |m'| && m'[Next(bs, h)] == h
  {
    var i := Next(bs, h);
    assert i in bs && InOrder(bs, i - 2, i) && InOrder(bs, i - 3, i);
  }

  lemma OnlyLinksPayload(m: seq<int>, m': seq<int>, bs: Blocks, first: int, last: int)
    requires Tiles(bs, first, last) && OnlyLinks(m, m', bs)
    ensures PayloadKept(m, m', bs)
  {
    forall h, i | InPayload(bs, h, i) && 0 <= i < |m| ensures m'[i] == m[i] {
      if i - 2 in bs && bs[i - 2].free { Within(bs, first, last, h, i - 2); }
      if i - 3 in bs && bs[i - 3].free { Within(bs, first, last, h, i - 3); }
    }
  }

  /** No other block's link words fall inside the payload of block h. */
  lemma Within(bs: Blocks, first: int, last: int, h: int, x: int)
    requires Tiles(bs, first, last) && h in bs && x in bs && x != h && x != last
    ensures x + 3 < h + 2 || h + 1 + bs[h].w < x + 2
  {
    assert InOrder(bs, x, h) && InOrder(bs, h, x);
  }

  // ----- one list

  lemma ChainFrame(m: seq<int>, m': seq<int>, head: int, l: seq<int>)
    requires Chain(m, head, l) && |m'| == |m|
    requires forall x | x in l && 0 < x < |m| - 3 :: m'[x + 2] == m[x + 2] && m'[x + 3] == m[x + 3]
    ensures Chain(m', head, l)
  {
    forall k | 0 <= k < |l| ensures Linked(m', l, k) {
      assert Linked(m, l, k) && l[k] in l;
    }
  }

  /** The words written when b is put in front of the chain whose head is `cur`. */
  function PushWords(m: seq<int>, b: int, cur: int): seq<int>
    requires 0 <= b < |m| - 3 && 0 <= cur < |m| - 3
  {
    m[b + 2 := cur][b + 3 := NULL_BLOCK][cur + 3 := b]
  }

  /** The words written when the block between `p` and `n` is taken out of its chain. */
  function UnlinkWords(m: seq<int>, p: int, n: int): seq<int>
    requires 0 <= p < |m| - 3 && 0 <= n < |m| - 3
  {
    m[n + 3 := p][p + 2 := n]
  }

  lemma PushChain(m: seq<int>, head: int, l: seq<int>, b: int, listed: set<int>)
    requires Chain(m, head, l) && Distinct(l) && Spaced(listed)
    requires b in listed && b !in l && b < |m| - 3 && forall x | x in l :: x in listed
    ensures 0 <= head < |m| - 3 && Chain(PushWords(m, b, head), b, [b] + l)
  {
    if l != [] { assert Linked(m, l, 0); }
    forall k | 0 <= k < |[b] + l| ensures Linked(PushWords(m, b, head), [b] + l, k) { PushAt(m, head, l, b, listed, k); }
  }

  /** Link k of the longer chain. */
  lemma PushAt(m: seq<int>, head: int, l: seq<int>, b: int, listed: set<int>, k: int)
    requires Chain(m, head, l) && Distinct(l) && Spaced(listed) && 0 <= head < |m| - 3 && 0 <= k <= |l|
    requires b in listed && b !in l && b < |m| - 3 && forall x | x in l :: x in listed
    ensures Linked(PushWords(m, b, head), [b] + l, k)
  {
    PushedAt(l, b, k);
    assert l != [] ==> l[0] == head && l[0] in l && head in listed;
    assert l == [] ==> head == NULL_BLOCK;
    if k > 0 {
      var x := l[k - 1];
      assert Linked(m, l, k - 1) && x in l && x != b;
      assert x != head ==> k > 1 && head in l;
      PushedWords(m, b, head, x);
    }
  }

  lemma PushedWords(m: seq<int>, b: int, head: int, x: int)
    requires 4 <= b < |m| - 3 && 0 <= head < |m| - 3 && 4 <= x < |m| - 3
    requires (x + 4 <= b || b + 4 <= x) && (x == head || head + 4 <= x || x + 4 <= head)
    ensures var m' := PushWords(m, b, head); m'[x + 2] == m[x + 2] && m'[x + 3] == if x == head then b else m[x + 3]
  {}

  lemma PushedAt(l: seq<int>, b: int, k: int)
    requires 0 <= k <= |l|
    ensures var l' := [b] + l;
      && l'[k] == (if k == 0 then b else l[k - 1])
      && At(l', k + 1) == At(l, k)
      && At(l', k - 1) == (if k == 1 then b else At(l, k - 2))
  {}

  /** Pushing onto one list does not disturb a list it shares no block with. */
  lemma PushElsewhere(m: seq<int>, head: int, l: seq<int>, b: int, cur: int, listed: set<int>)
    requires Chain(m, head, l) && Spaced(listed) && (forall x | x in l :: x in listed)
    requires b in listed && b !in l && b < |m| - 3
    requires cur == NULL_BLOCK || (cur in listed && cur !in l)
    requires 0 <= cur < |m| - 3
    ensures Chain(PushWords(m, b, cur), head, l)
  {
    ChainFrame(m, PushWords(m, b, cur), head, l);
  }

  function Without(l: seq<int>, k: int): seq<int>
    requires 0 <= k < |l|
  {
    l[..k] + l[k + 1..]
  }

  lemma UnlinkChain(m: seq<int>, head: int, l: seq<int>, k: int, listed: set<int>)
    requires Chain(m, head, l) && Distinct(l) && Spaced(listed)
    requires 0 <= k < |l| && forall x | x in l :: x in listed
    ensures 0 < l[k] < |m| - 3
    ensures var p, n := m[l[k] + 3], m[l[k] + 2];
      && p == At(l, k - 1) && n == At(l, k + 1) && 0 <= p < |m| - 3 && 0 <= n < |m| - 3
      && Chain(UnlinkWords(m, p, n), if k == 0 then n else head, Without(l, k))
  {
    assert Linked(m, l, k);
    var p, n := m[l[k] + 3], m[l[k] + 2];
    if k > 0 { assert Linked(m, l, k - 1); }
    if k + 1 < |l| { assert Linked(m, l, k + 1); }
    var l' := Without(l, k);
    var m' := UnlinkWords(m, p, n);
    forall a | 0 <= a < |l'| ensures Linked(m', l', a) {
      UnlinkAt(m, l, k, listed, if a < k then a else a + 1);
      WithoutAt(l, k, a);
    }
    if l' != [] { WithoutAt(l, k, 0); }
  }

  lemma WithoutAt(l: seq<int>, k: int, a: int)
    requires 0 <= k < |l| && 0 <= a < |l| - 1
    ensures var l' := Without(l, k); var b := if a < k then a else a + 1;
      && |l'| == |l| - 1 && l'[a] == l[b]
      && At(l', a + 1) == (if b + 1 == k then At(l, b + 2) else At(l, b + 1))
      && At(l', a - 1) == (if b - 1 == k then At(l, b - 2) else At(l, b - 1))
  {}

  lemma UnlinkAt(m: seq<int>, l: seq<int>, k: int, listed: set<int>, a: int)
    requires Chain(m, At(l, 0), l) && Distinct(l) && Spaced(listed)
    requires 0 <= k < |l| && (forall x | x in l :: x in listed)
    requires 0 <= a < |l| && a != k
    ensures 0 < l[k] < |m| - 3 && 0 < l[a] < |m| - 3
    ensures var p, n := m[l[k] + 3], m[l[k] + 2];
      && 0 <= p < |m| - 3 && 0 <= n < |m| - 3
      && var m' := UnlinkWords(m, p, n);
      && m'[l[a] + 2] == (if a + 1 == k then At(l, a + 2) else At(l, a + 1))
      && m'[l[a] + 3] == (if a - 1 == k then At(l, a - 2) else At(l, a - 1))
  {
    assert Linked(m, l, k) && Linked(m, l, a) && l[a] in l;
    if k > 0 {
      assert Linked(m, l, k - 1) && l[k - 1] in l;
      if a < k - 1 { assert l[a] != l[k - 1]; } else if a > k - 1 { assert l[k - 1] != l[a]; }
    }
    if k + 1 < |l| {
      assert Linked(m, l, k + 1) && l[k + 1] in l;
      if a < k + 1 { assert l[a] != l[k + 1]; } else if a > k + 1 { assert l[k + 1] != l[a]; }
    }
  }

  lemma WithoutDistinct(l: seq<int>, k: int)
    requires 0 <= k < |l| && Distinct(l)
    ensures Distinct(Without(l, k))
    ensures forall x :: x in Without(l, k) <==> x in l && x != l[k]
  {
    var l' := Without(l, k);
    forall a, c | 0 <= a < c < |l'| ensures l'[a] != l'[c] {
      WithoutAt(l, k, a);
      WithoutAt(l, k, c);
    }
    forall x | x in l && x != l[k] ensures x in l' {
      var a :| 0 <= a < |l| && l[a] == x;
      WithoutAt(l, k, if a < k then a else a - 1);
    }
    forall x | x in l' ensures x in l && x != l[k] {
      var a :| 0 <= a < |l'| && l'[a] == x;
      WithoutAt(l, k, a);
    }
  }

  lemma UnlinkElsewhere(m: seq<int>, head: int, l: seq<int>, p: int, n: int, listed: set<int>)
    requires Chain(m, head, l) && Spaced(listed) && (forall x | x in l :: x in listed)
    requires p == NULL_BLOCK || (p in listed && p !in l)
    requires n == NULL_BLOCK || (n in listed && n !in l)
    requires 0 <= p < |m| - 3 && 0 <= n < |m| - 3
    ensures Chain(UnlinkWords(m, p, n), head, l)
  {
    ChainFrame(m, UnlinkWords(m, p, n), head, l);
  }

  // ----- all lists

  /** Position (i, j) is where b's size belongs. */
  ghost predicate Home(cls: Classifier, bs: Blocks, b: int, i: int, j: int) {
    b in bs && bs[b].free && 0 <= i < FL_INDEX_COUNT && 0 <= j < SL_INDEX_COUNT && cls(bs[b].w) == Class(i, j)
  }

  lemma ListMembers(cls: Classifier, bs: Blocks, lists: Lists, listed: set<int>, i: nat, j: nat)
    requires Index(cls, bs, lists, listed) && i < FL_INDEX_COUNT && j < SL_INDEX_COUNT
    ensures forall x | x in lists[i][j] :: x in listed && Home(cls, bs, x, i, j)
    ensures Distinct(lists[i][j])
  {
    assert Pure(cls, bs, lists[i][j], listed, i, j);
  }

  lemma PushChains(cls: Classifier, m: seq<int>, heads: Heads, lists: Lists, bs: Blocks, listed: set<int>, b: int, i: int, j: int)
    requires Chains(m, heads, lists) && Index(cls, bs, lists, listed) && Home(cls, bs, b, i, j) && b !in listed
    requires Spaced(listed + {b}) && b < |m| - 3
    ensures 0 <= heads[i][j] < |m| - 3
    ensures var m' := PushWords(m, b, heads[i][j]);
      && Chains(m', Update(heads, i, j, b), Update(lists, i, j, [b] + lists[i][j]))
      && OnlyLinks(m, m', bs)
  {
    var l, cur := lists[i][j], heads[i][j];
    ListMembers(cls, bs, lists, listed, i, j);
    PushChain(m, cur, l, b, listed + {b});
    var m' := PushWords(m, b, cur);
    var heads', lists' := Update(heads, i, j, b), Update(lists, i, j, [b] + l);
    if l != [] { assert cur in l; }
    forall u, v | 0 <= u < FL_INDEX_COUNT && 0 <= v < SL_INDEX_COUNT ensures Chain(m', heads'[u][v], lists'[u][v]) {
      if u != i || v != j {
        ListMembers(cls, bs, lists, listed, u, v);
        PushElsewhere(m, heads[u][v], lists[u][v], b, cur, listed + {b});
      }
    }
  }

  lemma PushIndex(cls: Classifier, lists: Lists, bs: Blocks, listed: set<int>, b: int, i: int, j: int)
    requires Index(cls, bs, lists, listed) && Home(cls, bs, b, i, j) && b !in listed
    ensures Index(cls, bs, Update(lists, i, j, [b] + lists[i][j]), listed + {b})
  {
    var l' := [b] + lists[i][j];
    var lists' := Update(lists, i, j, l');
    forall x | x in listed + {b} ensures Filed(cls, bs, lists', x) {
      if x != b {
        assert Filed(cls, bs, lists, x);
        var c := cls(bs[x].w);
        if c == Class(i, j) { assert x in lists[i][j]; } else { assert lists'[c.fl][c.sl] == lists[c.fl][c.sl]; }
      }
    }
    forall u: nat, v: nat | u < FL_INDEX_COUNT && v < SL_INDEX_COUNT
      ensures Pure(cls, bs, lists'[u][v], listed + {b}, u, v)
    {
      assert Pure(cls, bs, lists[u][v], listed, u, v);
      if u == i && v == j { PushDistinct(lists[i][j], b); }
    }
  }

  lemma PushDistinct(l: seq<int>, b: int)
    requires Distinct(l) && b !in l
    ensures Distinct([b] + l)
  {
    var l' := [b] + l;
    forall a, c | 0 <= a < c < |l'| ensures l'[a] != l'[c] {
      assert l'[c] == l[c - 1];
      if a > 0 { assert l'[a] == l[a - 1]; }
    }
  }

  lemma UnlinkChains(cls: Classifier, m: seq<int>, heads: Heads, lists: Lists, bs: Blocks, listed: set<int>, b: int, i: int, j: int, k: int)
    requires Chains(m, heads, lists) && Index(cls, bs, lists, listed) && Spaced(listed)
    requires 0 <= i < FL_INDEX_COUNT && 0 <= j < SL_INDEX_COUNT && 0 <= k < |lists[i][j]| && lists[i][j][k] == b
    ensures 0 < b < |m| - 3
    ensures var p, n := m[b + 3], m[b + 2];
      && p == At(lists[i][j], k - 1) && n == At(lists[i][j], k + 1) && 0 <= p < |m| - 3 && 0 <= n < |m| - 3
      && var m' := UnlinkWords(m, p, n);
      && Chains(m', if k == 0 then Update(heads, i, j, n) else heads, Update(lists, i, j, Without(lists[i][j], k)))
      && OnlyLinks(m, m', bs)
  {
    var l, h := lists[i][j], heads[i][j];
    ListMembers(cls, bs, lists, listed, i, j);
    UnlinkChain(m, h, l, k, listed);
    var p, n := m[b + 3], m[b + 2];
    var m' := UnlinkWords(m, p, n);
    var heads' := if k == 0 then Update(heads, i, j, n) else heads;
    var lists' := Update(lists, i, j, Without(l, k));
    if k > 0 { assert p in l; }
    if k + 1 < |l| { assert n in l; }
    forall u, v | 0 <= u < FL_INDEX_COUNT && 0 <= v < SL_INDEX_COUNT ensures Chain(m', heads'[u][v], lists'[u][v]) {
      if u != i || v != j {
        ListMembers(cls, bs, lists, listed, u, v);
        UnlinkElsewhere(m, heads[u][v], lists[u][v], p, n, listed);
      }
    }
  }

  lemma UnlinkIndex(cls: Classifier, lists: Lists, bs: Blocks, listed: set<int>, b: int, i: int, j: int, k: int)
    requires Index(cls, bs, lists, listed)
    requires 0 <= i < FL_INDEX_COUNT && 0 <= j < SL_INDEX_COUNT && 0 <= k < |lists[i][j]| && lists[i][j][k] == b
    ensures Index(cls, bs, Update(lists, i, j, Without(lists[i][j], k)), listed - {b})
  {
    var l' := Without(lists[i][j], k);
    var lists' := Update(lists, i, j, l');
    assert Pure(cls, bs, lists[i][j], listed, i, j) && b in lists[i][j];
    WithoutDistinct(lists[i][j], k);
    forall x | x in listed - {b} ensures Filed(cls, bs, lists', x) {
      assert Filed(cls, bs, lists, x);
      var c := cls(bs[x].w);
      if c == Class(i, j) { assert x in lists[i][j]; } else { assert lists'[c.fl][c.sl] == lists[c.fl][c.sl]; }
    }
    forall u: nat, v: nat | u < FL_INDEX_COUNT && v < SL_INDEX_COUNT
      ensures Pure(cls, bs, lists'[u][v], listed - {b}, u, v)
    {
      assert Pure(cls, bs, lists[u][v], listed, u, v);
      if u != i || v != j { assert lists'[u][v] == lists[u][v]; }
    }
  }

  /** Unlinking a listed block: the two words written, the list it leaves, and all that still holds. */
  lemma Unlinking(cls: Classifier, m: seq<int>, heads: Heads, lists: Lists, bs: Blocks, first: int, last: int, listed: set<int>,
                  b: int, c: Class) returns (k: int)
    requires Physical(m, bs, first, last) && Chains(m, heads, lists) && Index(cls, bs, lists, listed)
    requires b in listed && b in bs && cls(bs[b].w) == c
    ensures InRange(c) && 0 < b < |m| - 3 && 0 <= k < |lists[c.fl][c.sl]|
    ensures var p, n := m[b + 3], m[b + 2];
      && 0 <= p < |m| - 3 && 0 <= n < |m| - 3
      && (heads[c.fl][c.sl] == b <==> k == 0)
      && (n == NULL_BLOCK <==> k == |lists[c.fl][c.sl]| - 1)
      && var m' := UnlinkWords(m, p, n);
      && Chains(m', if k == 0 then Update(heads, c.fl, c.sl, n) else heads,
                Update(lists, c.fl, c.sl, Without(lists[c.fl][c.sl], k)))
      && Index(cls, bs, Update(lists, c.fl, c.sl, Without(lists[c.fl][c.sl], k)), listed - {b})
      && Physical(m', bs, first, last) && PayloadKept(m, m', bs)
  {
    assert Filed(cls, bs, lists, b);
    var l := lists[c.fl][c.sl];
    k :| 0 <= k < |l| && l[k] == b;
    ListMembers(cls, bs, lists, listed, c.fl, c.sl);
    IndexFree(cls, bs, lists, listed);
    TilesSpaced(bs, first, last, listed);
    UnlinkChains(cls, m, heads, lists, bs, listed, b, c.fl, c.sl, k);
    UnlinkIndex(cls, lists, bs, listed, b, c.fl, c.sl, k);
    ChainEnds(m, heads[c.fl][c.sl], l, k);
    OnlyLinksPhysical(m, UnlinkWords(m, m[b + 3], m[b + 2]), bs, first, last);
  }

  lemma ChainEnds(m: seq<int>, head: int, l: seq<int>, k: int)
    requires Chain(m, head, l) && Distinct(l) && 0 <= k < |l|
    ensures head == l[k] <==> k == 0
    ensures At(l, k + 1) == NULL_BLOCK <==> k == |l| - 1
  {
    if k + 1 < |l| { assert Linked(m, l, k + 1); }
  }

  /** Linking a free block in front of the list of its class. */
  lemma Linking(cls: Classifier, m: seq<int>, heads: Heads, lists: Lists, bs: Blocks, first: int, last: int, listed: set<int>,
                b: int, c: Class)
    requires Physical(m, bs, first, last) && Chains(m, heads, lists) && Index(cls, bs, lists, listed)
    requires InRange(c) && Home(cls, bs, b, c.fl, c.sl) && b !in listed
    ensures 0 < b < |m| - 3 && 0 <= heads[c.fl][c.sl] < |m| - 3
    ensures var m' := PushWords(m, b, heads[c.fl][c.sl]);
      && Chains(m', Update(heads, c.fl, c.sl, b), Update(lists, c.fl, c.sl, [b] + lists[c.fl][c.sl]))
      && Index(cls, bs, Update(lists, c.fl, c.sl, [b] + lists[c.fl][c.sl]), listed + {b})
      && Physical(m', bs, first, last) && PayloadKept(m, m', bs)
  {
    assert Next(bs, b) in bs;
    IndexFree(cls, bs, lists, listed);
    TilesSpaced(bs, first, last, listed + {b});
    PushChains(cls, m, heads, lists, bs, listed, b, c.fl, c.sl);
    PushIndex(cls, lists, bs, listed, b, c.fl, c.sl);
    OnlyLinksPhysical(m, PushWords(m, b, heads[c.fl][c.sl]), bs, first, last);
  }

  lemma IndexFree(cls: Classifier, bs: Blocks, lists: Lists, listed: set<int>)
    requires Index(cls, bs, lists, listed)
    ensures forall x | x in listed :: x in bs && bs[x].free
  {
    forall x | x in listed ensures x in bs && bs[x].free { assert Filed(cls, bs, lists, x); }
  }

  /** The lists only depend on the listed blocks and their link words. */
  lemma ListsFrame(cls: Classifier, m: seq<int>, m': seq<int>, heads: Heads, lists: Lists, bs: Blocks, bs': Blocks, listed: set<int>)
    requires Chains(m, heads, lists) && Index(cls, bs, lists, listed) && LinksKept(m, m', bs)
    requires forall x | x in listed :: x in bs && x in bs' && bs'[x].free && bs'[x].w == bs[x].w
    ensures Chains(m', heads, lists) && Index(cls, bs', lists, listed)
  {
    forall u, v | 0 <= u < FL_INDEX_COUNT && 0 <= v < SL_INDEX_COUNT ensures Chain(m', heads[u][v], lists[u][v]) {
      ListMembers(cls, bs, lists, listed, u, v);
      assert Chain(m, heads[u][v], lists[u][v]);
      ChainFrame(m, m', heads[u][v], lists[u][v]);
    }
    forall x | x in listed ensures Filed(cls, bs', lists, x) { assert Filed(cls, bs, lists, x); }
    forall i: nat, j: nat | i < FL_INDEX_COUNT && j < SL_INDEX_COUNT ensures Pure(cls, bs', lists[i][j], listed, i, j) {
      assert Pure(cls, bs, lists[i][j], listed, i, j);
    }
  }

  // ----- bitmaps

  lemma BitmapsSet(fl: nat, sl: seq<nat>, lists: Lists, i: int, j: int, l: seq<int>)
    requires Bitmaps(fl, sl, lists) && 0 <= i < FL_INDEX_COUNT && 0 <= j < SL_INDEX_COUNT && l != []
    ensures Bitmaps(Or(fl, Pow2(i)), sl[i := Or(sl[i], Pow2(j))], Update(lists, i, j, l))
  {
    var fl', w := Or(fl, Pow2(i)), Or(sl[i], Pow2(j));
    SmallWords(i, j);
    OrBound(fl, Pow2(i), 25);
    OrBound(sl[i], Pow2(j), 32);
    forall u | 0 <= u < FL_INDEX_COUNT ensures Bit(fl', u) == (Bit(fl, u) || u == i) {
      BitOr(fl, Pow2(i), u);
      BitPow2(i, u);
    }
    forall v | 0 <= v < SL_INDEX_COUNT ensures Bit(w, v) == (Bit(sl[i], v) || v == j) {
      BitOr(sl[i], Pow2(j), v);
      BitPow2(j, v);
    }
    BitOfZero(j);
  }

  lemma SmallWords(i: nat, j: nat)
    requires i < 25 && j < 32
    ensures Pow2(25) == 0x200_0000 && Pow2(32) == 0x1_0000_0000 && Pow2(i) < Pow2(25) && Pow2(j) < Pow2(32)
  {
    Pow2Values();
    Pow2Sum(16, 8);
    assert Pow2(25) == 2 * Pow2(24);
    Pow2Mono(i + 1, 25);
    Pow2Mono(j + 1, 32);
  }

  lemma BitmapsClear(fl: nat, sl: seq<nat>, lists: Lists, i: int, j: int)
    requires Bitmaps(fl, sl, lists) && 0 <= i < FL_INDEX_COUNT && 0 <= j < SL_INDEX_COUNT && lists[i][j] != []
    ensures var w := And(sl[i], AllBut(32, j));
      Bitmaps(if w == 0 then And(fl, AllBut(32, i)) else fl, sl[i := w], Update(lists, i, j, []))
  {
    var w := And(sl[i], AllBut(32, j));
    AndBound(sl[i], AllBut(32, j));
    AndBound(fl, AllBut(32, i));
    forall u | 0 <= u < FL_INDEX_COUNT ensures Bit(And(fl, AllBut(32, i)), u) == (Bit(fl, u) && u != i) {
      BitAnd(fl, AllBut(32, i), u);
      BitAllBut(32, i, u);
    }
    forall v | 0 <= v < SL_INDEX_COUNT ensures Bit(w, v) == (Bit(sl[i], v) && v != j) {
      BitAnd(sl[i], AllBut(32, j), v);
      BitAllBut(32, j, v);
    }
  }

  lemma BitmapsKeep(fl: nat, sl: seq<nat>, lists: Lists, i: int, j: int, l: seq<int>)
    requires Bitmaps(fl, sl, lists) && 0 <= i < FL_INDEX_COUNT && 0 <= j < SL_INDEX_COUNT
    requires lists[i][j] != [] && l != []
    ensures Bitmaps(fl, sl, Update(lists, i, j, l))
  {
    var lists' := Update(lists, i, j, l);
    forall u, v | 0 <= u < FL_INDEX_COUNT && 0 <= v < SL_INDEX_COUNT ensures Bit(sl[u], v) == (lists'[u][v] != []) {
      if u != i || v != j { assert lists'[u][v] == lists[u][v]; }
    }
  }

  /** Masking with `~0 << s` and taking the lowest set bit finds the first set bit from s on. */
  lemma FirstFrom(word: nat, s: nat)
    requires s <= 32
    ensures var x := And(word, OnesFrom(32, s));
      && (x == 0 ==> forall v | s <= v < 32 :: !Bit(word, v))
      && (x != 0 ==> s <= Ffs(x) < 32 && Bit(word, Ffs(x)) && forall v | s <= v < Ffs(x) :: !Bit(word, v))
  {
    var x := And(word, OnesFrom(32, s));
    FfsLowest(x);
    forall v: nat ensures Bit(x, v) == (Bit(word, v) && s <= v < 32) {
      BitAnd(word, OnesFrom(32, s), v);
      BitOnesFrom(32, s, v);
    }
    if x == 0 {
      forall v | s <= v < 32 ensures !Bit(word, v) { BitOfZero(v); assert Bit(x, v) == Bit(word, v); }
    } else {
      assert Bit(x, Ffs(x));
      forall v | s <= v < Ffs(x) ensures !Bit(word, v) { assert !Bit(x, v); }
    }
  }

  /** Rows the first-level bitmap reports empty hold no list, and a set row bit means a nonzero row. */
  lemma RowSearch(fl: nat, sl: seq<nat>, lists: Lists, from: int)
    requires Bitmaps(fl, sl, lists) && 0 <= from <= 32
    ensures var x := And(fl, OnesFrom(32, from));
      && (x == 0 ==> forall i | from <= i < FL_INDEX_COUNT :: sl[i] == 0)
      && (x != 0 ==> from <= Ffs(x) < FL_INDEX_COUNT && sl[Ffs(x)] != 0
                     && forall i | from <= i < Ffs(x) :: sl[i] == 0)
  {
    FirstFrom(fl, from);
    var x := And(fl, OnesFrom(32, from));
    if x != 0 && Ffs(x) >= FL_INDEX_COUNT {
      SmallWords(0, 0);
      BitBeyond(fl, 25, Ffs(x));
    }
    forall i | from <= i < FL_INDEX_COUNT && (x == 0 || i < Ffs(x)) ensures sl[i] == 0 {
      assert !Bit(fl, i);
    }
  }

  lemma EmptyRow(fl: nat, sl: seq<nat>, lists: Lists, i: int, j: int)
    requires Bitmaps(fl, sl, lists) && 0 <= i < FL_INDEX_COUNT && 0 <= j < SL_INDEX_COUNT && sl[i] == 0
    ensures lists[i][j] == []
  {
    BitOfZero(j);
  }

  // ----- no block listed yet

  function EmptyRows<T>(x: T): seq<seq<T>> {
    seq(FL_INDEX_COUNT, _ => seq(SL_INDEX_COUNT, _ => x))
  }

  lemma EmptyLists(cls: Classifier, m: seq<int>, bs: Blocks)
    ensures Chains(m, EmptyRows(NULL_BLOCK), EmptyRows([])) && Index(cls, bs, EmptyRows([]), {})
    ensures Bitmaps(0, seq(FL_INDEX_COUNT, _ => 0), EmptyRows([]))
  {
    forall i: nat ensures !Bit(0, i) { BitOfZero(i); }
  }
}
