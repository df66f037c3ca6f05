/** Flattened devicetree blobs: big-endian cells, C strings, the token stream, and what a scanner reads from
    it. Chapter 5 of the Devicetree Specification gives the format. */
module FdtFormat {
  const FDT_MAGIC: int := 0xD00D_FEED
  const FDT_BEGIN_NODE: int := 1
  const FDT_END_NODE: int := 2
  const FDT_PROP: int := 3
  const FDT_NOP: int := 4
  const FDT_END: int := 9

  predicate Bytes(s: seq<int>) {
    forall i | 0 <= i < |s| :: 0 <= s[i] < 256
  }

  // ----- reading memory

  /** The byte at p; memory past the blob reads as zero. */
  function ByteAt(m: seq<int>, p: nat): int {
    if p < |m| then m[p] else 0
  }

  function Be32(m: seq<int>, p: nat): int {
    0x100_0000 * ByteAt(m, p) + 0x1_0000 * ByteAt(m, p + 1) + 0x100 * ByteAt(m, p + 2) + ByteAt(m, p + 3)
  }

  function Cell(v: int): seq<int> {
    [(v / 0x100_0000) % 0x100, (v / 0x1_0000) % 0x100, (v / 0x100) % 0x100, v % 0x100]
  }

  function Align4(p: nat): nat { (p + 3) / 4 * 4 }

  /** `strnlen`: bytes before the first zero, at most n. */
  function Strnlen(m: seq<int>, p: nat, n: nat): (k: nat)
    ensures k <= n && (k < n ==> ByteAt(m, p + k) == 0)
    ensures forall i: nat | p <= i < p + k :: ByteAt(m, i) != 0
    decreases n
  {
    if n == 0 || ByteAt(m, p) == 0 then 0 else 1 + Strnlen(m, p + 1, n - 1)
  }

  /** `!strcmp(m + p, name)`. */
  predicate NameIs(m: seq<int>, p: nat, name: seq<int>) {
    (forall i: nat | p <= i < p + |name| :: ByteAt(m, i) == name[i - p]) && ByteAt(m, p + |name|) == 0
  }

  /** s stands in m at p. */
  ghost predicate Stands(m: seq<int>, p: nat, s: seq<int>) {
    p + |s| <= |m| && m[p..p + |s|] == s
  }

  lemma StandsSplit(m: seq<int>, p: nat, a: seq<int>, b: seq<int>)
    requires Stands(m, p, a + b)
    ensures Stands(m, p, a) && Stands(m, p + |a|, b)
  {
    assert m[p..p + |a|] == (a + b)[..|a|] == a;
    assert m[p + |a|..p + |a| + |b|] == (a + b)[|a|..] == b;
  }

  lemma StandsAt(m: seq<int>, p: nat, s: seq<int>, i: nat)
    requires Stands(m, p, s) && i < |s|
    ensures ByteAt(m, p + i) == s[i]
  {
    assert m[p + i] == m[p..p + |s|][i];
  }

  lemma ReadCell(m: seq<int>, p: nat, v: int)
    requires Stands(m, p, Cell(v)) && 0 <= v < 0x1_0000_0000
    ensures Be32(m, p) == v
  {
    forall i: nat | i < 4 ensures ByteAt(m, p + i) == Cell(v)[i] { StandsAt(m, p, Cell(v), i); }
    assert ByteAt(m, p + 0) == Cell(v)[0];
    CellValue(v);
  }

  lemma CellValue(v: int)
    requires 0 <= v < 0x1_0000_0000
    ensures 0x100_0000 * Cell(v)[0] + 0x1_0000 * Cell(v)[1] + 0x100 * Cell(v)[2] + Cell(v)[3] == v
  {
    var a, b := v / 0x1_0000, v / 0x100;
    assert v / 0x100_0000 == a / 0x100 && a == b / 0x100;
  }

  // ----- names

  /** A C string without its terminator. */
  ghost predicate IsName(s: seq<int>) {
    Bytes(s) && 0 !in s
  }

  lemma NameStands(m: seq<int>, p: nat, name: seq<int>)
    requires Stands(m, p, name + [0])
    ensures NameIs(m, p, name)
  {
    forall i: nat | p <= i <= p + |name| ensures ByteAt(m, i) == (name + [0])[i - p] { StandsAt(m, p, name + [0], i - p); }
  }

  lemma NameLength(m: seq<int>, p: nat, name: seq<int>, n: nat)
    requires IsName(name) && NameIs(m, p, name) && |name| <= n
    ensures Strnlen(m, p, n) == |name|
  {
    var k := Strnlen(m, p, n);
    assert k < n ==> ByteAt(m, p + k) == 0;
  }

  /** Where one C string ends decides which it is. */
  lemma NameUnique(m: seq<int>, p: nat, a: seq<int>, b: seq<int>)
    requires IsName(a) && IsName(b) && NameIs(m, p, a) && NameIs(m, p, b)
    ensures a == b
  {
    NameLength(m, p, a, |a| + |b|);
    NameLength(m, p, b, |a| + |b|);
    forall i | 0 <= i < |a| ensures a[i] == b[i] { assert ByteAt(m, p + i) == a[i] && ByteAt(m, p + i) == b[i]; }
  }

  // ----- the string table

  /** The strings block for a list of names. */
  function Flat(names: seq<seq<int>>): seq<int> {
    if names == [] then [] else Flat(names[..|names| - 1]) + names[|names| - 1] + [0]
  }

  /** Index of a name in the table; |names| when it is not there. */
  function IndexOf(names: seq<seq<int>>, name: seq<int>): (k: nat)
    ensures k <= |names| && (k < |names| ==> names[k] == name)
    ensures forall j | 0 <= j < k :: names[j] != name
  {
    if names == [] then 0 else if names[0] == name then 0 else 1 + IndexOf(names[1..], name)
  }

  function OffsetOf(names: seq<seq<int>>, name: seq<int>): nat {
    |Flat(names[..IndexOf(names, name)])|
  }

  lemma {:induction false} FlatSplit(names: seq<seq<int>>, k: nat)
    requires k < |names|
    ensures |Flat(names[..k])| + |names[k]| + 1 <= |Flat(names)|
    ensures Stands(Flat(names), |Flat(names[..k])|, names[k] + [0])
    ensures |Flat(names[..k + 1])| == |Flat(names[..k])| + |names[k]| + 1
    decreases |names|
  {
    var n := |names| - 1;
    var init := names[..n];
    assert names[..k + 1][..k] == names[..k] && names[..k + 1][k] == names[k];
    if k == n {
      assert names[..k + 1] == names;
      assert Flat(names) == Flat(init) + (names[n] + [0]);
    } else {
      FlatSplit(init, k);
      assert init[..k] == names[..k] && init[k] == names[k];
      assert Flat(names) == Flat(init) + (names[n] + [0]);
    }
  }

  /** Growing the table does not move a name that is in it. */
  lemma OffsetKept(names: seq<seq<int>>, extra: seq<int>, name: seq<int>)
    requires name in names
    ensures OffsetOf(names + [extra], name) == OffsetOf(names, name)
  {
    IndexKept(names, [extra], name);
    var k := IndexOf(names, name);
    assert (names + [extra])[..k] == names[..k];
  }

  lemma {:induction false} IndexKept(names: seq<seq<int>>, more: seq<seq<int>>, name: seq<int>)
    ensures name in names ==> IndexOf(names + more, name) == IndexOf(names, name) < |names|
    ensures name !in names ==> IndexOf(names, name) == |names|
  {
    if names != [] {
      assert (names + more)[1..] == names[1..] + more;
      IndexKept(names[1..], more, name);
      assert name in names <==> name == names[0] || name in names[1..];
    }
  }

  // ----- tokens

  datatype Token = Begin(name: seq<int>) | Prop(name: seq<int>, value: seq<int>) | End

  function Zeros(n: nat): seq<int> { seq(n, _ => 0) }

  /** Zero bytes up to the next multiple of four. */
  function Padded(s: seq<int>): (r: seq<int>)
    ensures |r| == Align4(|s|) && |r| % 4 == 0
  {
    s + Zeros(Align4(|s|) - |s|)
  }

  function EncodeToken(t: Token, names: seq<seq<int>>): seq<int> {
    match t
    case Begin(name) => Cell(FDT_BEGIN_NODE) + Padded(name + [0])
    case Prop(name, value) => Cell(FDT_PROP) + Cell(|value|) + Cell(OffsetOf(names, name)) + Padded(value)
    case End => Cell(FDT_END_NODE)
  }

  function Concat(cs: seq<seq<int>>): seq<int> {
    if cs == [] then [] else Concat(cs[..|cs| - 1]) + cs[|cs| - 1]
  }

  function Chunks(ts: seq<Token>, names: seq<seq<int>>): seq<seq<int>> {
    seq(|ts|, i requires 0 <= i < |ts| => EncodeToken(ts[i], names))
  }

  function Encode(ts: seq<Token>, names: seq<seq<int>>): seq<int> {
    Concat(Chunks(ts, names))
  }

  lemma Assoc(a: seq<int>, b: seq<int>, c: seq<int>)
    ensures (a + b) + c == a + (b + c)
  {}

  lemma {:induction false} ConcatFront(c: seq<int>, cs: seq<seq<int>>)
    ensures Concat([c] + cs) == c + Concat(cs)
    decreases |cs|
  {
    if cs == [] {
      assert ([c] + cs)[..0] == [];
    } else {
      var init, last := cs[..|cs| - 1], cs[|cs| - 1];
      ConcatFront(c, init);
      assert ([c] + cs)[..|cs|] == [c] + init;
      Assoc(c, Concat(init), last);
    }
  }

  lemma EncodeLast(ts: seq<Token>, t: Token, names: seq<seq<int>>)
    ensures Encode(ts + [t], names) == Encode(ts, names) + EncodeToken(t, names)
  {
    assert Chunks(ts + [t], names)[..|ts|] == Chunks(ts, names);
  }

  /** The same stream, taken apart from the front. */
  lemma EncodeFront(t: Token, ts: seq<Token>, names: seq<seq<int>>)
    ensures Encode([t] + ts, names) == EncodeToken(t, names) + Encode(ts, names)
  {
    assert Chunks([t] + ts, names) == [EncodeToken(t, names)] + Chunks(ts, names);
    ConcatFront(EncodeToken(t, names), Chunks(ts, names));
  }

  lemma TokenAligned(t: Token, names: seq<seq<int>>)
    ensures |EncodeToken(t, names)| % 4 == 0 && |EncodeToken(t, names)| > 0
  {
    match t
    case Begin(name) => assert |EncodeToken(t, names)| == 4 + Align4(|name| + 1);
    case Prop(name, value) => assert |EncodeToken(t, names)| == 12 + Align4(|value|);
    case End =>
  }

  lemma SumAligned(a: nat, b: nat)
    requires a % 4 == 0 && b % 4 == 0
    ensures (a + b) % 4 == 0
  {}

  lemma {:induction false} ConcatAligned(cs: seq<seq<int>>)
    requires forall c | c in cs :: |c| % 4 == 0
    ensures |Concat(cs)| % 4 == 0
  {
    if cs != [] {
      ConcatAligned(cs[..|cs| - 1]);
      assert cs[|cs| - 1] in cs;
      SumAligned(|Concat(cs[..|cs| - 1])|, |cs[|cs| - 1]|);
    }
  }

  lemma EncodeAligned(ts: seq<Token>, names: seq<seq<int>>)
    ensures |Encode(ts, names)| % 4 == 0
  {
    forall c | c in Chunks(ts, names) ensures |c| % 4 == 0 {
      var i :| 0 <= i < |ts| && EncodeToken(ts[i], names) == c;
      TokenAligned(ts[i], names);
    }
    ConcatAligned(Chunks(ts, names));
  }

  /** Values and names are byte strings; property names are in the table. */
  ghost predicate WellFormed(ts: seq<Token>, names: seq<seq<int>>) {
    && (forall n | n in names :: IsName(n))
    && (forall i | 0 <= i < |ts| :: TokenOk(ts[i], names))
  }

  ghost predicate TokenOk(t: Token, names: seq<seq<int>>) {
    match t
    case Begin(name) => IsName(name)
    case Prop(name, value) => name in names && Bytes(value) && |value| < 0x1_0000_0000
    case End => true
  }

  lemma WellFormedFront(t: Token, rest: seq<Token>, names: seq<seq<int>>)
    requires WellFormed([t] + rest, names)
    ensures TokenOk(t, names) && WellFormed(rest, names)
  {
    assert TokenOk(([t] + rest)[0], names);
    forall i | 0 <= i < |rest| ensures TokenOk(rest[i], names) { assert rest[i] == ([t] + rest)[i + 1]; }
  }

  /** A name added to the table changes no encoding. */
  lemma EncodeKept(ts: seq<Token>, names: seq<seq<int>>, extra: seq<int>)
    requires WellFormed(ts, names)
    ensures Encode(ts, names + [extra]) == Encode(ts, names)
  {
    forall i | 0 <= i < |ts| ensures EncodeToken(ts[i], names + [extra]) == EncodeToken(ts[i], names) {
      assert TokenOk(ts[i], names);
      if ts[i].Prop? { OffsetKept(names, extra, ts[i].name); }
    }
    assert Chunks(ts, names + [extra]) == Chunks(ts, names);
  }

  // ----- scanning

  /** A property the scanner meets: its name's offset, where its value starts, and how long that is. */
  datatype Item = Item(nameoff: nat, at: nat, len: nat)

  /** The properties a scanner meets between p and `end`. */
  function Items(m: seq<int>, p: nat, end: nat): seq<Item>
    decreases end - p
  {
    if p + 4 > end then []
    else
      match Next(m, p, end)
      case Stop => []
      case Skip(q) => if q > p then Items(m, q, end) else []
      case Found(item, q) => if q > p then [item] + Items(m, q, end) else []
  }

  /** What the scanner does at one token: stop, go on at q, or report a property and go on. */
  datatype Move = Stop | Skip(q: nat) | Found(item: Item, q: nat)

  function Next(m: seq<int>, p: nat, end: nat): (r: Move)
    requires p + 4 <= end
  {
    if !Bytes(m) then Stop
    else
      var token, q := Be32(m, p), p + 4;
      if token == FDT_BEGIN_NODE then Skip(Align4(q + Strnlen(m, q, end - q) + 1))
      else if token == FDT_PROP then
        if q + 8 > end then Stop else Found(Item(Be32(m, q + 4), q + 8, Be32(m, q)), Align4(q + 8 + Be32(m, q)))
      else if token == FDT_END_NODE || token == FDT_NOP then Skip(q)
      else Stop
  }

  lemma NextAdvances(m: seq<int>, p: nat, end: nat)
    requires p + 4 <= end
    ensures match Next(m, p, end) case Stop => true case Skip(q) => q > p case Found(_, q) => q > p
  {}

  /** What a token encoded at p makes a scanner report. */
  function ItemOf(t: Token, names: seq<seq<int>>, p: nat): seq<Item> {
    if t.Prop? then [Item(OffsetOf(names, t.name), p + 12, |t.value|)] else []
  }

  function Expected(ts: seq<Token>, names: seq<seq<int>>, p: nat): seq<Item> {
    if ts == [] then [] else ItemOf(ts[0], names, p) + Expected(ts[1..], names, p + |EncodeToken(ts[0], names)|)
  }

  lemma AlignShift(q: nat, n: nat)
    requires q % 4 == 0
    ensures Align4(q + n) == q + Align4(n)
  {}

  lemma BeginLength(name: seq<int>, names: seq<seq<int>>, p: nat)
    requires p % 4 == 0
    ensures Align4(p + 4 + |name| + 1) == p + |EncodeToken(Begin(name), names)|
  {
    AlignShift(p + 4, |name| + 1);
  }

  lemma BeginStands(m: seq<int>, p: nat, end: nat, name: seq<int>, names: seq<seq<int>>)
    requires Bytes(m) && IsName(name) && Stands(m, p, EncodeToken(Begin(name), names))
    requires p + |EncodeToken(Begin(name), names)| <= end
    ensures p + 4 + |name| < end && Be32(m, p) == FDT_BEGIN_NODE && Strnlen(m, p + 4, end - (p + 4)) == |name|
  {
    var pad := Zeros(Align4(|name| + 1) - (|name| + 1));
    StandsSplit(m, p, Cell(FDT_BEGIN_NODE), (name + [0]) + pad);
    ReadCell(m, p, FDT_BEGIN_NODE);
    StandsSplit(m, p + 4, name + [0], pad);
    NameStands(m, p + 4, name);
    NameLength(m, p + 4, name, end - (p + 4));
  }

  lemma NextBegin(m: seq<int>, p: nat, end: nat, name: seq<int>, names: seq<seq<int>>)
    requires Bytes(m) && IsName(name) && p % 4 == 0 && Stands(m, p, EncodeToken(Begin(name), names))
    requires p + |EncodeToken(Begin(name), names)| <= end
    ensures p + 4 <= end && Next(m, p, end) == Skip(p + |EncodeToken(Begin(name), names)|)
  {
    BeginStands(m, p, end, name, names);
    BeginLength(name, names, p);
  }

  lemma NextProp(m: seq<int>, p: nat, end: nat, name: seq<int>, value: seq<int>, names: seq<seq<int>>)
    requires Bytes(m) && p % 4 == 0 && |value| < 0x1_0000_0000 && OffsetOf(names, name) < 0x1_0000_0000
    requires Stands(m, p, EncodeToken(Prop(name, value), names)) && p + |EncodeToken(Prop(name, value), names)| <= end
    ensures p + 4 <= end && Stands(m, p + 12, value)
    ensures Next(m, p, end) == Found(Item(OffsetOf(names, name), p + 12, |value|), p + |EncodeToken(Prop(name, value), names)|)
  {
    var off := OffsetOf(names, name);
    StandsSplit(m, p, Cell(FDT_PROP) + Cell(|value|) + Cell(off), Padded(value));
    StandsSplit(m, p, Cell(FDT_PROP) + Cell(|value|), Cell(off));
    StandsSplit(m, p, Cell(FDT_PROP), Cell(|value|));
    ReadCell(m, p, FDT_PROP);
    ReadCell(m, p + 4, |value|);
    ReadCell(m, p + 8, off);
    StandsSplit(m, p + 12, value, Zeros(Align4(|value|) - |value|));
    AlignShift(p + 12, |value|);
  }

  /** At an encoded token the scanner reports its property, if it is one, and goes on behind it. */
  lemma NextIs(m: seq<int>, p: nat, end: nat, t: Token, names: seq<seq<int>>)
    requires Bytes(m) && p % 4 == 0 && TokenOk(t, names) && |Flat(names)| < 0x1_0000_0000
    requires Stands(m, p, EncodeToken(t, names)) && p + |EncodeToken(t, names)| <= end
    ensures var q := p + |EncodeToken(t, names)|;
      && p + 4 <= end && q > p
      && Next(m, p, end) == if t.Prop? then Found(Item(OffsetOf(names, t.name), p + 12, |t.value|), q) else Skip(q)
  {
    match t
    case Begin(name) => NextBegin(m, p, end, name, names);
    case Prop(name, value) =>
      OffsetBelow(names, name);
      NextProp(m, p, end, name, value, names);
    case End => ReadCell(m, p, FDT_END_NODE);
  }

  /** Between p and `end` the scanner reports these properties. */
  ghost predicate Reports(m: seq<int>, p: nat, end: nat, its: seq<Item>) {
    Items(m, p, end) == its
  }

  lemma ReportsNext(m: seq<int>, p: nat, end: nat, q: nat, one: seq<Item>, more: seq<Item>, all: seq<Item>)
    requires p + 4 <= end && p < q && Reports(m, q, end, more) && all == one + more
    requires if |one| == 0 then Next(m, p, end) == Skip(q) else |one| == 1 && Next(m, p, end) == Found(one[0], q)
    ensures Reports(m, p, end, all)
  {}

  lemma StandsFront(m: seq<int>, p: nat, t: Token, rest: seq<Token>, names: seq<seq<int>>)
    requires Stands(m, p, Encode([t] + rest, names) + Cell(FDT_END))
    ensures var n := |EncodeToken(t, names)|;
      && Stands(m, p, EncodeToken(t, names)) && Stands(m, p + n, Encode(rest, names) + Cell(FDT_END))
      && |Encode([t] + rest, names)| == n + |Encode(rest, names)| && n % 4 == 0
  {
    EncodeFront(t, rest, names);
    Assoc(EncodeToken(t, names), Encode(rest, names), Cell(FDT_END));
    StandsSplit(m, p, EncodeToken(t, names), Encode(rest, names) + Cell(FDT_END));
    TokenAligned(t, names);
  }

  lemma ExpectedFront(t: Token, rest: seq<Token>, names: seq<seq<int>>, p: nat)
    ensures Expected([t] + rest, names, p) == ItemOf(t, names, p) + Expected(rest, names, p + |EncodeToken(t, names)|)
  {
    assert ([t] + rest)[1..] == rest;
  }

  lemma ScanStep(m: seq<int>, p: nat, end: nat, t: Token, rest: seq<Token>, names: seq<seq<int>>, q: nat)
    requires Bytes(m) && p % 4 == 0 && TokenOk(t, names) && |Flat(names)| < 0x1_0000_0000
    requires Stands(m, p, EncodeToken(t, names)) && q == p + |EncodeToken(t, names)| <= end
    requires Reports(m, q, end, Expected(rest, names, q))
    ensures Reports(m, p, end, Expected([t] + rest, names, p))
  {
    hide EncodeToken;
    NextIs(m, p, end, t, names);
    ExpectedFront(t, rest, names, p);
    ReportsNext(m, p, end, q, ItemOf(t, names, p), Expected(rest, names, q), Expected([t] + rest, names, p));
  }

  /** A scanner meets exactly the properties that were emitted, in order. */
  lemma {:induction false} ScanEncoded(m: seq<int>, p: nat, end: nat, ts: seq<Token>, names: seq<seq<int>>)
    requires Bytes(m) && p % 4 == 0 && WellFormed(ts, names) && |Flat(names)| < 0x1_0000_0000
    requires Stands(m, p, Encode(ts, names) + Cell(FDT_END)) && end == p + |Encode(ts, names)| + 4
    ensures Reports(m, p, end, Expected(ts, names, p))
    decreases |ts|
  {
    hide *;
    if ts == [] {
      ScanEnd(m, p, end, names);
    } else {
      var t, rest := ts[0], ts[1..];
      var q := p + |EncodeToken(t, names)|;
      assert ts == [t] + rest;
      WellFormedFront(t, rest, names);
      StandsFront(m, p, t, rest, names);
      SumAligned(p, q - p);
      ScanEncoded(m, q, end, rest, names);
      ScanStep(m, p, end, t, rest, names, q);
    }
  }

  lemma ScanEnd(m: seq<int>, p: nat, end: nat, names: seq<seq<int>>)
    requires Bytes(m) && Stands(m, p, Encode([], names) + Cell(FDT_END)) && end == p + |Encode([], names)| + 4
    ensures Reports(m, p, end, Expected([], names, p))
  {
    assert Encode([], names) + Cell(FDT_END) == Cell(FDT_END);
    ReadCell(m, p, FDT_END);
  }

  lemma OffsetBelow(names: seq<seq<int>>, name: seq<int>)
    requires name in names
    ensures OffsetOf(names, name) + |name| + 1 <= |Flat(names)|
    ensures Stands(Flat(names), OffsetOf(names, name), name + [0])
  {
    IndexKept(names, [], name);
    assert names + [] == names;
    FlatSplit(names, IndexOf(names, name));
  }
}
