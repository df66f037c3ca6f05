/** The two scanners of a devicetree blob: the boot arguments, and the timer frequency. */
module FdtScan {
  import opened FdtFormat

  /** "bootargs" and "timebase-frequency". */
  const BOOTARGS: seq<int> := [98, 111, 111, 116, 97, 114, 103, 115]
  const TIMEBASE: seq<int> := [116, 105, 109, 101, 98, 97, 115, 101, 45, 102, 114, 101, 113, 117, 101, 110, 99, 121]

  datatype Opt<T> = None | Some(v: T)

  /** The header fields a scanner uses, behind the magic number. */
  datatype Header = Header(structs: nat, end: nat, strings: nat, size: nat)

  function ReadHeader(m: seq<int>): Header
    requires Bytes(m)
  {
    Header(Be32(m, 8), Be32(m, 8) + Be32(m, 36), Be32(m, 12), Be32(m, 32))
  }

  /** The property has this name. */
  predicate Named(m: seq<int>, h: Header, item: Item, name: seq<int>) {
    item.nameoff < h.size && NameIs(m, h.strings + item.nameoff, name)
  }

  /** Where the first non-empty boot arguments start. */
  function FirstBootargs(m: seq<int>, h: Header, its: seq<Item>): Opt<nat> {
    if its == [] then None
    else if Named(m, h, its[0], BOOTARGS) && its[0].len > 0 then Some(its[0].at)
    else FirstBootargs(m, h, its[1..])
  }

  /** The last timer frequency, or what it was before. */
  function LastTimebase(m: seq<int>, h: Header, freq: int, its: seq<Item>): int
    decreases |its|
  {
    if its == [] then freq
    else LastTimebase(m, h, Updated(m, h, freq, its[0]), its[1..])
  }

  function Updated(m: seq<int>, h: Header, freq: int, item: Item): int {
    if Named(m, h, item, TIMEBASE) && item.len >= 4 then Be32(m, item.at) else freq
  }

  function BootargsIn(m: seq<int>): Opt<nat>
    requires Bytes(m)
  {
    var h := ReadHeader(m);
    if Be32(m, 0) != FDT_MAGIC then None else FirstBootargs(m, h, Items(m, h.structs, h.end))
  }

  function TimebaseIn(m: seq<int>, freq: int): int
    requires Bytes(m)
  {
    var h := ReadHeader(m);
    if Be32(m, 0) != FDT_MAGIC then freq else LastTimebase(m, h, freq, Items(m, h.structs, h.end))
  }

  /** What is still to be found from p on. */
  ghost function BootargsFrom(m: seq<int>, h: Header, p: nat): Opt<nat> {
    FirstBootargs(m, h, Items(m, p, h.end))
  }

  ghost function TimebaseFrom(m: seq<int>, h: Header, freq: int, p: nat): int {
    LastTimebase(m, h, freq, Items(m, p, h.end))
  }

  lemma BootargsNext(m: seq<int>, h: Header, p: nat)
    requires p + 4 <= h.end
    ensures match Next(m, p, h.end)
      case Stop => BootargsFrom(m, h, p) == None
      case Skip(q) => q > p && BootargsFrom(m, h, p) == BootargsFrom(m, h, q)
      case Found(item, q) =>
        q > p && BootargsFrom(m, h, p) == if Named(m, h, item, BOOTARGS) && item.len > 0 then Some(item.at) else BootargsFrom(m, h, q)
  {
    NextAdvances(m, p, h.end);
    if Next(m, p, h.end).Found? {
      assert Items(m, p, h.end)[1..] == Items(m, Next(m, p, h.end).q, h.end);
    }
  }

  lemma TimebaseNext(m: seq<int>, h: Header, freq: int, p: nat)
    requires p + 4 <= h.end
    ensures match Next(m, p, h.end)
      case Stop => TimebaseFrom(m, h, freq, p) == freq
      case Skip(q) => q > p && TimebaseFrom(m, h, freq, p) == TimebaseFrom(m, h, freq, q)
      case Found(item, q) =>
        q > p && TimebaseFrom(m, h, freq, p) == TimebaseFrom(m, h, Updated(m, h, freq, item), q)
  {
    NextAdvances(m, p, h.end);
    if Next(m, p, h.end).Found? {
      assert Items(m, p, h.end)[1..] == Items(m, Next(m, p, h.end).q, h.end);
    }
  }

  /** `find_bootargs`: a cursor over the structure block. */
  method FindBootargs(m: seq<int>) returns (r: Opt<nat>)
    requires Bytes(m)
    ensures r == BootargsIn(m)
  {
    if Be32(m, 0) != FDT_MAGIC { return None; }
    var h := ReadHeader(m);
    var p := h.structs;
    while p + 4 <= h.end
      invariant BootargsFrom(m, h, p) == BootargsIn(m)
      decreases h.end - p
    {
      BootargsNext(m, h, p);
      match Next(m, p, h.end)
      case Stop => return None;
      case Skip(q) => p := q;
      case Found(item, q) =>
        p := q;
        if Named(m, h, item, BOOTARGS) && item.len > 0 { return Some(item.at); }
    }
    return None;
  }

  /** `riscv_features_init`, for the timer frequency. */
  method FeaturesInit(m: seq<int>, freq0: int) returns (freq: int)
    requires Bytes(m)
    ensures freq == TimebaseIn(m, freq0)
  {
    freq := freq0;
    if Be32(m, 0) != FDT_MAGIC { return; }
    var h := ReadHeader(m);
    var p := h.structs;
    while p + 4 <= h.end
      invariant TimebaseFrom(m, h, freq, p) == TimebaseIn(m, freq0)
      decreases h.end - p
    {
      TimebaseNext(m, h, freq, p);
      match Next(m, p, h.end)
      case Stop => return;
      case Skip(q) => p := q;
      case Found(item, q) =>
        p := q;
        if Named(m, h, item, TIMEBASE) && item.len >= 4 { freq := Be32(m, item.at); }
    }
  }

  // ----- what the scanners find in an encoded stream

  /** The value of the first property "bootargs" that is not empty. */
  function FirstValue(ts: seq<Token>): Opt<seq<int>> {
    if ts == [] then None
    else if IsBootargs(ts[0]) then Some(ts[0].value)
    else FirstValue(ts[1..])
  }

  /** The last property "timebase-frequency" of at least four bytes. */
  function LastFrequency(ts: seq<Token>, freq: int): int
    decreases |ts|
  {
    if ts == [] then freq
    else LastFrequency(ts[1..], Frequency(ts[0], freq))
  }

  /** The header describes this stream: its structure block at p, its strings block at h.strings. */
  ghost predicate Describes(m: seq<int>, h: Header, names: seq<seq<int>>) {
    && Bytes(m) && Stands(m, h.strings, Flat(names)) && h.size == |Flat(names)| < 0x1_0000_0000
    && forall n | n in names :: IsName(n)
  }

  /** A stored offset names its own string, and no other. */
  lemma NamedExactly(m: seq<int>, h: Header, names: seq<seq<int>>, name: seq<int>, p: nat, len: nat, other: seq<int>)
    requires Describes(m, h, names) && name in names && IsName(other)
    ensures Named(m, h, Item(OffsetOf(names, name), p, len), other) <==> name == other
  {
    var off := OffsetOf(names, name);
    OffsetBelow(names, name);
    StandsIn(m, h.strings, Flat(names), off, name + [0]);
    NameStands(m, h.strings + off, name);
    if NameIs(m, h.strings + off, other) { NameUnique(m, h.strings + off, name, other); }
  }

  /** An offset at or past the end of the strings block names nothing, so its property is passed over. */
  lemma PastTable(m: seq<int>, h: Header, item: Item, its: seq<Item>, freq: int)
    requires item.nameoff >= h.size
    ensures FirstBootargs(m, h, [item] + its) == FirstBootargs(m, h, its)
    ensures LastTimebase(m, h, freq, [item] + its) == LastTimebase(m, h, freq, its)
  {
    assert ([item] + its)[1..] == its;
  }

  lemma StandsIn(m: seq<int>, p: nat, outer: seq<int>, off: nat, s: seq<int>)
    requires Stands(m, p, outer) && Stands(outer, off, s)
    ensures Stands(m, p + off, s)
  {
    assert outer == outer[..off] + (s + outer[off + |s|..]);
    StandsSplit(m, p, outer[..off], s + outer[off + |s|..]);
    StandsSplit(m, p + off, s, outer[off + |s|..]);
  }

  lemma Be32Stands(m: seq<int>, p: nat, s: seq<int>)
    requires Stands(m, p, s) && |s| >= 4
    ensures Be32(m, p) == Be32(s, 0)
  {
    assert ByteAt(m, p + 0) == ByteAt(s, 0) by { StandsAt(m, p, s, 0); }
    StandsAt(m, p, s, 1);
    StandsAt(m, p, s, 2);
    StandsAt(m, p, s, 3);
  }

  /** Where a stream's first boot arguments stand in memory. */
  ghost predicate Locates(m: seq<int>, at: Opt<nat>, value: Opt<seq<int>>) {
    match (at, value)
    case (None, None) => true
    case (Some(p), Some(v)) => Stands(m, p, v)
    case _ => false
  }

  lemma FirstOne(m: seq<int>, h: Header, item: Item)
    ensures FirstBootargs(m, h, [item]) == if Named(m, h, item, BOOTARGS) && item.len > 0 then Some(item.at) else None
  {
    assert [item][1..] == [];
    assert FirstBootargs(m, h, []) == None;
  }

  /** Over these properties the scanner finds where `value` stands. */
  ghost predicate Finds(m: seq<int>, h: Header, its: seq<Item>, value: Opt<seq<int>>) {
    Locates(m, FirstBootargs(m, h, its), value)
  }

  lemma FindsCons(m: seq<int>, h: Header, one: seq<Item>, first: Opt<seq<int>>, more: seq<Item>, rest: Opt<seq<int>>, all: seq<Item>)
    requires |one| <= 1 && all == one + more && Finds(m, h, one, first) && Finds(m, h, more, rest)
    ensures Finds(m, h, all, if first == None then rest else first)
  {
    if one == [] {
      assert all == more;
    } else {
      assert all[1..] == more && one == [one[0]] && all[0] == one[0];
      FirstOne(m, h, one[0]);
    }
  }

  lemma OneBootargs(m: seq<int>, h: Header, t: Token, names: seq<seq<int>>, p: nat)
    requires Describes(m, h, names) && TokenOk(t, names) && Stands(m, p, EncodeToken(t, names))
    ensures Finds(m, h, ItemOf(t, names, p), if IsBootargs(t) then Some(t.value) else None)
  {
    if t.Prop? {
      NamedExactly(m, h, names, t.name, p + 12, |t.value|, BOOTARGS);
      ValueStands(m, p, t, names);
      FirstOne(m, h, ItemOf(t, names, p)[0]);
    }
  }

  predicate IsBootargs(t: Token) {
    t.Prop? && t.name == BOOTARGS && t.value != []
  }

  lemma FirstValueFront(t: Token, rest: seq<Token>)
    ensures FirstValue([t] + rest) == if IsBootargs(t) then Some(t.value) else FirstValue(rest)
  {
    assert ([t] + rest)[1..] == rest;
  }

  lemma FindsStep(m: seq<int>, h: Header, t: Token, rest: seq<Token>, names: seq<seq<int>>, p: nat, q: nat)
    requires Describes(m, h, names) && TokenOk(t, names) && Stands(m, p, EncodeToken(t, names))
    requires q == p + |EncodeToken(t, names)| && Finds(m, h, Expected(rest, names, q), FirstValue(rest))
    ensures Finds(m, h, Expected([t] + rest, names, p), FirstValue([t] + rest))
  {
    hide EncodeToken;
    OneBootargs(m, h, t, names, p);
    ExpectedFront(t, rest, names, p);
    FirstValueFront(t, rest);
    FindsCons(m, h, ItemOf(t, names, p), if IsBootargs(t) then Some(t.value) else None, Expected(rest, names, q), FirstValue(rest),
              Expected([t] + rest, names, p));
  }

  lemma FindsNone(m: seq<int>, h: Header, names: seq<seq<int>>, p: nat)
    requires Describes(m, h, names)
    ensures Finds(m, h, Expected([], names, p), FirstValue([]))
  {}

  lemma {:induction false} FindsFirst(m: seq<int>, h: Header, ts: seq<Token>, names: seq<seq<int>>, p: nat)
    requires Describes(m, h, names) && WellFormed(ts, names) && p % 4 == 0 && Stands(m, p, Encode(ts, names) + Cell(FDT_END))
    ensures Finds(m, h, Expected(ts, names, p), FirstValue(ts))
    decreases |ts|
  {
    hide *;
    if ts == [] {
      FindsNone(m, h, names, p);
    } else {
      var t, rest := ts[0], ts[1..];
      var q := p + |EncodeToken(t, names)|;
      assert ts == [t] + rest;
      WellFormedFront(t, rest, names);
      StandsFront(m, p, t, rest, names);
      SumAligned(p, q - p);
      FindsFirst(m, h, rest, names, q);
      FindsStep(m, h, t, rest, names, p, q);
    }
  }

  lemma ValueStands(m: seq<int>, p: nat, t: Token, names: seq<seq<int>>)
    requires t.Prop? && Stands(m, p, EncodeToken(t, names))
    ensures Stands(m, p + 12, t.value)
  {
    StandsSplit(m, p, Cell(FDT_PROP) + Cell(|t.value|) + Cell(OffsetOf(names, t.name)), Padded(t.value));
    StandsSplit(m, p + 12, t.value, Zeros(Align4(|t.value|) - |t.value|));
  }

  /** The frequency after one token. */
  function Frequency(t: Token, freq: int): int {
    if t.Prop? && t.name == TIMEBASE && |t.value| >= 4 then Be32(t.value, 0) else freq
  }

  /** Starting from `freq`, the scanner ends with r over these properties. */
  ghost predicate Ends(m: seq<int>, h: Header, freq: int, its: seq<Item>, r: int) {
    LastTimebase(m, h, freq, its) == r
  }

  lemma EndsCons(m: seq<int>, h: Header, freq: int, one: seq<Item>, mid: int, more: seq<Item>, r: int, all: seq<Item>)
    requires |one| <= 1 && all == one + more && Ends(m, h, freq, one, mid) && Ends(m, h, mid, more, r)
    ensures Ends(m, h, freq, all, r)
  {
    if one == [] {
      assert all == more;
    } else {
      assert all[1..] == more && one[1..] == [] && all[0] == one[0];
      assert LastTimebase(m, h, freq, one) == Updated(m, h, freq, one[0]);
    }
  }

  lemma OneFrequency(m: seq<int>, h: Header, freq: int, t: Token, names: seq<seq<int>>, p: nat)
    requires Describes(m, h, names) && TokenOk(t, names) && Stands(m, p, EncodeToken(t, names))
    ensures Ends(m, h, freq, ItemOf(t, names, p), Frequency(t, freq))
  {
    if t.Prop? {
      NamedExactly(m, h, names, t.name, p + 12, |t.value|, TIMEBASE);
      ValueStands(m, p, t, names);
      if |t.value| >= 4 { Be32Stands(m, p + 12, t.value); }
    }
  }

  lemma EndsStep(m: seq<int>, h: Header, freq: int, t: Token, rest: seq<Token>, names: seq<seq<int>>, p: nat, q: nat)
    requires Describes(m, h, names) && TokenOk(t, names) && Stands(m, p, EncodeToken(t, names))
    requires q == p + |EncodeToken(t, names)|
    requires var f := Frequency(t, freq); Ends(m, h, f, Expected(rest, names, q), LastFrequency(rest, f))
    ensures Ends(m, h, freq, Expected([t] + rest, names, p), LastFrequency([t] + rest, freq))
  {
    hide EncodeToken, Frequency;
    var f := Frequency(t, freq);
    OneFrequency(m, h, freq, t, names, p);
    ExpectedFront(t, rest, names, p);
    assert LastFrequency([t] + rest, freq) == LastFrequency(rest, f) by { assert ([t] + rest)[1..] == rest; }
    EndsCons(m, h, freq, ItemOf(t, names, p), f, Expected(rest, names, q), LastFrequency(rest, f), Expected([t] + rest, names, p));
  }

  lemma EndsNone(m: seq<int>, h: Header, freq: int, names: seq<seq<int>>, p: nat)
    ensures Ends(m, h, freq, Expected([], names, p), LastFrequency([], freq))
  {}

  lemma {:induction false} FindsLast(m: seq<int>, h: Header, freq: int, ts: seq<Token>, names: seq<seq<int>>, p: nat)
    requires Describes(m, h, names) && WellFormed(ts, names) && p % 4 == 0 && Stands(m, p, Encode(ts, names) + Cell(FDT_END))
    ensures Ends(m, h, freq, Expected(ts, names, p), LastFrequency(ts, freq))
    decreases |ts|
  {
    hide *;
    if ts == [] {
      EndsNone(m, h, freq, names, p);
    } else {
      var t, rest := ts[0], ts[1..];
      var q := p + |EncodeToken(t, names)|;
      assert ts == [t] + rest;
      WellFormedFront(t, rest, names);
      StandsFront(m, p, t, rest, names);
      SumAligned(p, q - p);
      FindsLast(m, h, Frequency(t, freq), rest, names, q);
      EndsStep(m, h, freq, t, rest, names, p, q);
    }
  }
}
