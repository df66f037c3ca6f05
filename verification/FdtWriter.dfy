/** The devicetree writer: emits tokens at a moving pointer, interns property names, and lays out the blob. */
module FdtWriter {
  import opened FdtFormat
  import opened FdtScan

  const STRINGS_SIZE: nat := 2048
  const STRUCT_OFFSET: nat := 56

  /** 32-bit fields one after the other. */
  function Fields(cs: seq<seq<int>>): seq<int> {
    if cs == [] then [] else cs[0] + Fields(cs[1..])
  }

  ghost predicate AllCells(cs: seq<seq<int>>) {
    forall i | 0 <= i < |cs| :: |cs[i]| == 4 && Bytes(cs[i])
  }

  lemma {:induction false} FieldsLength(cs: seq<seq<int>>)
    requires AllCells(cs)
    ensures |Fields(cs)| == 4 * |cs| && Bytes(Fields(cs))
  {
    if cs != [] { FieldsLength(cs[1..]); }
  }

  lemma {:induction false} FieldAt(cs: seq<seq<int>>, k: nat, p: nat)
    requires AllCells(cs) && k < |cs| && p == 4 * k
    ensures Stands(Fields(cs), p, cs[k])
  {
    FieldsLength(cs);
    if k > 0 {
      FieldAt(cs[1..], k - 1, p - 4);
      StandsAfter(cs[0], Fields(cs[1..]), p - 4, cs[k]);
    }
  }

  lemma StandsAfter(a: seq<int>, m: seq<int>, p: nat, s: seq<int>)
    requires Stands(m, p, s)
    ensures Stands(a + m, |a| + p, s)
  {
    assert (a + m)[|a| + p..|a| + p + |s|] == m[p..p + |s|];
  }

  lemma StandsBefore(m: seq<int>, b: seq<int>, p: nat, s: seq<int>)
    requires Stands(m, p, s)
    ensures Stands(m + b, p, s)
  {
    assert (m + b)[p..p + |s|] == m[p..p + |s|];
  }

  // ----- the layout

  function StructBlock(ts: seq<Token>, names: seq<seq<int>>): seq<int> {
    Encode(ts, names) + Cell(FDT_END)
  }

  function StringsOffset(size: nat): nat { (STRUCT_OFFSET + size + 7) / 8 * 8 }

  function HeaderFields(size: nat, strings: nat): (cs: seq<seq<int>>)
    ensures AllCells(cs)
  {
    CellBytes(FDT_MAGIC);
    CellBytes(StringsOffset(size) + strings);
    CellBytes(STRUCT_OFFSET);
    CellBytes(StringsOffset(size));
    CellBytes(40);
    CellBytes(17);
    CellBytes(16);
    CellBytes(0);
    CellBytes(strings);
    CellBytes(size);
    [Cell(FDT_MAGIC), Cell(StringsOffset(size) + strings), Cell(STRUCT_OFFSET), Cell(StringsOffset(size)), Cell(40), Cell(17),
     Cell(16), Cell(0), Cell(strings), Cell(size)]
  }

  function HeaderBytes(size: nat, strings: nat): (s: seq<int>)
    ensures |s| == 40 && Bytes(s)
  {
    FieldsLength(HeaderFields(size, strings));
    Fields(HeaderFields(size, strings))
  }

  /** Header, empty memory reservation block, structure block, and strings block at a multiple of eight. */
  function Layout(structs: seq<int>, strings: seq<int>): seq<int> {
    HeaderBytes(|structs|, |strings|) + Zeros(16) + structs
    + Zeros(StringsOffset(|structs|) - STRUCT_OFFSET - |structs|) + strings
  }

  lemma LayoutStands(hdr: seq<int>, structs: seq<int>, strings: seq<int>)
    requires hdr == HeaderBytes(|structs|, |strings|)
    ensures var m := Layout(structs, strings);
      Stands(m, 0, hdr) && Stands(m, STRUCT_OFFSET, structs) && Stands(m, StringsOffset(|structs|), strings)
  {
    var gap := Zeros(StringsOffset(|structs|) - STRUCT_OFFSET - |structs|);
    var front := hdr + Zeros(16);
    assert Stands(hdr, 0, hdr) && Stands(strings, 0, strings) && Stands(structs, 0, structs);
    StandsAfter(front, structs, 0, structs);
    StandsBefore(front + structs, gap, STRUCT_OFFSET, structs);
    StandsBefore(front + structs + gap, strings, STRUCT_OFFSET, structs);
    StandsAfter(front + structs + gap, strings, 0, strings);
    StandsBefore(hdr, Zeros(16), 0, hdr);
    StandsBefore(front, structs, 0, hdr);
    StandsBefore(front + structs, gap, 0, hdr);
    StandsBefore(front + structs + gap, strings, 0, hdr);
  }

  lemma HeaderField(m: seq<int>, cs: seq<seq<int>>, k: nat, p: nat, v: int)
    requires AllCells(cs) && Stands(m, 0, Fields(cs)) && k < |cs| && p == 4 * k && cs[k] == Cell(v) && 0 <= v < 0x1_0000_0000
    ensures Be32(m, p) == v
  {
    FieldAt(cs, k, p);
    StandsIn(m, 0, Fields(cs), p, cs[k]);
    ReadCell(m, p, v);
  }

  lemma LayoutHeader(structs: seq<int>, strings: seq<int>)
    requires Bytes(Layout(structs, strings)) && StringsOffset(|structs|) + |strings| < 0x1_0000_0000
    ensures var m := Layout(structs, strings);
      && Be32(m, 0) == FDT_MAGIC
      && ReadHeader(m) == Header(STRUCT_OFFSET, STRUCT_OFFSET + |structs|, StringsOffset(|structs|), |strings|)
  {
    var m, cs := Layout(structs, strings), HeaderFields(|structs|, |strings|);
    LayoutStands(HeaderBytes(|structs|, |strings|), structs, strings);
    HeaderField(m, cs, 0, 0, FDT_MAGIC);
    HeaderField(m, cs, 2, 8, STRUCT_OFFSET);
    HeaderField(m, cs, 3, 12, StringsOffset(|structs|));
    HeaderField(m, cs, 8, 32, |strings|);
    HeaderField(m, cs, 9, 36, |structs|);
  }

  /** A blob with `size` bytes of structure and `strings` bytes of names, as sections 5.2 and 5.3 of the Devicetree
      Specification ask for: the ten header fields, and a memory reservation block that is one empty entry. */
  ghost predicate IsBlob(m: seq<int>, size: nat, strings: nat) {
    && Be32(m, 0) == 0xD00D_FEED && Be32(m, 4) == |m|
    && Be32(m, 8) == 56 && Be32(m, 36) == size && Be32(m, 12) % 8 == 0 && 56 + size <= Be32(m, 12) < 56 + size + 8
    && Be32(m, 32) == strings && Be32(m, 12) + strings == |m|
    && Be32(m, 16) == 40 && Be32(m, 20) == 17 && Be32(m, 24) == 16 && Be32(m, 28) == 0
    && forall i: nat | 40 <= i < 56 :: ByteAt(m, i) == 0
  }

  lemma LayoutFields(structs: seq<int>, strings: seq<int>)
    requires Bytes(Layout(structs, strings)) && StringsOffset(|structs|) + |strings| < 0x1_0000_0000
    ensures IsBlob(Layout(structs, strings), |structs|, |strings|)
  {
    hide Layout, Stands, Bytes, Cell, Be32, Fields, AllCells;
    var m, cs := Layout(structs, strings), HeaderFields(|structs|, |strings|);
    HeaderStands(structs, strings);
    LayoutHeader(structs, strings);
    HeaderField(m, cs, 1, 4, StringsOffset(|structs|) + |strings|);
    HeaderField(m, cs, 4, 16, 40);
    HeaderField(m, cs, 5, 20, 17);
    HeaderField(m, cs, 6, 24, 16);
    HeaderField(m, cs, 7, 28, 0);
    HeaderField(m, cs, 9, 36, |structs|);
    LayoutReserve(structs, strings);
  }

  lemma HeaderStands(structs: seq<int>, strings: seq<int>)
    ensures Stands(Layout(structs, strings), 0, Fields(HeaderFields(|structs|, |strings|)))
  {
    hide Layout, Stands, HeaderFields;
    LayoutStands(HeaderBytes(|structs|, |strings|), structs, strings);
  }

  lemma LayoutReserve(structs: seq<int>, strings: seq<int>)
    ensures |Layout(structs, strings)| == StringsOffset(|structs|) + |strings|
    ensures forall i: nat | 40 <= i < 56 :: ByteAt(Layout(structs, strings), i) == 0
  {
    hide HeaderBytes;
    var hdr, gap := HeaderBytes(|structs|, |strings|), Zeros(StringsOffset(|structs|) - STRUCT_OFFSET - |structs|);
    var m := Layout(structs, strings);
    assert m == hdr + (Zeros(16) + (structs + gap + strings));
    forall i: nat | 40 <= i < 56 ensures ByteAt(m, i) == 0 { assert m[i] == Zeros(16)[i - 40]; }
  }

  // ----- everything written is a byte

  lemma {:induction false} ConcatBytes(cs: seq<seq<int>>)
    requires forall c | c in cs :: Bytes(c)
    ensures Bytes(Concat(cs))
  {
    if cs != [] {
      assert cs[|cs| - 1] in cs;
      ConcatBytes(cs[..|cs| - 1]);
    }
  }

  lemma BytesJoin(a: seq<int>, b: seq<int>)
    requires Bytes(a) && Bytes(b)
    ensures Bytes(a + b)
  {}

  lemma PaddedBytes(s: seq<int>)
    requires Bytes(s)
    ensures Bytes(Padded(s))
  {}

  lemma CellBytes(v: int)
    ensures Bytes(Cell(v))
  {}

  lemma TokenBytes(t: Token, names: seq<seq<int>>)
    requires TokenOk(t, names)
    ensures Bytes(EncodeToken(t, names))
  {
    match t
    case Begin(name) =>
      CellBytes(FDT_BEGIN_NODE);
      PaddedBytes(name + [0]);
      BytesJoin(Cell(FDT_BEGIN_NODE), Padded(name + [0]));
    case Prop(name, value) =>
      var off := OffsetOf(names, name);
      CellBytes(FDT_PROP);
      CellBytes(|value|);
      CellBytes(off);
      PaddedBytes(value);
      BytesJoin(Cell(FDT_PROP), Cell(|value|));
      BytesJoin(Cell(FDT_PROP) + Cell(|value|), Cell(off));
      BytesJoin(Cell(FDT_PROP) + Cell(|value|) + Cell(off), Padded(value));
    case End => CellBytes(FDT_END_NODE);
  }

  lemma EncodeBytes(ts: seq<Token>, names: seq<seq<int>>)
    requires WellFormed(ts, names)
    ensures Bytes(Encode(ts, names))
  {
    forall c | c in Chunks(ts, names) ensures Bytes(c) {
      var i :| 0 <= i < |ts| && EncodeToken(ts[i], names) == c;
      assert TokenOk(ts[i], names);
      TokenBytes(ts[i], names);
    }
    ConcatBytes(Chunks(ts, names));
  }

  lemma {:induction false} FlatBytes(names: seq<seq<int>>)
    requires forall n | n in names :: IsName(n)
    ensures Bytes(Flat(names))
  {
    if names != [] {
      assert names[|names| - 1] in names;
      FlatBytes(names[..|names| - 1]);
    }
  }

  /** The blob of a token stream. */
  function Blob(ts: seq<Token>, names: seq<seq<int>>): seq<int> {
    Layout(StructBlock(ts, names), Flat(names))
  }

  /** Every offset and size in the header fits its 32 bits. */
  predicate Fits(ts: seq<Token>, names: seq<seq<int>>) {
    StringsOffset(|StructBlock(ts, names)|) + |Flat(names)| < 0x1_0000_0000
  }

  lemma LayoutBytes(structs: seq<int>, strings: seq<int>)
    requires Bytes(structs) && Bytes(strings)
    ensures Bytes(Layout(structs, strings))
  {
    hide HeaderBytes;
    var hdr, gap := HeaderBytes(|structs|, |strings|), Zeros(StringsOffset(|structs|) - STRUCT_OFFSET - |structs|);
    BytesJoin(hdr, Zeros(16));
    BytesJoin(hdr + Zeros(16), structs);
    BytesJoin(hdr + Zeros(16) + structs, gap);
    BytesJoin(hdr + Zeros(16) + structs + gap, strings);
  }

  lemma BlobBytes(ts: seq<Token>, names: seq<seq<int>>)
    requires WellFormed(ts, names)
    ensures Bytes(Blob(ts, names))
  {
    EncodeBytes(ts, names);
    FlatBytes(names);
    CellBytes(FDT_END);
    hide Encode, Flat, Cell, WellFormed;
    BytesJoin(Encode(ts, names), Cell(FDT_END));
    LayoutBytes(StructBlock(ts, names), Flat(names));
  }

  lemma BlobDescribes(ts: seq<Token>, names: seq<seq<int>>)
    requires WellFormed(ts, names) && Fits(ts, names)
    ensures var m := Blob(ts, names); Bytes(m) && var h := ReadHeader(m);
      && Be32(m, 0) == FDT_MAGIC && Describes(m, h, names) && Stands(m, h.structs, StructBlock(ts, names))
      && h.structs == STRUCT_OFFSET && h.end == h.structs + |Encode(ts, names)| + 4
  {
    var structs, strings := StructBlock(ts, names), Flat(names);
    BlobBytes(ts, names);
    LayoutStands(HeaderBytes(|structs|, |strings|), structs, strings);
    LayoutHeader(structs, strings);
  }

  /** The round trip: in the blob of any token stream, the first scanner finds the first non-empty boot
      arguments, and the second ends with the last timer frequency. */
  lemma RoundTrip(ts: seq<Token>, names: seq<seq<int>>, freq: int)
    requires WellFormed(ts, names) && Fits(ts, names)
    ensures var m := Blob(ts, names);
      Bytes(m) && Locates(m, BootargsIn(m), FirstValue(ts)) && TimebaseIn(m, freq) == LastFrequency(ts, freq)
  {
    BlobDescribes(ts, names);
    ReadBack(Blob(ts, names), ts, names, freq);
  }

  lemma ReadBack(m: seq<int>, ts: seq<Token>, names: seq<seq<int>>, freq: int)
    requires Bytes(m) && WellFormed(ts, names) && Be32(m, 0) == FDT_MAGIC && Describes(m, ReadHeader(m), names)
    requires var h := ReadHeader(m);
      Stands(m, h.structs, StructBlock(ts, names)) && h.structs % 4 == 0 && h.end == h.structs + |Encode(ts, names)| + 4
    ensures Locates(m, BootargsIn(m), FirstValue(ts)) && TimebaseIn(m, freq) == LastFrequency(ts, freq)
  {
    var h := ReadHeader(m);
    ScanEncoded(m, h.structs, h.end, ts, names);
    FindsFirst(m, h, ts, names, h.structs);
    FindsLast(m, h, freq, ts, names, h.structs);
  }

  // ----- the writer

  class DtbWriter {
    /** The structure block so far, and the strings block so far. */
    var out: seq<int>
    var strings: seq<int>
    ghost var tokens: seq<Token>
    ghost var names: seq<seq<int>>

    ghost predicate Valid()
      reads this
    {
      && out == Encode(tokens, names) && strings == Flat(names) && |strings| <= STRINGS_SIZE
      && WellFormed(tokens, names) && NeverTwice(names)
    }

    constructor ()
      ensures Valid() && tokens == [] && names == []
    {
      out, strings, tokens, names := [], [], [], [];
    }

    /** `emit_be32` and `emit_bytes`. */
    method EmitCell(v: int)
      modifies this`out
      ensures out == old(out) + Cell(v)
    {
      out := out + Cell(v);
    }

    method EmitBytes(data: seq<int>)
      requires |out| % 4 == 0
      modifies this`out
      ensures out == old(out) + Padded(data)
    {
      out := out + data;
      ghost var n := 0;
      while |out| % 4 != 0
        invariant out == old(out) + data + Zeros(n) && n <= Align4(|data|) - |data|
        decreases Align4(|data|) - |data| - n
      {
        out := out + [0];
        n := n + 1;
      }
    }

    /** The search of `string_offset`. */
    method FindName(name: seq<int>) returns (off: int)
      requires Valid() && IsName(name)
      ensures off == if name in names then OffsetOf(names, name) else |strings|
    {
      off := 0;
      ghost var k := 0;
      SearchStart(names, name);
      while off < |strings|
        invariant 0 <= off <= |strings| && Searching(names, name, k, off)
        decreases |strings| - off
      {
        SearchStep(names, name, k, off);
        if NameIs(strings, off, name) { return; }
        off := off + Strnlen(strings, off, |strings| - off) + 1;
        k := k + 1;
      }
    }

    /** `string_offset`: the offset at which the table holds the name, which is added if it is new and fits. */
    method StringOffset(name: seq<int>) returns (off: int)
      requires Valid() && IsName(name)
      modifies this`strings, this`names
      ensures Valid()
      ensures off == -1 <==> name !in old(names) && |old(strings)| + |name| + 1 > STRINGS_SIZE
      ensures off != -1 ==> name in names && off == OffsetOf(names, name)
      ensures names == if name in old(names) || off == -1 then old(names) else old(names) + [name]
    {
      off := FindName(name);
      if off < |strings| {
        if name in names { OffsetBelow(names, name); }
        return;
      }
      if name in names { OffsetBelow(names, name); }
      if |strings| + |name| + 1 > STRINGS_SIZE { return -1; }
      strings := strings + name + [0];
      Interned(tokens, names, name);
      names := names + [name];
    }

    /** `begin_node`, `end_node` and `prop_raw`; a property whose name does not fit the table is dropped. */
    method BeginNode(name: seq<int>)
      requires Valid() && IsName(name)
      modifies this`out, this`tokens
      ensures Valid() && tokens == old(tokens) + [Begin(name)]
    {
      EncodeAligned(tokens, names);
      EmitCell(FDT_BEGIN_NODE);
      EmitBytes(name + [0]);
      Emitted(tokens, Begin(name), names, old(out));
      tokens := tokens + [Begin(name)];
    }

    method EndNode()
      requires Valid()
      modifies this`out, this`tokens
      ensures Valid() && tokens == old(tokens) + [End]
    {
      EmitCell(FDT_END_NODE);
      Emitted(tokens, End, names, old(out));
      tokens := tokens + [End];
    }

    method EmitProp(off: int, data: seq<int>)
      requires |out| % 4 == 0
      modifies this`out
      ensures out == old(out) + (Cell(FDT_PROP) + Cell(|data|) + Cell(off) + Padded(data))
    {
      EmitCell(FDT_PROP);
      EmitCell(|data|);
      EmitCell(off);
      EmitBytes(data);
    }

    method PropRaw(name: seq<int>, data: seq<int>)
      requires Valid() && IsName(name) && Bytes(data) && |data| < 0x1_0000_0000
      modifies this
      ensures Valid()
      ensures tokens == if name in old(names) || |old(strings)| + |name| + 1 <= STRINGS_SIZE then old(tokens) + [Prop(name, data)] else old(tokens)
    {
      var off := StringOffset(name);
      if off < 0 { return; }
      EncodeAligned(tokens, names);
      ghost var out0 := out;
      EmitProp(off, data);
      Emitted(tokens, Prop(name, data), names, out0);
      tokens := tokens + [Prop(name, data)];
    }

    /** The end of `riscv_guest_dtb_init`: the finished blob. Both scanners read it back. */
    method Finish(freq: int) returns (blob: seq<int>)
      requires Valid() && StringsOffset(|out| + 4) + |strings| < 0x1_0000_0000
      modifies this`out
      ensures Bytes(blob) && Locates(blob, BootargsIn(blob), FirstValue(tokens)) && TimebaseIn(blob, freq) == LastFrequency(tokens, freq)
      ensures blob == Blob(tokens, names) && Fits(tokens, names)
    {
      assert Fits(tokens, names);
      EmitCell(FDT_END);
      blob := Layout(out, strings);
      RoundTrip(tokens, names, freq);
    }
  }

  /** What was appended is the token's encoding. */
  lemma Emitted(tokens: seq<Token>, t: Token, names: seq<seq<int>>, out0: seq<int>)
    requires WellFormed(tokens, names) && TokenOk(t, names) && out0 == Encode(tokens, names)
    ensures Encode(tokens + [t], names) == out0 + EncodeToken(t, names) && WellFormed(tokens + [t], names)
  {
    EncodeLast(tokens, t, names);
  }

  /** No name is stored twice. */
  ghost predicate NeverTwice(names: seq<seq<int>>) {
    forall i, j | 0 <= i < j < |names| :: names[i] != names[j]
  }

  lemma IndexIs(names: seq<seq<int>>, name: seq<int>, k: nat)
    requires k < |names| && names[k] == name && forall j | 0 <= j < k :: names[j] != name
    ensures IndexOf(names, name) == k
  {}

  /** The search stands at entry k and has not met the name before. */
  ghost predicate Searching(names: seq<seq<int>>, name: seq<int>, k: nat, off: int) {
    && k <= |names| && off == |Flat(names[..k])| && (k == |names| <==> off == |Flat(names)|)
    && forall j | 0 <= j < k :: names[j] != name
  }

  lemma SearchStart(names: seq<seq<int>>, name: seq<int>)
    ensures Searching(names, name, 0, 0)
  {
    if names != [] { FlatSplit(names, 0); }
  }

  lemma SearchStep(names: seq<seq<int>>, name: seq<int>, k: nat, off: int)
    requires (forall n | n in names :: IsName(n)) && IsName(name) && 0 <= off < |Flat(names)| && Searching(names, name, k, off)
    ensures NameIs(Flat(names), off, name) ==> name in names && off == OffsetOf(names, name)
    ensures var next := off + Strnlen(Flat(names), off, |Flat(names)| - off) + 1;
      next <= |Flat(names)| && (!NameIs(Flat(names), off, name) ==> Searching(names, name, k + 1, next))
  {
    var m := Flat(names);
    FlatSplit(names, k);
    NameStands(m, off, names[k]);
    assert names[k] in names;
    NameLength(m, off, names[k], |m| - off);
    if NameIs(m, off, name) {
      NameUnique(m, off, name, names[k]);
      IndexIs(names, name, k);
    }
    if k + 1 < |names| { FlatSplit(names, k + 1); } else { assert names[..k + 1] == names; }
  }

  /** A new name goes to the end of the table and changes nothing that was emitted. */
  lemma Interned(tokens: seq<Token>, names: seq<seq<int>>, name: seq<int>)
    requires WellFormed(tokens, names) && IsName(name) && name !in names
    ensures Encode(tokens, names + [name]) == Encode(tokens, names) && WellFormed(tokens, names + [name])
    ensures Flat(names + [name]) == Flat(names) + name + [0] && OffsetOf(names + [name], name) == |Flat(names)|
  {
    EncodeKept(tokens, names, name);
    forall i | 0 <= i < |tokens| ensures TokenOk(tokens[i], names + [name]) { assert TokenOk(tokens[i], names); }
    assert (names + [name])[..|names|] == names;
    IndexIs(names + [name], name, |names|);
  }
}
