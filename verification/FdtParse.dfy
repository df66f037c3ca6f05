/** The token stream of a devicetree blob as the standard reads it (section 5.4 of the Devicetree
    Specification): what the writer emits is parsed back token by token, and on every stream that parses the
    two scanners find what its tokens say. */
module FdtParse {
  import opened FdtFormat
  import opened FdtScan
  import opened FdtWriter

  datatype Stream = Bad | Tokens(ts: seq<Token>)

  /** n bytes from p on. */
  function Text(m: seq<int>, p: nat, n: nat): (s: seq<int>)
    ensures |s| == n && forall i | 0 <= i < n :: s[i] == ByteAt(m, p + i)
  {
    seq(n, i requires 0 <= i < n => ByteAt(m, p + i))
  }

  function Cons(t: Token, rest: Stream): Stream {
    if rest.Bad? then Bad else Tokens([t] + rest.ts)
  }

  /** The tokens from p on: 1 begins a node and is followed by its name, 2 ends one, 3 is a property with its
      length, the offset of its name in the strings block and its value, 4 is skipped, 9 ends the stream. */
  function Parse(m: seq<int>, h: Header, p: nat): Stream
    requires Bytes(m)
    decreases h.end - p
  {
    if p + 4 > h.end then Bad
    else if Be32(m, p) == 1 then
      var k := Strnlen(m, p + 4, h.end - (p + 4));
      if p + 4 + k >= h.end then Bad else Cons(Begin(Text(m, p + 4, k)), Parse(m, h, Align4(p + 4 + k + 1)))
    else if Be32(m, p) == 2 then Cons(End, Parse(m, h, p + 4))
    else if Be32(m, p) == 3 then
      if p + 12 > h.end then Bad
      else
        var len, off := Be32(m, p + 4), Be32(m, p + 8);
        if p + 12 + len > h.end || off >= h.size then Bad
        else
          var k := Strnlen(m, h.strings + off, h.size - off);
          if off + k >= h.size then Bad
          else Cons(Prop(Text(m, h.strings + off, k), Text(m, p + 12, len)), Parse(m, h, Align4(p + 12 + len)))
    else if Be32(m, p) == 4 then Parse(m, h, p + 4)
    else if Be32(m, p) == 9 then Tokens([])
    else Bad
  }

  // ----- what was emitted is parsed

  lemma TextStands(m: seq<int>, p: nat, s: seq<int>)
    requires Stands(m, p, s)
    ensures Text(m, p, |s|) == s
  {
    forall i | 0 <= i < |s| ensures ByteAt(m, p + i) == s[i] { StandsAt(m, p, s, i); }
  }

  lemma ParseBegin(m: seq<int>, h: Header, p: nat, name: seq<int>, names: seq<seq<int>>)
    requires Bytes(m) && IsName(name) && p % 4 == 0 && Stands(m, p, EncodeToken(Begin(name), names))
    requires p + |EncodeToken(Begin(name), names)| <= h.end
    ensures Parse(m, h, p) == Cons(Begin(name), Parse(m, h, p + |EncodeToken(Begin(name), names)|))
  {
    hide Parse, EncodeToken, Stands, Strnlen, Be32, Align4, Bytes, IsName, Text;
    BeginStands(m, p, h.end, name, names);
    BeginLength(name, names, p);
    BeginName(m, p, name, names);
    ParseBeginAt(m, h, p, name);
  }

  lemma BeginName(m: seq<int>, p: nat, name: seq<int>, names: seq<seq<int>>)
    requires Stands(m, p, EncodeToken(Begin(name), names))
    ensures Text(m, p + 4, |name|) == name
  {
    hide Stands, Text;
    var pad := Zeros(Align4(|name| + 1) - (|name| + 1));
    StandsSplit(m, p, Cell(FDT_BEGIN_NODE), (name + [0]) + pad);
    StandsSplit(m, p + 4, name + [0], pad);
    StandsSplit(m, p + 4, name, [0]);
    TextStands(m, p + 4, name);
  }

  lemma ParseBeginAt(m: seq<int>, h: Header, p: nat, name: seq<int>)
    requires Bytes(m) && Be32(m, p) == 1 && p + 4 + |name| < h.end
    requires Strnlen(m, p + 4, h.end - (p + 4)) == |name| && Text(m, p + 4, |name|) == name
    ensures Parse(m, h, p) == Cons(Begin(name), Parse(m, h, Align4(p + 4 + |name| + 1)))
  {
    hide Strnlen, Be32, Align4, Text, Bytes;
  }

  lemma PropStands(m: seq<int>, p: nat, name: seq<int>, value: seq<int>, names: seq<seq<int>>)
    requires Bytes(m) && p % 4 == 0 && |value| < 0x1_0000_0000 && OffsetOf(names, name) < 0x1_0000_0000
    requires Stands(m, p, EncodeToken(Prop(name, value), names))
    ensures Be32(m, p) == 3 && Be32(m, p + 4) == |value| && Be32(m, p + 8) == OffsetOf(names, name) && Stands(m, p + 12, value)
    ensures Align4(p + 12 + |value|) == p + |EncodeToken(Prop(name, value), names)|
  {
    var off := OffsetOf(names, name);
    StandsSplit(m, p, Cell(FDT_PROP) + Cell(|value|) + Cell(off), Padded(value));
    StandsSplit(m, p, Cell(FDT_PROP) + Cell(|value|), Cell(off));
    StandsSplit(m, p, Cell(FDT_PROP), Cell(|value|));
    ReadCell(m, p, FDT_PROP);
    ReadCell(m, p + 4, |value|);
    ReadCell(m, p + 8, off);
    StandsSplit(m, p + 12, value, Zeros(Align4(|value|) - |value|));
    AlignShift(p + 12, |value|);
  }

  lemma NameInTable(m: seq<int>, h: Header, names: seq<seq<int>>, name: seq<int>)
    requires Describes(m, h, names) && name in names
    ensures var off := OffsetOf(names, name);
      && off + |name| < h.size && Strnlen(m, h.strings + off, h.size - off) == |name| && Text(m, h.strings + off, |name|) == name
  {
    var off := OffsetOf(names, name);
    OffsetBelow(names, name);
    StandsIn(m, h.strings, Flat(names), off, name + [0]);
    NameStands(m, h.strings + off, name);
    NameLength(m, h.strings + off, name, h.size - off);
    StandsSplit(m, h.strings + off, name, [0]);
    TextStands(m, h.strings + off, name);
  }

  lemma ParseProp(m: seq<int>, h: Header, p: nat, name: seq<int>, value: seq<int>, names: seq<seq<int>>)
    requires Describes(m, h, names) && name in names && p % 4 == 0 && |value| < 0x1_0000_0000
    requires Stands(m, p, EncodeToken(Prop(name, value), names)) && p + |EncodeToken(Prop(name, value), names)| <= h.end
    ensures Parse(m, h, p) == Cons(Prop(name, value), Parse(m, h, p + |EncodeToken(Prop(name, value), names)|))
  {
    hide Parse, EncodeToken, Stands, OffsetOf, Strnlen, Be32;
    NameInTable(m, h, names, name);
    PropStands(m, p, name, value, names);
    TextStands(m, p + 12, value);
    AlignAbove(p + 12 + |value|);
    ParsePropAt(m, h, p, name, value);
  }

  lemma ParsePropAt(m: seq<int>, h: Header, p: nat, name: seq<int>, value: seq<int>)
    requires Bytes(m) && Be32(m, p) == 3 && Be32(m, p + 4) == |value| && p + 12 + |value| <= h.end
    requires var off := Be32(m, p + 8);
      && off + |name| < h.size && Strnlen(m, h.strings + off, h.size - off) == |name| && Text(m, h.strings + off, |name|) == name
    requires Text(m, p + 12, |value|) == value
    ensures Parse(m, h, p) == Cons(Prop(name, value), Parse(m, h, Align4(p + 12 + |value|)))
  {
    hide Strnlen, Be32, Align4, Text, Bytes;
  }

  lemma AlignAbove(q: nat)
    ensures q <= Align4(q)
  {}

  lemma ParseEnd(m: seq<int>, h: Header, p: nat, names: seq<seq<int>>)
    requires Bytes(m) && Stands(m, p, EncodeToken(End, names)) && p + 4 <= h.end
    ensures Parse(m, h, p) == Cons(End, Parse(m, h, p + |EncodeToken(End, names)|))
  {
    ReadCell(m, p, FDT_END_NODE);
  }

  lemma DescribesBytes(m: seq<int>, h: Header, names: seq<seq<int>>)
    requires Describes(m, h, names)
    ensures Bytes(m)
  {}

  lemma ParseToken(m: seq<int>, h: Header, p: nat, t: Token, names: seq<seq<int>>)
    requires Describes(m, h, names) && TokenOk(t, names) && p % 4 == 0
    requires Stands(m, p, EncodeToken(t, names)) && p + |EncodeToken(t, names)| <= h.end
    ensures Parse(m, h, p) == Cons(t, Parse(m, h, p + |EncodeToken(t, names)|))
  {
    hide Parse, EncodeToken, Stands, Describes, Bytes, IsName;
    DescribesBytes(m, h, names);
    match t
    case Begin(name) => ParseBegin(m, h, p, name, names);
    case Prop(name, value) => ParseProp(m, h, p, name, value, names);
    case End =>
      EndLength(names);
      ParseEnd(m, h, p, names);
  }

  lemma EndLength(names: seq<seq<int>>)
    ensures |EncodeToken(End, names)| == 4
  {}

  lemma ParseStop(m: seq<int>, h: Header, names: seq<seq<int>>, p: nat)
    requires Bytes(m) && Stands(m, p, Encode([], names) + Cell(FDT_END)) && h.end == p + |Encode([], names)| + 4
    ensures Parse(m, h, p) == Tokens([])
  {
    assert Encode([], names) + Cell(FDT_END) == Cell(FDT_END);
    ReadCell(m, p, FDT_END);
  }

  /** An emitted stream is parsed back to exactly its tokens, nodes and properties alike. */
  lemma {:induction false} ParseEncoded(m: seq<int>, h: Header, p: nat, ts: seq<Token>, names: seq<seq<int>>)
    requires Describes(m, h, names) && WellFormed(ts, names) && p % 4 == 0
    requires Stands(m, p, Encode(ts, names) + Cell(FDT_END)) && h.end == p + |Encode(ts, names)| + 4
    ensures Bytes(m) && Parse(m, h, p) == Tokens(ts)
    decreases |ts|
  {
    hide Parse, Describes, WellFormed, Stands, Encode, EncodeToken, TokenOk, Cell, Bytes;
    DescribesBytes(m, h, names);
    if ts == [] {
      ParseStop(m, h, names, p);
    } else {
      var t, rest := ts[0], ts[1..];
      var q := p + |EncodeToken(t, names)|;
      assert ts == [t] + rest;
      WellFormedFront(t, rest, names);
      StandsFront(m, p, t, rest, names);
      SumAligned(p, q - p);
      ParseEncoded(m, h, q, rest, names);
      ParseToken(m, h, p, t, names);
    }
  }

  /** The blob of any token stream has the header the standard asks for, an empty reservation block, and parses
      back to exactly these tokens. */
  lemma BlobParses(ts: seq<Token>, names: seq<seq<int>>)
    requires WellFormed(ts, names) && Fits(ts, names)
    ensures var m := Blob(ts, names); Bytes(m) && Parse(m, ReadHeader(m), Be32(m, 8)) == Tokens(ts)
    ensures IsBlob(Blob(ts, names), |StructBlock(ts, names)|, |Flat(names)|)
  {
    BlobDescribes(ts, names);
    LayoutFields(StructBlock(ts, names), Flat(names));
    ParseEncoded(Blob(ts, names), ReadHeader(Blob(ts, names)), STRUCT_OFFSET, ts, names);
  }

  /** The method that ends a blob, parsed. */
  method FinishAndParse(w: DtbWriter, freq: int) returns (blob: seq<int>)
    requires w.Valid() && StringsOffset(|w.out| + 4) + |w.strings| < 0x1_0000_0000
    modifies w`out
    ensures Bytes(blob) && Parse(blob, ReadHeader(blob), Be32(blob, 8)) == Tokens(w.tokens)
  {
    blob := w.Finish(freq);
    BlobParses(w.tokens, w.names);
  }

  // ----- what the scanners find

  /** Where the parser reads a name, a scanner compares it like a whole string. */
  lemma NamedAs(m: seq<int>, h: Header, item: Item, other: seq<int>)
    requires Bytes(m) && IsName(other) && item.nameoff < h.size
    requires item.nameoff + Strnlen(m, h.strings + item.nameoff, h.size - item.nameoff) < h.size
    ensures Named(m, h, item, other)
       <==> Text(m, h.strings + item.nameoff, Strnlen(m, h.strings + item.nameoff, h.size - item.nameoff)) == other
  {
    var q := h.strings + item.nameoff;
    var k := Strnlen(m, q, h.size - item.nameoff);
    var name := Text(m, q, k);
    forall i: nat | q <= i < q + k ensures ByteAt(m, i) == name[i - q] { assert name[i - q] == ByteAt(m, q + (i - q)); }
    assert NameIs(m, q, name);
    assert IsName(name) by { forall i | 0 <= i < k ensures 0 < name[i] < 256 { assert ByteAt(m, q + i) != 0; } }
    if NameIs(m, q, other) { NameUnique(m, q, name, other); }
  }

  /** The value the parser reads stands there. */
  lemma TextIsThere(m: seq<int>, p: nat, n: nat)
    requires p + n <= |m|
    ensures Stands(m, p, Text(m, p, n))
  {}

  /** On every stream that parses, well formed by any writer, the two scanners find the first non-empty boot
      arguments and the last timer frequency. */
  lemma {:induction false} ScannersAgree(m: seq<int>, h: Header, p: nat, freq: int, ts: seq<Token>)
    requires Bytes(m) && h.end <= |m| && Parse(m, h, p) == Tokens(ts)
    ensures Finds(m, h, Items(m, p, h.end), FirstValue(ts)) && Ends(m, h, freq, Items(m, p, h.end), LastFrequency(ts, freq))
    decreases h.end - p
  {
    hide Parse, Items, Next, Bytes, Finds, Ends, FirstValue, LastFrequency, Frequency, IsBootargs, Strnlen, Be32, Text;
    ParseCases(m, h, p, ts);
    if Be32(m, p) == 1 {
      var k := Strnlen(m, p + 4, h.end - (p + 4));
      SkipAgrees(m, h, p, Align4(p + 4 + k + 1), freq, Begin(Text(m, p + 4, k)), ts);
      ScannersAgree(m, h, Align4(p + 4 + k + 1), freq, ts[1..]);
    } else if Be32(m, p) == 2 {
      SkipAgrees(m, h, p, p + 4, freq, End, ts);
      ScannersAgree(m, h, p + 4, freq, ts[1..]);
    } else if Be32(m, p) == 3 {
      var len, off := Be32(m, p + 4), Be32(m, p + 8);
      var q, item := Align4(p + 12 + len), Item(off, p + 12, len);
      var t := ts[0];
      ScannersAgree(m, h, q, Frequency(t, freq), ts[1..]);
      PropAgrees(m, h, freq, t, item, Items(m, q, h.end), ts[1..]);
      FoundAgrees(m, h, p, q, item, freq, t, ts);
    } else {
      NopAgrees(m, h, p, freq, ts);
      if Be32(m, p) == 4 { ScannersAgree(m, h, p + 4, freq, ts); }
    }
  }

  /** What it takes for the stream to parse. */
  lemma ParseCases(m: seq<int>, h: Header, p: nat, ts: seq<Token>)
    requires Bytes(m) && Parse(m, h, p) == Tokens(ts)
    ensures p + 4 <= h.end && Be32(m, p) in {1, 2, 3, 4, 9}
    ensures Be32(m, p) == 1 ==>
      var k := Strnlen(m, p + 4, h.end - (p + 4));
      ts != [] && ts[0] == Begin(Text(m, p + 4, k)) && Parse(m, h, Align4(p + 4 + k + 1)) == Tokens(ts[1..]) && Align4(p + 4 + k + 1) > p
    ensures Be32(m, p) == 2 ==> ts != [] && ts[0] == End && Parse(m, h, p + 4) == Tokens(ts[1..])
    ensures Be32(m, p) == 3 ==>
      var len, off := Be32(m, p + 4), Be32(m, p + 8);
      && p + 12 + len <= h.end && len >= 0 && 0 <= off < h.size && off + Strnlen(m, h.strings + off, h.size - off) < h.size && ts != []
      && ts[0] == Prop(Text(m, h.strings + off, Strnlen(m, h.strings + off, h.size - off)), Text(m, p + 12, len))
      && Parse(m, h, Align4(p + 12 + len)) == Tokens(ts[1..]) && Align4(p + 12 + len) > p
    ensures Be32(m, p) == 4 ==> Parse(m, h, p + 4) == Tokens(ts)
    ensures Be32(m, p) == 9 ==> ts == []
  {
    hide Strnlen, Text;
  }

  lemma SkipAgrees(m: seq<int>, h: Header, p: nat, q: nat, freq: int, t: Token, ts: seq<Token>)
    requires Bytes(m) && p + 4 <= h.end && p < q && ts != [] && ts[0] == t && !t.Prop?
    requires (Be32(m, p) == 1 && q == Align4(p + 4 + Strnlen(m, p + 4, h.end - (p + 4)) + 1)) || (Be32(m, p) == 2 && q == p + 4)
    ensures Items(m, p, h.end) == Items(m, q, h.end)
    ensures FirstValue(ts) == FirstValue(ts[1..]) && LastFrequency(ts, freq) == LastFrequency(ts[1..], freq)
  {
    hide Strnlen, Be32, Bytes;
  }

  lemma FoundAgrees(m: seq<int>, h: Header, p: nat, q: nat, item: Item, freq: int, t: Token, ts: seq<Token>)
    requires Bytes(m) && p + 12 <= h.end && p < q && ts != [] && ts[0] == t && Be32(m, p) == 3
    requires item.at == p + 12 && item.len == Be32(m, p + 4) && item.nameoff == Be32(m, p + 8) && q == Align4(p + 12 + item.len)
    ensures Items(m, p, h.end) == [item] + Items(m, q, h.end)
    ensures FirstValue(ts) == if IsBootargs(t) then Some(t.value) else FirstValue(ts[1..])
    ensures LastFrequency(ts, freq) == LastFrequency(ts[1..], Frequency(t, freq))
  {
    hide Be32, Bytes;
  }

  lemma NopAgrees(m: seq<int>, h: Header, p: nat, freq: int, ts: seq<Token>)
    requires Bytes(m) && p + 4 <= h.end && Be32(m, p) in {4, 9}
    ensures Be32(m, p) == 4 ==> Items(m, p, h.end) == Items(m, p + 4, h.end)
    ensures Be32(m, p) == 9 && ts == [] ==>
      Finds(m, h, Items(m, p, h.end), FirstValue(ts)) && Ends(m, h, freq, Items(m, p, h.end), LastFrequency(ts, freq))
  {
    hide Be32, Bytes;
  }

  lemma PropAgrees(m: seq<int>, h: Header, freq: int, t: Token, item: Item, more: seq<Item>, rest: seq<Token>)
    requires Bytes(m) && item.at + item.len <= |m| && item.nameoff < h.size
    requires item.nameoff + Strnlen(m, h.strings + item.nameoff, h.size - item.nameoff) < h.size
    requires t == Prop(Text(m, h.strings + item.nameoff, Strnlen(m, h.strings + item.nameoff, h.size - item.nameoff)),
                       Text(m, item.at, item.len))
    requires Finds(m, h, more, FirstValue(rest)) && Ends(m, h, Frequency(t, freq), more, LastFrequency(rest, Frequency(t, freq)))
    ensures Finds(m, h, [item] + more, if IsBootargs(t) then Some(t.value) else FirstValue(rest))
    ensures Ends(m, h, freq, [item] + more, LastFrequency(rest, Frequency(t, freq)))
  {
    NamedAs(m, h, item, BOOTARGS);
    NamedAs(m, h, item, TIMEBASE);
    TextIsThere(m, item.at, item.len);
    FirstOne(m, h, item);
    FindsCons(m, h, [item], if IsBootargs(t) then Some(t.value) else None, more, FirstValue(rest), [item] + more);
    if item.len >= 4 { Be32Stands(m, item.at, t.value); }
    assert LastTimebase(m, h, freq, [item]) == Updated(m, h, freq, item) by { assert [item][1..] == []; }
    EndsCons(m, h, freq, [item], Frequency(t, freq), more, LastFrequency(rest, Frequency(t, freq)), [item] + more);
  }
}
