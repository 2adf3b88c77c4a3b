/**
 The sequential writer: a blob is built front to back while its strings grow from the back of the
 buffer downwards, named by negative offsets until the finish moves and renumbers them.
 */
module FdtWriter {
  import opened Basics
  import opened FdtFormat
  import opened FdtBlob

  const NO_NAME_DEDUP: nat := 1

  /** Where the writer puts the reservation block: behind the header, aligned to an entry's size. */
  const RSV_START: nat := 48

  // ---- name offsets

  /** A token with its name offset moved up by n, in 32-bit arithmetic. */
  function Moved(t: Token, n: nat): Token {
    if t.Property? then Property((t.nameOff + n) % LIMIT32, t.value) else t
  }

  ghost function Relocated(ts: seq<Token>, n: nat): (r: seq<Token>)
    ensures |r| == |ts| && forall i | 0 <= i < |r| :: r[i] == Moved(ts[i], n)
  {
    if ts == [] then [] else [Moved(ts[0], n)] + Relocated(ts[1..], n)
  }

  lemma RelocatedSnoc(ts: seq<Token>, t: Token, n: nat)
    ensures Relocated(ts + [t], n) == Relocated(ts, n) + [Moved(t, n)]
  {
  }

  /** What a table of strings below the end of the buffer makes of the tokens written so far. */
  ghost function Said(ts: seq<Token>, table: Bytes): Option<seq<Event>> {
    Meaning(Relocated(ts, |table|), table)
  }

  /** Growing the table downwards changes no name. */
  lemma {:induction false} SaidGrown(ts: seq<Token>, more: Bytes, table: Bytes)
    requires Said(ts, table).Some? && |more + table| < LIMIT32
    ensures Said(ts, more + table) == Said(ts, table)
    decreases |ts|
  {
    hide StringAt;
    var a, b := Relocated(ts, |table|), Relocated(ts, |more + table|);
    if ts != [] {
      assert a[1..] == Relocated(ts[1..], |table|);
      assert b[1..] == Relocated(ts[1..], |more + table|);
      SaidGrown(ts[1..], more, table);
      if ts[0].Property? {
        StringIn(table, a[0].nameOff);
        MovedFurther(ts[0].nameOff, |table|, |more|);
        StringBehind(more, table, a[0].nameOff);
      }
    }
  }

  lemma StringIn(strings: Bytes, o: nat)
    requires StringAt(strings, o).Some?
    ensures o < |strings|
  {
  }

  lemma MovedFurther(o: nat, n: nat, k: nat)
    requires (o + n) % LIMIT32 < n && n + k < LIMIT32
    ensures (o + n + k) % LIMIT32 == (o + n) % LIMIT32 + k
  {
  }

  lemma SaidSnoc(ts: seq<Token>, t: Token, table: Bytes)
    requires Said(ts, table).Some? && MeaningOf(Moved(t, |table|), table).Some?
    ensures Said(ts + [t], table) == Some(Said(ts, table).value + MeaningOf(Moved(t, |table|), table).value)
  {
    hide Meaning;
    RelocatedSnoc(ts, t, |table|);
    MeaningAppend(Relocated(ts, |table|), [Moved(t, |table|)], table);
    MeaningOne(Moved(t, |table|), table);
  }

  lemma ScanSnoc(s: Bytes, chunk: Bytes)
    requires Scan(s).Some? && First(chunk).Lex? && !First(chunk).token.End? && |chunk| == Align4(First(chunk).size)
    ensures Scan(s + chunk) == Some(Scan(s).value + [First(chunk).token])
  {
    hide First, Scan;
    ScanOne(chunk);
    ScanAppend(s, chunk);
  }

  // ---- the state of the writer

  ghost function Table(fdt: Blob): (t: Bytes)
    requires fdt.sizeStrings <= fdt.totalSize <= fdt.buf.Length
    reads fdt, fdt.buf
    ensures |t| == fdt.sizeStrings
  {
    fdt.buf[fdt.totalSize - fdt.sizeStrings..fdt.totalSize]
  }

  /** The blocks do not meet. */
  ghost predicate Roomy(fdt: Blob)
    reads fdt
  {
    && fdt.magic == SW_MAGIC && fdt.version == 17 && fdt.offStrings == fdt.totalSize
    && fdt.offMemRsv == RSV_START <= fdt.offStruct
    && fdt.offStruct + fdt.sizeStruct + fdt.sizeStrings <= fdt.totalSize <= fdt.buf.Length
    && fdt.totalSize < INT_MAX
  }

  /** Nodes and properties are being written. */
  ghost predicate Writing(fdt: Blob)
    reads fdt, fdt.buf
  {
    && Roomy(fdt)
    && Scan(fdt.Struct()).Some? && NoNops(Scan(fdt.Struct()).value)
    && Said(Scan(fdt.Struct()).value, Table(fdt)).Some?
  }

  ghost predicate NoNops(ts: seq<Token>) {
    forall i | 0 <= i < |ts| :: !ts[i].Nop?
  }

  /** What has been written so far. */
  ghost function Pending(fdt: Blob): seq<Event>
    requires Writing(fdt)
    reads fdt, fdt.buf
  {
    Said(Scan(fdt.Struct()).value, Table(fdt)).value
  }

  /** The same buffer size, and the same bytes before the structure block. */
  ghost predicate Front(fdt: Blob, total: nat, front: Bytes)
    reads fdt, fdt.buf
  {
    fdt.totalSize == total && fdt.offStruct <= fdt.buf.Length && fdt.buf[..fdt.offStruct] == front
  }

  /** The structure block is that large, and the flags are those. */
  ghost predicate Grew(fdt: Blob, size: nat, flags: nat)
    reads fdt
  {
    fdt.sizeStruct == size && fdt.lastComp == flags
  }

  function ProbeStruct(fdt: Blob): (r: int)
    reads fdt
    ensures r == 0 <==> fdt.magic == SW_MAGIC && fdt.offStrings == fdt.totalSize
    ensures r == -ERR_BADMAGIC <==> fdt.magic != MAGIC && fdt.magic != SW_MAGIC
    ensures r == 0 || r == -ERR_BADMAGIC || r == -ERR_BADSTATE
  {
    if fdt.magic == MAGIC then -ERR_BADSTATE
    else if fdt.magic != SW_MAGIC then -ERR_BADMAGIC
    else if fdt.offStrings != fdt.totalSize then -ERR_BADSTATE
    else 0
  }

  /** The bytes of the buffer that are taken. */
  function Used(fdt: Blob): nat
    reads fdt
  {
    fdt.offStruct + fdt.sizeStruct + fdt.sizeStrings
  }

  // ---- appending to the structure block

  /** Takes len more bytes for the structure block; a negative result says there are none. */
  method GrabSpace(fdt: Blob, len: nat) returns (at: int)
    requires Roomy(fdt)
    modifies fdt`sizeStruct
    ensures at >= 0 <==> old(fdt.sizeStruct) + len <= fdt.totalSize - fdt.offStruct - fdt.sizeStrings
    ensures at < 0 ==> fdt.sizeStruct == old(fdt.sizeStruct)
    ensures at >= 0 ==>
      Roomy(fdt) && at == fdt.offStruct + old(fdt.sizeStruct) && fdt.sizeStruct == old(fdt.sizeStruct) + len
  {
    var offset := fdt.sizeStruct;
    if offset + len > fdt.totalSize - fdt.offStruct - fdt.sizeStrings {
      return -1;
    }
    fdt.sizeStruct := offset + len;
    return fdt.offStruct + offset;
  }

  /** One more token. */
  lemma Appended(s: Bytes, table: Bytes, chunk: Bytes, n: nat, t: Token)
    requires Scan(s).Some? && Said(Scan(s).value, table).Some?
    requires First(chunk) == Lex(t, n) && |chunk| == Align4(n) && !t.End? && MeaningOf(Moved(t, |table|), table).Some?
    requires NoNops(Scan(s).value) && !t.Nop?
    ensures Scan(s + chunk) == Some(Scan(s).value + [t]) && NoNops(Scan(s + chunk).value)
    ensures Said(Scan(s + chunk).value, table) ==
      Some(Said(Scan(s).value, table).value + MeaningOf(Moved(t, |table|), table).value)
  {
    hide First, Scan, Said, Moved, MeaningOf;
    ScanSnoc(s, chunk);
    SaidSnoc(Scan(s).value, t, table);
  }

  /** Bytes written behind the structure block, within the space grabbed for them. */
  lemma Grown(b: Bytes, d: Bytes, lo: nat, at: nat, hi: nat, top: nat)
    requires lo <= at && at + |d| <= hi <= top <= |b|
    ensures Over(b, at, d)[lo..hi] == b[lo..at] + (d + b[at + |d|..hi])
    ensures Over(b, at, d)[top..] == b[top..] && Over(b, at, d)[..lo] == b[..lo]
  {
    OverInside(b, at, d, lo, hi);
    assert b[lo..at] + d + b[at + |d|..hi] == b[lo..at] + (d + b[at + |d|..hi]);
    OverOutside(b, at, d, top, |b|);
    OverOutside(b, at, d, 0, lo);
  }

  lemma TableKept(fdt: Blob, b: Bytes)
    requires Roomy(fdt) && |b| == fdt.buf.Length
    requires fdt.buf[..][fdt.totalSize - fdt.sizeStrings..] == b[fdt.totalSize - fdt.sizeStrings..]
    ensures Table(fdt) == b[fdt.totalSize - fdt.sizeStrings..fdt.totalSize]
  {
    var top := fdt.totalSize - fdt.sizeStrings;
    assert forall i | 0 <= i < fdt.sizeStrings ::
      fdt.buf[top + i] == fdt.buf[..][top..][i] == b[top..][i] == b[top + i];
  }

  /** Writes d into len more bytes of the structure block, leaving what was in the rest of them. */
  method Put(fdt: Blob, d: Bytes, len: nat) returns (ok: bool, ghost pad: Bytes)
    requires Roomy(fdt) && |d| <= len
    modifies fdt`sizeStruct, fdt.buf
    ensures ok <==> old(fdt.sizeStruct) + len <= fdt.totalSize - fdt.offStruct - fdt.sizeStrings
    ensures !ok ==> unchanged(fdt) && unchanged(fdt.buf)
    ensures ok ==>
      Roomy(fdt) && Table(fdt) == old(Table(fdt)) && Front(fdt, old(fdt.totalSize), old(fdt.buf[..fdt.offStruct]))
    ensures ok ==> |pad| == len - |d| && fdt.Struct() == old(fdt.Struct()) + (d + pad)
  {
    hide Over;
    ghost var b := fdt.buf[..];
    pad := [];
    var at := GrabSpace(fdt, len);
    ok := at >= 0;
    if ok {
      fdt.Write(at, d);
      ghost var hi := fdt.offStruct + fdt.sizeStruct;
      pad := b[at + |d|..hi];
      Grown(b, d, fdt.offStruct, at, hi, fdt.totalSize - fdt.sizeStrings);
      TableKept(fdt, b);
    }
  }

  method BeginNode(fdt: Blob, name: Bytes) returns (r: int)
    requires ProbeStruct(fdt) == 0 ==> Writing(fdt)
    requires IsName(name)
    modifies fdt, fdt.buf
    ensures r != 0 ==> unchanged(fdt) && unchanged(fdt.buf)
    ensures old(ProbeStruct(fdt)) != 0 ==> r == old(ProbeStruct(fdt))
    ensures old(ProbeStruct(fdt)) == 0 ==>
              r == if old(Used(fdt)) + 4 + Align4(|name| + 1) <= fdt.totalSize then 0 else -ERR_NOSPACE
    ensures r == 0 ==> Writing(fdt) && Pending(fdt) == old(Pending(fdt)) + [Open(name)]
    ensures r == 0 ==>
      Grew(fdt, old(fdt.sizeStruct) + 4 + Align4(|name| + 1), old(fdt.lastComp)) && Table(fdt) == old(Table(fdt))
    ensures r == 0 ==> Front(fdt, old(fdt.totalSize), old(fdt.buf[..fdt.offStruct]))
  {
    hide Scan, Said, NoNops, First, Be32, Align4;
    r := ProbeStruct(fdt);
    if r != 0 {
      return;
    }
    ghost var s := fdt.Struct();
    var d := Be32(BEGIN_NODE) + name + [0];
    var ok, pad := Put(fdt, d, 4 + Align4(|name| + 1));
    if !ok {
      return -ERR_NOSPACE;
    }
    FirstBegin(name, pad);
    AlignShift(4, |name| + 1);
    Appended(s, Table(fdt), d + pad, 4 + |name| + 1, Begin(name));
  }

  method EndNode(fdt: Blob) returns (r: int)
    requires ProbeStruct(fdt) == 0 ==> Writing(fdt)
    modifies fdt, fdt.buf
    ensures r != 0 ==> unchanged(fdt) && unchanged(fdt.buf)
    ensures old(ProbeStruct(fdt)) != 0 ==> r == old(ProbeStruct(fdt))
    ensures old(ProbeStruct(fdt)) == 0 ==>
              r == if old(Used(fdt)) + 4 <= fdt.totalSize then 0 else -ERR_NOSPACE
    ensures r == 0 ==> Writing(fdt) && Pending(fdt) == old(Pending(fdt)) + [Close]
    ensures r == 0 ==> Grew(fdt, old(fdt.sizeStruct) + 4, old(fdt.lastComp)) && Table(fdt) == old(Table(fdt))
    ensures r == 0 ==> Front(fdt, old(fdt.totalSize), old(fdt.buf[..fdt.offStruct]))
  {
    hide Scan, Said, NoNops, First, TagWord, Align4;
    r := ProbeStruct(fdt);
    if r != 0 {
      return;
    }
    ghost var s := fdt.Struct();
    var d := TagWord(END_NODE);
    var ok, pad := Put(fdt, d, 4);
    if !ok {
      return -ERR_NOSPACE;
    }
    FirstPlain(Finish, pad);
    Appended(s, Table(fdt), d + pad, 4, Finish);
  }

  // ---- strings

  /** A name stands in the table, terminated, at p. */
  ghost predicate StandsAt(table: Bytes, name: Bytes, p: nat) {
    p + |name| < |table| && table[p..p + |name| + 1] == name + [0]
  }

  /** A name does not stand at any of the first places. */
  ghost predicate Absent(table: Bytes, name: Bytes, places: nat) {
    forall q: nat | q < places :: !StandsAt(table, name, q)
  }

  lemma StandsIsRead(table: Bytes, name: Bytes, p: nat)
    requires IsName(name) && StandsAt(table, name, p)
    ensures StringAt(table, p) == Some(name)
  {
    StringWritten(table[..p], name, table[p + |name| + 1..]);
    assert table == table[..p] + (name + [0]) + table[p + |name| + 1..];
    assert table[..p] + (name + [0]) == table[..p] + name + [0];
  }

  /** The first place of a part of the buffer where a name stands, terminated. */
  method FindString(buf: array<Byte>, start: nat, size: nat, name: Bytes) returns (p: int)
    requires start + size <= buf.Length
    ensures p >= 0 ==> StandsAt(buf[start..start + size], name, p)
    ensures Absent(buf[start..start + size], name, if p >= 0 then p else size)
  {
    var len := |name| + 1;
    ghost var table := buf[start..start + size];
    p := 0;
    while p + len <= size
      invariant 0 <= p && Absent(table, name, p)
    {
      Inner(buf[..], start, start + size, p, p + len);
      if buf[start + p..start + p + len] == name + [0] {
        return;
      }
      p := p + 1;
    }
    p := -1;
  }

  /**
   Adds a name below the others; the result is how far below the end it starts, or 0 if there is
   no room. The test for room is done in 32-bit arithmetic: for a name that is longer than all that
   is left of the buffer the difference wraps around, the test passes and the name goes below the
   buffer. The model stops there, with a negative result.
   */
  method AddString(fdt: Blob, name: Bytes) returns (offset: int)
    requires Roomy(fdt) && |name| < INT_MAX
    modifies fdt`sizeStrings, fdt.buf
    ensures offset < 0 <==> old(fdt.sizeStrings) + |name| + 1 > fdt.totalSize
    ensures offset > 0 <==> old(Used(fdt)) + |name| + 1 <= fdt.totalSize
    ensures offset <= 0 ==> unchanged(fdt) && unchanged(fdt.buf)
    ensures offset > 0 ==> Roomy(fdt) && offset == fdt.sizeStrings == old(fdt.sizeStrings) + |name| + 1
    ensures offset > 0 ==> Table(fdt) == name + [0] + old(Table(fdt)) && fdt.Struct() == old(fdt.Struct())
    ensures Front(fdt, old(fdt.totalSize), old(fdt.buf[..fdt.offStruct]))
  {
    hide Over, Blob.Struct, Table;
    var top := fdt.offStruct + fdt.sizeStruct;
    offset := RoomTest(fdt.totalSize, fdt.sizeStrings, |name| + 1, top);
    if offset <= 0 {
      return;
    }
    ghost var b := fdt.buf[..];
    WriterParts(fdt, b);
    var at := fdt.totalSize - offset;
    fdt.Write(at, name + [0]);
    fdt.sizeStrings := offset;
    StringPut(fdt, b, at, name + [0]);
  }

  /** The program's test for room. */
  method RoomTest(total: nat, size: nat, len: nat, top: nat) returns (offset: int)
    requires size + top <= total < INT_MAX && 0 < len <= INT_MAX
    ensures offset < 0 <==> size + len > total
    ensures offset > 0 <==> top + size + len <= total
    ensures offset > 0 ==> offset == size + len
  {
    offset := (size + len) % LIMIT32;
    if (total - offset) % LIMIT32 < top {
      return 0;
    }
    if offset > total {
      return -1;
    }
  }

  /** The blocks as parts of the buffer's bytes. */
  lemma WriterParts(fdt: Blob, b: Bytes)
    requires Roomy(fdt) && b == fdt.buf[..]
    ensures fdt.Struct() == b[fdt.offStruct..fdt.offStruct + fdt.sizeStruct]
    ensures Table(fdt) == b[fdt.totalSize - fdt.sizeStrings..fdt.totalSize]
    ensures fdt.buf[..fdt.offStruct] == b[..fdt.offStruct]
  {
  }

  lemma StringPut(fdt: Blob, b: Bytes, at: nat, d: Bytes)
    requires Roomy(fdt) && at + |d| <= fdt.totalSize <= |b| && fdt.buf[..] == Over(b, at, d) &&
      at == fdt.totalSize - fdt.sizeStrings
    ensures Table(fdt) == d + b[at + |d|..fdt.totalSize]
    ensures fdt.Struct() == b[fdt.offStruct..fdt.offStruct + fdt.sizeStruct] &&
      fdt.buf[..fdt.offStruct] == b[..fdt.offStruct]
  {
    hide Over, Blob.Struct, Table;
    WriterParts(fdt, fdt.buf[..]);
    OverInside(b, at, d, at, fdt.totalSize);
    assert b[at..at] + d == d;
    OverOutside(b, at, d, fdt.offStruct, fdt.offStruct + fdt.sizeStruct);
    OverOutside(b, at, d, 0, fdt.offStruct);
  }

  /** Takes the last added name off again. */
  method DelLastString(fdt: Blob, name: Bytes)
    requires Roomy(fdt) && |name| + 1 <= fdt.sizeStrings
    modifies fdt`sizeStrings
    ensures Roomy(fdt) && fdt.sizeStrings == old(fdt.sizeStrings) - (|name| + 1)
    ensures Table(fdt) == old(Table(fdt))[|name| + 1..] && fdt.Struct() == old(fdt.Struct())
  {
    fdt.sizeStrings := fdt.sizeStrings - (|name| + 1);
  }

  /** A name that stands in the table already is not added again. */
  method FindAddString(fdt: Blob, name: Bytes) returns (offset: int, added: bool)
    requires Roomy(fdt) && |name| < INT_MAX && IsName(name)
    modifies fdt`sizeStrings, fdt.buf
    ensures added <==> old(Absent(Table(fdt), name, fdt.sizeStrings))
    ensures !added ==> unchanged(fdt) && unchanged(fdt.buf) && 0 < offset <= fdt.sizeStrings
    ensures !added ==> StandsAt(Table(fdt), name, fdt.sizeStrings - offset)
    ensures offset < 0 <==> added && old(fdt.sizeStrings) + |name| + 1 > fdt.totalSize
    ensures offset > 0 <==> !added || old(Used(fdt)) + |name| + 1 <= fdt.totalSize
    ensures offset <= 0 ==> unchanged(fdt) && unchanged(fdt.buf)
    ensures offset > 0 && added ==> Roomy(fdt) && offset == fdt.sizeStrings == old(fdt.sizeStrings) + |name| + 1
    ensures offset > 0 && added ==> Table(fdt) == name + [0] + old(Table(fdt)) && fdt.Struct() == old(fdt.Struct())
    ensures Front(fdt, old(fdt.totalSize), old(fdt.buf[..fdt.offStruct]))
  {
    hide StandsAt, Over;
    var p := FindString(fdt.buf, fdt.totalSize - fdt.sizeStrings, fdt.sizeStrings, name);
    if p >= 0 {
      StandsWithin(Table(fdt), name, p);
      return fdt.sizeStrings - p, false;
    }
    offset := AddString(fdt, name);
    added := true;
  }

  lemma StandsWithin(table: Bytes, name: Bytes, p: nat)
    requires StandsAt(table, name, p)
    ensures p < |table|
  {
  }

  /** The table once a name is in it; the flags may ask for names not to be shared. */
  ghost function TableWith(table: Bytes, name: Bytes, flags: nat): (t: Bytes)
    ensures |table| <= |t| <= |table| + |name| + 1 && t[|t| - |table|..] == table
  {
    if flags % 2 == NO_NAME_DEDUP || Absent(table, name, |table|) then name + [0] + table else table
  }

  /** The size of the table once a name is in it. */
  ghost function SizeWith(fdt: Blob, name: Bytes): nat
    requires Roomy(fdt)
    reads fdt, fdt.buf
  {
    |TableWith(Table(fdt), name, fdt.lastComp)|
  }

  /** Makes a name readable; what was written keeps its meaning. */
  method AddName(fdt: Blob, name: Bytes) returns (offset: int, added: bool)
    requires Writing(fdt) && |name| < INT_MAX && IsName(name)
    modifies fdt`sizeStrings, fdt.buf
    ensures Writing(fdt) && fdt.Struct() == old(fdt.Struct())
    ensures offset < 0 <==> old(SizeWith(fdt, name)) > fdt.totalSize
    ensures offset > 0 <==> old(fdt.offStruct + fdt.sizeStruct + SizeWith(fdt, name)) <= fdt.totalSize
    ensures offset > 0 ==> fdt.sizeStrings == old(fdt.sizeStrings) + if added then |name| + 1 else 0
    ensures offset > 0 ==> Table(fdt) == old(TableWith(Table(fdt), name, fdt.lastComp))
    ensures offset > 0 ==> (added <==> fdt.lastComp % 2 == 1 || old(Absent(Table(fdt), name, fdt.sizeStrings)))
    ensures offset <= 0 ==> unchanged(fdt) && unchanged(fdt.buf)
    ensures Front(fdt, old(fdt.totalSize), old(fdt.buf[..fdt.offStruct]))
    ensures offset > 0 ==> offset <= fdt.sizeStrings && StringAt(Table(fdt), fdt.sizeStrings - offset) == Some(name)
    ensures Pending(fdt) == old(Pending(fdt))
  {
    hide Scan, Said, NoNops, StandsAt, StringAt, IsName, Table, Blob.Struct, Writing, Pending;
    WritingFacts(fdt);
    ghost var s, table := fdt.Struct(), Table(fdt);
    if fdt.lastComp % 2 == NO_NAME_DEDUP {
      added := true;
      offset := AddString(fdt, name);
    } else {
      offset, added := FindAddString(fdt, name);
    }
    if offset > 0 {
      if added {
        NewString(name, table);
        StillWriting(fdt, s, name + [0], table);
      } else {
        StandsIsRead(table, name, fdt.sizeStrings - offset);
      }
    }
  }

  lemma WritingFacts(fdt: Blob)
    requires Writing(fdt)
    ensures Roomy(fdt) && Scan(fdt.Struct()).Some? && NoNops(Scan(fdt.Struct()).value)
    ensures Said(Scan(fdt.Struct()).value, Table(fdt)) == Some(Pending(fdt))
  {
  }

  /** A table that has grown downwards says the same. */
  lemma StillWriting(fdt: Blob, s: Bytes, more: Bytes, table: Bytes)
    requires Roomy(fdt) && fdt.Struct() == s && Table(fdt) == more + table
    requires Scan(s).Some? && NoNops(Scan(s).value) && Said(Scan(s).value, table).Some?
    ensures Writing(fdt) && Said(Scan(s).value, table) == Some(Pending(fdt))
  {
    hide Scan, Said, NoNops, Table;
    SaidGrown(Scan(s).value, more, table);
  }

  lemma NewString(name: Bytes, table: Bytes)
    requires IsName(name)
    ensures StringAt(name + [0] + table, 0) == Some(name)
  {
    StringWritten([], name, table);
    assert [] + name == name;
  }

  /** The bytes of a property before its padding. */
  function PropertyBytes(nameOff: nat, value: Bytes): (d: Bytes)
    requires nameOff < LIMIT32 && |value| < LIMIT32
    ensures |d| == 12 + |value|
  {
    Be32(PROP) + Be32(|value|) + Be32(nameOff) + value
  }

  lemma FirstPropertyBytes(nameOff: nat, value: Bytes, pad: Bytes)
    requires nameOff < LIMIT32 && |value| < LIMIT32
    ensures First(PropertyBytes(nameOff, value) + pad) == Lex(Property(nameOff, value), 12 + |value|)
  {
    FirstProperty(nameOff, value, pad);
  }

  /** Writes a property whose name starts offset bytes below the end. */
  method PlaceProperty(fdt: Blob, offset: nat, ghost name: Bytes, value: Bytes) returns (ok: bool)
    requires Writing(fdt) && 0 < offset <= fdt.sizeStrings &&
      StringAt(Table(fdt), fdt.sizeStrings - offset) == Some(name)
    requires |value| < INT_MAX
    modifies fdt`sizeStruct, fdt.buf
    ensures ok <==> old(Used(fdt)) + 12 + Align4(|value|) <= fdt.totalSize
    ensures !ok ==> unchanged(fdt) && unchanged(fdt.buf)
    ensures ok ==>
      Grew(fdt, old(fdt.sizeStruct) + 12 + Align4(|value|), old(fdt.lastComp)) && Table(fdt) == old(Table(fdt))
    ensures ok ==> Writing(fdt) && Pending(fdt) == old(Pending(fdt)) + [Entry(name, value)]
    ensures Front(fdt, old(fdt.totalSize), old(fdt.buf[..fdt.offStruct]))
  {
    hide Scan, Said, NoNops, First, StringAt, Align4, PropertyBytes;
    ghost var s, table := fdt.Struct(), Table(fdt);
    var nameOff := LIMIT32 - offset;
    var d := PropertyBytes(nameOff, value);
    ghost var pad;
    ok, pad := Put(fdt, d, 12 + Align4(|value|));
    if ok {
      FirstPropertyBytes(nameOff, value, pad);
      AlignShift(12, |value|);
      MovedBack(offset, |table|);
      Appended(s, table, d + pad, 12 + |value|, Property(nameOff, value));
    }
  }

  method PutProperty(fdt: Blob, name: Bytes, value: Bytes) returns (r: int)
    requires ProbeStruct(fdt) == 0 ==> Writing(fdt)
    requires IsName(name) && |name| < INT_MAX && |value| < INT_MAX
    modifies fdt, fdt.buf
    ensures old(ProbeStruct(fdt)) != 0 ==> r == old(ProbeStruct(fdt)) && unchanged(fdt) && unchanged(fdt.buf)
    ensures old(ProbeStruct(fdt)) == 0 ==> Writing(fdt)
    ensures old(ProbeStruct(fdt)) == 0 ==> (r == OVERRUN <==> old(SizeWith(fdt, name)) > fdt.totalSize)
    ensures old(ProbeStruct(fdt)) == 0 ==>
      (r == 0 <==> old(fdt.offStruct + fdt.sizeStruct + SizeWith(fdt, name)) + 12 + Align4(|value|) <= fdt.totalSize)
    ensures r == 0 ==> Grew(fdt, old(fdt.sizeStruct) + 12 + Align4(|value|), old(fdt.lastComp))
    ensures r == 0 ==> Table(fdt) == old(TableWith(Table(fdt), name, fdt.lastComp))
    ensures old(ProbeStruct(fdt)) == 0 ==>
      Pending(fdt) == old(Pending(fdt)) + if r == 0 then [Entry(name, value)] else []
    ensures old(ProbeStruct(fdt)) == 0 && r != 0 ==>
      unchanged(fdt) && fdt.Struct() == old(fdt.Struct()) && Table(fdt) == old(Table(fdt))
    ensures old(ProbeStruct(fdt)) == 0 ==> Front(fdt, old(fdt.totalSize), old(fdt.buf[..fdt.offStruct]))
  {
    hide Scan, Said, NoNops, First, StringAt, Align4, PropertyBytes, TableWith, IsName, Table, Blob.Struct;
    r := ProbeStruct(fdt);
    if r != 0 {
      return;
    }
    var offset, added := AddName(fdt, name);
    if offset < 0 {
      return OVERRUN;
    }
    if offset == 0 {
      return -ERR_NOSPACE;
    }
    var ok := PlaceProperty(fdt, offset, name, value);
    if !ok {
      if added {
        DelLastString(fdt, name);
      }
      return -ERR_NOSPACE;
    }
  }

  lemma MovedBack(offset: nat, n: nat)
    requires 0 < offset <= n < LIMIT32
    ensures (LIMIT32 - offset + n) % LIMIT32 == n - offset
  {
  }
}
