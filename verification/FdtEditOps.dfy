/**
 The editing operations on a blob.
 */
module FdtEditOps {
  import opened Basics
  import opened FdtFormat
  import opened FdtBlob
  import opened FdtNodes
  import opened FdtCheck
  import opened FdtSplice
  import opened FdtProps
  import opened FdtEdit
  import opened FdtKeep

  /** The blob can be read from end to end. */
  ghost predicate Readable(fdt: Blob)
    reads fdt, fdt.buf
  {
    Laid(fdt) && Events(fdt.Struct(), fdt.Strings()).Some?
  }

  /** What a reader sees. */
  ghost function Seen(fdt: Blob): seq<Event>
    requires Readable(fdt)
    reads fdt, fdt.buf
  {
    Events(fdt.Struct(), fdt.Strings()).value
  }

  /** An offset that is a node's, if it looks like one: not one inside a property's value. */
  ghost predicate Genuine(fdt: Blob, node: int)
    requires fdt.StructIn()
    reads fdt, fdt.buf
  {
    CheckedNode(fdt.Struct(), node) >= 0 ==> Boundary(fdt.Struct(), node)
  }

  /** Everything as it was. */
  twostate predicate Untouched(fdt: Blob)
    reads fdt, fdt.buf
  {
    unchanged(fdt) && unchanged(fdt.buf)
  }

  /** The blocks in front of the structure block as they were. */
  twostate predicate SameFront(fdt: Blob)
    requires fdt.offStruct <= fdt.buf.Length && old(fdt.offStruct <= fdt.buf.Length)
    reads fdt, fdt.buf
  {
    fdt.offMemRsv == old(fdt.offMemRsv) && fdt.totalSize == old(fdt.totalSize)
    && fdt.buf[..fdt.offStruct] == old(fdt.buf[..fdt.offStruct])
  }

  /** The reservations read as they did, if their block ends before the structure block. */
  twostate predicate SameReserved(fdt: Blob)
    requires fdt.totalSize <= fdt.buf.Length && old(fdt.offStruct <= fdt.totalSize <= fdt.buf.Length)
    reads fdt, fdt.buf
  {
    old(Reserved(fdt.buf[..fdt.offStruct], fdt.offMemRsv)).Some? ==>
      Reserved(fdt.buf[..fdt.totalSize], fdt.offMemRsv) == old(Reserved(fdt.buf[..fdt.totalSize], fdt.offMemRsv))
  }

  twostate lemma FrontReserved(fdt: Blob)
    requires fdt.offStruct <= fdt.totalSize <= fdt.buf.Length && old(fdt.offStruct <= fdt.totalSize <= fdt.buf.Length)
    requires SameFront(fdt)
    ensures SameReserved(fdt)
  {
    hide Reserved;
    var b, c, end := fdt.buf[..fdt.totalSize], old(fdt.buf[..fdt.totalSize]), fdt.offStruct;
    assert |fdt.buf[..end]| == |old(fdt.buf[..fdt.offStruct])|;
    assert b[..end] == fdt.buf[..end] && c[..end] == old(fdt.buf[..fdt.offStruct]);
    if Reserved(b[..end], fdt.offMemRsv).Some? {
      ReservedInside(b[..end], fdt.offMemRsv);
      ReservedLocal(b, c, fdt.offMemRsv, end);
    }
  }

  twostate lemma ReservedAsWell(fdt: Blob)
    requires old(Laid(fdt)) && Laid(fdt) && SameFront(fdt)
    ensures SameReserved(fdt)
  {
    hide Reserved;
    FrontReserved(fdt);
  }

  lemma ReservedInside(b: Bytes, off: nat)
    requires Reserved(b, off).Some?
    ensures off <= |b|
  {
  }

  /** Both blocks as they were in the first b bytes, with strings perhaps added at the end. */
  ghost predicate Extends(s: Bytes, strings: Bytes, b: int, t: Bytes, more: Bytes) {
    b >= 0 ==> b <= |s| && b <= |t| && t[..b] == s[..b] && |strings| <= |more| && more[..|strings|] == strings
  }

  // ---- properties

  /** Where a property of a node is, in the bytes and in the events. */
  lemma PropertyPlace(s: Bytes, strings: Bytes, node: int, name: Bytes)
    requires Events(s, strings).Some? && CheckedNode(s, node) >= 0 && Boundary(s, node)
    ensures var n := Place(s, strings, node); var ev := Events(s, strings).value;
            var p := Found(s, strings, node, name);
            && n < |ev| && ev[n].Open?
            && (p < 0 <==> FindEntry(ev, n + 1, name).None?)
            && (p >= 0 ==>
                  Boundary(s, p) && NamedAt(s, strings, p, name) && TagAt(s, p).0 == PROP && TagAt(s, p).1 <= |s|)
            && (p >= 0 ==> Scan(s[p..TagAt(s, p).1]).Some? && FindEntry(ev, n + 1, name) == Some(Place(s, strings, p)))
  {
    hide First, Scan, Meaning, Walk, Events, NamedAt, CheckedNode, TagAt, PropFrom;
    NodeFirst(s, strings, node);
    var n, ev, next := Place(s, strings, node), Events(s, strings).value, CheckedNode(s, node);
    PropEvents(s, strings, next, name);
    EventsAt(s, strings, next);
    var x := Meaning(Scan(s[..next]).value, strings).value;
    FindBehind(x, Events(s[next..], strings).value, 0, name);
    var p := Found(s, strings, node, name);
    if p >= 0 {
      BoundaryBetween(s, next, p);
      MeaningAppend(Scan(s[..next]).value, Scan(s[next..p]).value, strings);
      EventsFirst(s, strings, p);
    }
  }

  /** A node's first tag and event. */
  lemma NodeFirst(s: Bytes, strings: Bytes, node: int)
    requires Events(s, strings).Some? && CheckedNode(s, node) >= 0 && Boundary(s, node)
    ensures var n := Place(s, strings, node); var ev := Events(s, strings).value; var next := CheckedNode(s, node);
            && n < |ev| && ev[n].Open? && next % 4 == 0 && node % 4 == 0 && node < next
            && Boundary(s, next) && Events(s[next..], strings).Some? && Place(s, strings, next) == n + 1
            && Scan(s[node..next]).Some?
  {
    hide Scan, Meaning, Walk, Events;
    EventsAt(s, strings, node);
    EventsFirst(s, strings, node);
    var next := CheckedNode(s, node);
    var t := First(s[node..]).token;
    BoundaryBetween(s, node, next);
    EventsAt(s, strings, next);
    MeaningAppend(Scan(s[..node]).value, [t], strings);
    MeaningOne(t, strings);
  }

  /** Dropping a property from the bytes drops it from the events, with or without padding left behind. */
  lemma PropertyDropped(s: Bytes, strings: Bytes, node: int, name: Bytes, k: nat)
    requires Events(s, strings).Some? && (CheckedNode(s, node) >= 0 ==> Boundary(s, node))
    requires Found(s, strings, node, name) >= 0
    ensures Boundary(s, node)
    ensures var p := Found(s, strings, node, name);
            && 0 <= p <= TagAt(s, p).1 <= |s|
            && Events(s[..p] + Nops(k) + s[TagAt(s, p).1..], strings) ==
                 Some(CutEntry(Events(s, strings).value, Place(s, strings, node), name))
            && (Sound(s, strings) ==> Sound(s[..p] + Nops(k) + s[TagAt(s, p).1..], strings))
  {
    hide First, Scan, Meaning, Walk, Events, NamedAt, CheckedNode, PropFrom, Nops, Sound, Level0;
    CheckedFacts(s, node);
    PropertyPlace(s, strings, node, name);
    var p := Found(s, strings, node, name);
    var end := TagAt(s, p).1;
    TagStep(s, p);
    PieceDropped(s, strings, p, end, k);
    OneEvent(s, strings, p);
    var x, m := Meaning(Scan(s[..p]).value, strings).value, Meaning(Scan(s[p..end]).value, strings).value;
    var y := Events(s[end..], strings).value;
    assert (x + m + y)[..|x|] == x && (x + m + y)[|x| + 1..] == y;
    if Sound(s, strings) {
      NopsPlain(k);
      PlainOne(s, p);
      assert strings + [] == strings;
      SoundPlain(s, strings, p, end, Nops(k), []);
    }
  }

  lemma PlainOne(s: Bytes, p: nat)
    requires TagAt(s, p).0 == PROP && p <= |s| && First(s[p..]).Lex?
    ensures Level0([First(s[p..]).token])
  {
  }

  /** The bytes of a property are one event. */
  lemma OneEvent(s: Bytes, strings: Bytes, p: nat)
    requires Boundary(s, p) && Events(s, strings).Some? && TagAt(s, p).0 == PROP
    ensures var end := TagAt(s, p).1;
            && p <= end <= |s| && Scan(s[p..end]) == Some([First(s[p..]).token])
            && Meaning(Scan(s[p..end]).value, strings) == MeaningOf(First(s[p..]).token, strings)
            && Meaning(Scan(s[p..end]).value, strings).Some? && |Meaning(Scan(s[p..end]).value, strings).value| == 1
  {
    hide Scan, Meaning, Walk, Events, First;
    EventsAt(s, strings, p);
    ScanAligned(s[..p]);
    assert |s[..p]| == p;
    EventsFirst(s, strings, p);
    MeaningOne(First(s[p..]).token, strings);
    PropertyTag(s, p);
  }

  /** The length of the property at an offset. */
  method PropertyLength(fdt: Blob, p: nat) returns (len: nat)
    requires fdt.StructIn() && TagAt(fdt.Struct(), p).0 == PROP
    ensures p + 12 + len <= fdt.sizeStruct && First(fdt.Struct()[p..]).Lex? && First(fdt.Struct()[p..]).size == 12 + len
    ensures p % 4 == 0 ==> TagAt(fdt.Struct(), p).1 == p + 12 + Align4(len)
  {
    hide U32, First, Align4, Blob.Struct;
    PropertyTag(fdt.Struct(), p);
    PropertyFields(fdt.Struct(), p);
    fdt.WordAt(p + 4);
    len := fdt.Word(fdt.offStruct + p + 4);
    if p % 4 == 0 {
      AlignShift(p + 12, len);
    }
  }

  /** Takes bytes out of the structure block. */
  method CutStruct(fdt: Blob, off: nat, len: nat) returns (err: int)
    requires Laid(fdt) && off + len <= fdt.sizeStruct
    modifies fdt`sizeStruct, fdt`offStrings, fdt.buf
    ensures err == 0 && Laid(fdt) && SameFront(fdt) && fdt.Strings() == old(fdt.Strings())
    ensures fdt.Struct() == old(fdt.Struct()[..off]) + Nops(0) + old(fdt.Struct()[off + len..])
  {
    hide Replaced, Nops;
    ghost var s := fdt.Struct();
    err := SpliceStruct(fdt, off, len, 0);
    ReplacedByNothing(s, off, len, fdt.Struct());
  }

  method DelProp(fdt: Blob, node: int, name: Bytes) returns (r: int)
    requires fdt.version == 17 && fdt.totalSize < INT_MAX && fdt.totalSize <= fdt.buf.Length
    requires RwProbe(fdt) == 0 ==> Readable(fdt) && Genuine(fdt, node)
    modifies fdt`sizeStruct, fdt`offStrings, fdt.buf
    ensures r != 0 ==> Untouched(fdt)
    ensures old(RwProbe(fdt)) != 0 ==> r == old(RwProbe(fdt))
    ensures old(RwProbe(fdt)) == 0 ==>
              var p := old(Found(fdt.Struct(), fdt.Strings(), node, name)); r == if p < 0 then p else 0
    ensures r == 0 ==> Readable(fdt) && SameFront(fdt) && SameReserved(fdt)
    ensures r == 0 ==> Seen(fdt) == old(CutEntry(Seen(fdt), Place(fdt.Struct(), fdt.Strings(), node), name))
    ensures r == 0 && old(Sound(fdt.Struct(), fdt.Strings())) ==> Sound(fdt.Struct(), fdt.Strings())
  {
    hide SameReserved, Seen, Genuine, Found, Events, CutEntry, Place, Boundary, Sound;
    r := RwProbe(fdt);
    if r == 0 {
      r := CutProperty(fdt, node, name);
      if r == 0 {
        ReservedAsWell(fdt);
      }
    }
  }

  method CutProperty(fdt: Blob, node: int, name: Bytes) returns (r: int)
    requires Readable(fdt) && Genuine(fdt, node)
    modifies fdt`sizeStruct, fdt`offStrings, fdt.buf
    ensures r != 0 ==> Untouched(fdt)
    ensures var p := old(Found(fdt.Struct(), fdt.Strings(), node, name)); r == if p < 0 then p else 0
    ensures r == 0 ==> Readable(fdt) && SameFront(fdt)
    ensures r == 0 ==> Seen(fdt) == old(CutEntry(Seen(fdt), Place(fdt.Struct(), fdt.Strings(), node), name))
    ensures r == 0 && old(Sound(fdt.Struct(), fdt.Strings())) ==> Sound(fdt.Struct(), fdt.Strings())
  {
    hide First, Scan, Walk, Meaning, Events, TagAt, CheckedNode, PropFrom, Nops, CutEntry, Align4, NamedAt, Found,
      Place, Boundary, Sound, Blob.Struct, Blob.Strings;
    ghost var s, strings := fdt.Struct(), fdt.Strings();
    var p := GetProperty(fdt, node, name);
    if p < 0 {
      return p;
    }
    FoundFacts(s, strings, node, name);
    var len := PropertyLength(fdt, p);
    PropertyDropped(s, strings, node, name, 0);
    r := CutStruct(fdt, p, 12 + Align4(len));
  }

  lemma ReplacedByNothing(s: Bytes, off: nat, len: nat, r: Bytes)
    requires Replaced(s, off, len, 0, r)
    ensures r == s[..off] + Nops(0) + s[off + len..]
  {
    assert r == r[..off] + r[off..];
  }

  lemma FoundFacts(s: Bytes, strings: Bytes, node: int, name: Bytes)
    requires Events(s, strings).Some? && (CheckedNode(s, node) >= 0 ==> Boundary(s, node))
    requires Found(s, strings, node, name) >= 0
    ensures var p := Found(s, strings, node, name);
            p % 4 == 0 && TagAt(s, p).0 == PROP && Boundary(s, p) && Boundary(s, node)
  {
    hide First, Scan, Meaning, Walk, Events, NamedAt, CheckedNode, PropFrom, TagAt, Place;
    CheckedFacts(s, node);
    PropertyPlace(s, strings, node, name);
    BoundaryAligned(s, Found(s, strings, node, name));
  }

  lemma BoundaryAligned(s: Bytes, off: int)
    requires Boundary(s, off)
    ensures off % 4 == 0
  {
    hide Scan;
    ScanAligned(s[..off]);
    assert |s[..off]| == off;
  }

  lemma NopsNone()
    ensures Nops(0) == []
  {
  }

  lemma {:induction false} NopsSnoc(n: nat)
    ensures Nops(n) + TagWord(NOP) == Nops(n + 1)
  {
    hide TagWord;
    if n == 0 {
      assert Nops(0) + TagWord(NOP) == TagWord(NOP) + Nops(0);
    } else {
      NopsSnoc(n - 1);
      assert Nops(n) + TagWord(NOP) == TagWord(NOP) + (Nops(n - 1) + TagWord(NOP));
    }
  }

  /** Overwrites a stretch with padding words. */
  method NopRegion(fdt: Blob, off: nat, len: nat)
    requires Laid(fdt) && off + Align4(len) <= fdt.sizeStruct
    modifies fdt.buf
    ensures fdt.Struct() == old(fdt.Struct()[..off]) + Nops(Align4(len) / 4) + old(fdt.Struct()[off + Align4(len)..])
    ensures fdt.Strings() == old(fdt.Strings()) && fdt.buf[..fdt.offStruct] == old(fdt.buf[..fdt.offStruct])
  {
    hide Nops, TagWord, Over, Align4, Blob.Struct, Blob.Strings;
    ghost var s := fdt.Struct();
    var p, k := 0, 0;
    NopsNone();
    assert s == s[..off] + [] + s[off..];
    while p < len
      invariant p == 4 * k && off + p <= |s| && p <= Align4(len)
      invariant fdt.Struct() == s[..off] + Nops(k) + s[off + p..]
      invariant fdt.Strings() == old(fdt.Strings()) && fdt.buf[..fdt.offStruct] == old(fdt.buf[..fdt.offStruct])
      decreases len - p
    {
      NopCount(len, k);
      NopWord(fdt, s, off, k, p);
      p, k := p + 4, k + 1;
    }
    NopCount(len, k);
  }

  lemma NopCount(len: nat, k: nat)
    requires 4 * k <= Align4(len)
    ensures 4 * k < len ==> 4 * k + 4 <= Align4(len)
    ensures 4 * k >= len ==> 4 * k == Align4(len) && k == Align4(len) / 4
  {
  }

  /** One word of padding more. */
  method NopWord(fdt: Blob, ghost s: Bytes, off: nat, ghost k: nat, p: nat)
    requires Laid(fdt) && p == 4 * k && off + p + 4 <= |s| == fdt.sizeStruct
    requires fdt.Struct() == s[..off] + Nops(k) + s[off + p..]
    modifies fdt.buf
    ensures fdt.Struct() == s[..off] + Nops(k + 1) + s[off + p + 4..]
    ensures fdt.Strings() == old(fdt.Strings()) && fdt.buf[..fdt.offStruct] == old(fdt.buf[..fdt.offStruct])
  {
    hide Nops, TagWord, Over, Blob.Struct, Blob.Strings;
    WriteStruct(fdt, off + p, TagWord(NOP));
    NopStep(s, off, k, p);
  }

  lemma NopStep(s: Bytes, off: nat, k: nat, p: nat)
    requires p == 4 * k && off + p + 4 <= |s|
    ensures Over(s[..off] + Nops(k) + s[off + p..], off + p, TagWord(NOP)) == s[..off] + Nops(k + 1) + s[off + p + 4..]
  {
    hide Nops, TagWord;
    NopsSnoc(k);
    assert s[..off] + (Nops(k) + TagWord(NOP)) == s[..off] + Nops(k) + TagWord(NOP);
  }

  method NopProp(fdt: Blob, node: int, name: Bytes) returns (r: int)
    requires Readable(fdt) && Genuine(fdt, node)
    modifies fdt.buf
    ensures r != 0 ==> Untouched(fdt)
    ensures var p := old(Found(fdt.Struct(), fdt.Strings(), node, name)); r == if p < 0 then p else 0
    ensures r == 0 ==> Readable(fdt) && SameFront(fdt) && SameReserved(fdt)
    ensures r == 0 ==> Seen(fdt) == old(CutEntry(Seen(fdt), Place(fdt.Struct(), fdt.Strings(), node), name))
    ensures r == 0 && old(Sound(fdt.Struct(), fdt.Strings())) ==> Sound(fdt.Struct(), fdt.Strings())
  {
    hide SameReserved, First, Scan, Walk, Meaning, Events, TagAt, CheckedNode, PropFrom, Nops, CutEntry, Align4,
      Replaced, NamedAt, Found, Place, Boundary, Sound, Blob.Struct, Blob.Strings;
    ghost var s, strings := fdt.Struct(), fdt.Strings();
    var p := GetProperty(fdt, node, name);
    if p < 0 {
      return p;
    }
    FoundFacts(s, strings, node, name);
    var len := PropertyLength(fdt, p);
    AlignShift(12, len);
    PropertyDropped(s, strings, node, name, Align4(12 + len) / 4);
    NopRegion(fdt, p, 12 + len);
    ReservedAsWell(fdt);
    return 0;
  }

  // ---- nodes

  /** Where tokens close a node, so do their events. */
  lemma {:induction false} CloseEvents(x: seq<Event>, ts: seq<Token>, strings: Bytes, y: seq<Event>, d: nat)
    requires Closes(ts, d) && Meaning(ts, strings).Some?
    ensures CloseOf(x + Meaning(ts, strings).value + y, |x|, d) == |x| + |Meaning(ts, strings).value|
    decreases |ts|
  {
    hide Closes;
    ClosesSome(ts, d);
    var t, rest := ts[0], ts[1..];
    var one, m := MeaningOf(t, strings).value, Meaning(ts, strings).value;
    assert ts == [t] + rest;
    var all := x + m + y;
    if rest == [] {
      assert [t] + rest == [t];
      ClosesOne(t, d);
      assert all[|x|] == Close;
    } else {
      ClosesFront(t, rest, d);
      ClosesOpen(rest, d + Level(t));
      var x' := x + one;
      assert all == x' + Meaning(rest, strings).value + y;
      CloseEvents(x', rest, strings, y, d + Level(t));
      assert one != [] ==> all[|x|] == one[0];
    }
  }

  lemma ClosesOne(t: Token, d: nat)
    requires Closes([t], d)
    ensures t.Finish? && d == 0
  {
    RiseFront(t, []);
    assert [t] + [] == [t];
  }

  /** Dropping a node from the bytes drops it from the events, with or without padding left behind. */
  lemma NodeDropped(s: Bytes, strings: Bytes, node: nat, end: nat, k: nat)
    requires Events(s, strings).Some? && Boundary(s, node) && NodeSpan(s, node, end)
    ensures var ev := Events(s, strings).value;
            && Place(s, strings, node) < |ev|
            && Events(s[..node] + Nops(k) + s[end..], strings) == Some(CutNode(ev, Place(s, strings, node)))
            && (Sound(s, strings) && BelowRoot(s, node) ==> Sound(s[..node] + Nops(k) + s[end..], strings))
  {
    hide Scan, Walk, Events, Nops, Closes, CloseOf, Sound, BelowRoot;
    PieceDropped(s, strings, node, end, k);
    var ts := Scan(s[node..end]).value;
    var x, m, y := Meaning(Scan(s[..node]).value, strings).value, Meaning(ts, strings).value,
      Events(s[end..], strings).value;
    var inner := Meaning(ts[1..], strings).value;
    assert m == [Open(ts[0].name)] + inner;
    var x' := x + [Open(ts[0].name)];
    assert x + m + y == x' + inner + y;
    CloseEvents(x', ts[1..], strings, y, 0);
    assert (x + m + y)[..|x|] == x && (x + m + y)[|x + m|..] == y;
    if Sound(s, strings) && BelowRoot(s, node) {
      SoundWithout(s, strings, node, end, k);
    }
  }

  method DelNode(fdt: Blob, node: int) returns (r: int)
    requires fdt.version == 17 && fdt.totalSize < INT_MAX && fdt.totalSize <= fdt.buf.Length
    requires RwProbe(fdt) == 0 ==> Readable(fdt) && Genuine(fdt, node)
    modifies fdt`sizeStruct, fdt`offStrings, fdt.buf
    ensures r != 0 ==> Untouched(fdt)
    ensures old(RwProbe(fdt)) != 0 ==> r == old(RwProbe(fdt))
    ensures old(RwProbe(fdt)) == 0 ==> (r == 0 <==> old(HasSpan(fdt.Struct(), node)))
    ensures r == 0 ==> Readable(fdt) && SameFront(fdt) && SameReserved(fdt)
    ensures r == 0 ==> old(Place(fdt.Struct(), fdt.Strings(), node) < |Seen(fdt)|)
    ensures r == 0 ==> Seen(fdt) == old(CutNode(Seen(fdt), Place(fdt.Struct(), fdt.Strings(), node)))
    ensures r == 0 && old(Sound(fdt.Struct(), fdt.Strings()) && BelowRoot(fdt.Struct(), node)) ==>
      Sound(fdt.Struct(), fdt.Strings())
  {
    hide SameReserved, First, Scan, Walk, Meaning, Events, TagAt, CheckedNode, Nops, CutNode, Place, NodeSpan,
      Boundary, Sound, BelowRoot;
    r := RwProbe(fdt);
    if r != 0 {
      return;
    }
    ghost var s, strings := fdt.Struct(), fdt.Strings();
    var end := NodeEndOffset(fdt, node);
    SpanFacts(s, node);
    if end < 0 {
      return end;
    }
    SpanWithin(s, node, end);
    NodeDropped(s, strings, node, end, 0);
    r := CutStruct(fdt, node, end - node);
    ReservedAsWell(fdt);
  }

  /** There is a node at an offset, and it is closed. */
  ghost predicate HasSpan(s: Bytes, node: int) {
    CheckedNode(s, node) >= 0 && exists e :: NodeSpan(s, node, e)
  }

  lemma SpanFacts(s: Bytes, node: int)
    ensures CheckedNode(s, node) >= 0 ==> 0 <= node
    ensures CheckedNode(s, node) < 0 ==> !HasSpan(s, node)
  {
  }

  lemma SpanWithin(s: Bytes, node: nat, end: nat)
    requires NodeSpan(s, node, end)
    ensures node <= end <= |s| && (end - node) % 4 == 0
  {
    hide Scan;
    ScanAligned(s[node..end]);
    assert |s[node..end]| == end - node;
  }

  method NopNode(fdt: Blob, node: int) returns (r: int)
    requires Readable(fdt) && Genuine(fdt, node)
    modifies fdt.buf
    ensures r != 0 ==> Untouched(fdt)
    ensures r == 0 <==> old(HasSpan(fdt.Struct(), node))
    ensures r == 0 ==> Readable(fdt) && SameFront(fdt) && SameReserved(fdt)
    ensures r == 0 ==> old(Place(fdt.Struct(), fdt.Strings(), node) < |Seen(fdt)|)
    ensures r == 0 ==> Seen(fdt) == old(CutNode(Seen(fdt), Place(fdt.Struct(), fdt.Strings(), node)))
    ensures r == 0 && old(Sound(fdt.Struct(), fdt.Strings()) && BelowRoot(fdt.Struct(), node)) ==>
      Sound(fdt.Struct(), fdt.Strings())
  {
    hide SameReserved, First, Scan, Walk, Meaning, Events, TagAt, CheckedNode, Nops, CutNode, Place, NodeSpan,
      Boundary, Sound, BelowRoot;
    ghost var s, strings := fdt.Struct(), fdt.Strings();
    var end := NodeEndOffset(fdt, node);
    SpanFacts(s, node);
    if end < 0 {
      return end;
    }
    SpanWithin(s, node, end);
    NodeDropped(s, strings, node, end, (end - node) / 4);
    NopRegion(fdt, node, end - node);
    ReservedAsWell(fdt);
    return 0;
  }
}
