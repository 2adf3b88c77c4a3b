/**
 Setting a property: its value is resized in place, or it is added as the node's first property
 with its name found in the strings block or appended to it.
 */
module FdtSet {
  import opened Basics
  import opened FdtFormat
  import opened FdtBlob
  import opened FdtNodes
  import opened FdtCheck
  import opened FdtWriter
  import opened FdtSplice
  import opened FdtProps
  import opened FdtEdit
  import opened FdtKeep
  import opened FdtEditOps

  // ---- room for a property

  /** A property of some length stands at p, whatever its value. */
  ghost predicate Slot(f: Bytes, p: nat, len: nat, o: nat) {
    && p % 4 == 0 && p + 12 + Align4(len) <= |f|
    && First(f[p..]).Lex? && First(f[p..]).size == 12 + len
    && First(f[p..]).token.Property? && First(f[p..]).token.nameOff == o
  }

  /** In place of the bytes from p to end there is room for a property with the name. */
  ghost predicate Made(s: Bytes, strings: Bytes, p: int, end: int, f: Bytes, more: Bytes, len: nat, name: Bytes) {
    && 0 <= p <= end <= |s| && p + 12 + Align4(len) <= |f|
    && f[..p] == s[..p] && f[p + 12 + Align4(len)..] == s[end..]
    && exists o: nat :: Slot(f, p, len, o) && StringAt(strings + more, o) == Some(name)
  }

  /** In place of the property at p. */
  ghost predicate Remade(s: Bytes, strings: Bytes, p: int, f: Bytes, len: nat, name: Bytes) {
    Made(s, strings, p, TagAt(s, p).1, f, [], len, name)
  }

  /** By its fields, a slot. */
  lemma SlotBy(f: Bytes, p: nat, len: nat, o: nat)
    requires p % 4 == 0 && p + 12 + Align4(len) <= |f|
    requires U32(f[p..p + 4]) == PROP && U32(f[p + 4..p + 8]) == len && U32(f[p + 8..p + 12]) == o
    ensures Slot(f, p, len, o)
  {
    hide U32, NulFrom;
    FirstAt(f, p);
  }

  /** Writing the value makes it that property. */
  lemma SlotFilled(f: Bytes, p: nat, o: nat, value: Bytes)
    requires Slot(f, p, |value|, o)
    ensures var w := Over(f, p + 12, value)[p..p + 12 + Align4(|value|)];
            Scan(w) == Some([Property(o, value)])
    ensures Over(f, p + 12, value)[..p] == f[..p]
    ensures Over(f, p + 12, value)[p + 12 + Align4(|value|)..] == f[p + 12 + Align4(|value|)..]
  {
    hide U32, Over, First, Scan;
    var end := p + 12 + Align4(|value|);
    var f' := Over(f, p + 12, value);
    PropertyFields(f, p);
    OverOutside(f, p + 12, value, p, p + 4);
    OverOutside(f, p + 12, value, p + 4, p + 8);
    OverOutside(f, p + 12, value, p + 8, p + 12);
    OverOutside(f, p + 12, value, 0, p);
    OverOutside(f, p + 12, value, end, |f|);
    OverPart(f, p + 12, value, 0, |value|);
    SlotBy(f', p, |value|, o);
    PropertyFields(f', p);
    assert value[0..|value|] == value;
    var w := f'[p..end];
    assert w[..12 + |value|] == f'[p..][..12 + |value|];
    FirstLocal(w, f'[p..]);
    AlignShift(12, |value|);
    ScanOne(w);
  }

  /** The block with the value written. */
  lemma MadeEvents(s: Bytes, strings: Bytes, p: nat, end: nat, f: Bytes, more: Bytes, name: Bytes, value: Bytes)
    requires Boundary(s, p) && p <= end <= |s| && Scan(s[p..end]).Some? && Events(s, strings).Some?
    requires Made(s, strings, p, end, f, more, |value|, name)
    ensures var x := Meaning(Scan(s[..p]).value, strings); var m := Meaning(Scan(s[p..end]).value, strings);
            var y := Events(s[end..], strings);
            && x.Some? && m.Some? && y.Some? && Events(s, strings).value == x.value + m.value + y.value
            && Events(Over(f, p + 12, value), strings + more) == Some(x.value + [Entry(name, value)] + y.value)
    ensures Sound(s, strings) && Level0(Scan(s[p..end]).value)
            && (Scan(s[p..end]).value != [] ||
              (Scan(s[..p]).value != [] && Scan(s[..p]).value[|Scan(s[..p]).value| - 1].Begin?))
            ==> Sound(Over(f, p + 12, value), strings + more)
  {
    hide Over, Scan, Meaning, Walk, Events, Slot, StringAt, Sound;
    var o: nat :| Slot(f, p, |value|, o) && StringAt(strings + more, o) == Some(name);
    SlotFilled(f, p, o, value);
    var f' := Over(f, p + 12, value);
    var e := p + 12 + Align4(|value|);
    var w := f'[p..e];
    MeaningOne(Property(o, value), strings + more);
    PieceReplaced(s, strings, p, end, w, more);
    assert f' == f'[..p] + w + f'[e..];
    if Sound(s, strings) && Level0(Scan(s[p..end]).value)
       && (Scan(s[p..end]).value != [] ||
         (Scan(s[..p]).value != [] && Scan(s[..p]).value[|Scan(s[..p]).value| - 1].Begin?)) {
      SoundPlain(s, strings, p, end, w, more);
    }
  }

  // ---- resizing

  /** Whether the value of the property at p can be resized. */
  ghost function ResizeResult(fdt: Blob, p: int, len: nat): (r: int)
    requires fdt.StructIn()
    reads fdt, fdt.buf
    ensures r == 0 || r == -ERR_NOSPACE
  {
    if DataSize(fdt) - Align4(LengthAt(fdt.Struct(), p)) + Align4(len) > fdt.totalSize then -ERR_NOSPACE else 0
  }

  /** The length of the property at p. */
  ghost function LengthAt(s: Bytes, p: int): nat {
    if 0 <= p <= |s| && First(s[p..]).Lex? && First(s[p..]).token.Property? then |First(s[p..]).token.value| else 0
  }

  lemma LengthIs(s: Bytes, p: nat, len: nat)
    requires TagAt(s, p).0 == PROP && First(s[p..]).Lex? && First(s[p..]).size == 12 + len
    ensures LengthAt(s, p) == len
  {
    hide First, U32;
    PropertyTag(s, p);
    PropertyFields(s, p);
  }

  /** Makes room for len bytes in the value of a property. */
  method ResizeProperty(fdt: Blob, node: int, name: Bytes, len: nat) returns (err: int, p: int)
    requires Readable(fdt) && Genuine(fdt, node) && len < INT_MAX
    modifies fdt`sizeStruct, fdt`offStrings, fdt.buf
    ensures p == old(Found(fdt.Struct(), fdt.Strings(), node, name))
    ensures p < 0 ==> err == p
    ensures p >= 0 ==> err == old(ResizeResult(fdt, p, len))
    ensures err != 0 ==> Untouched(fdt)
    ensures err == 0 ==> p >= 0 && Laid(fdt) && SameFront(fdt) && fdt.Strings() == old(fdt.Strings())
    ensures err == 0 ==> Remade(old(fdt.Struct()), old(fdt.Strings()), p, fdt.Struct(), len, name)
  {
    hide First, Scan, Walk, Meaning, Events, TagAt, CheckedNode, PropFrom, Align4, Replaced, NamedAt, Found, Boundary,
      Made, Over, LengthAt, Blob.Struct, Blob.Strings;
    ghost var s, strings := fdt.Struct(), fdt.Strings();
    p := GetProperty(fdt, node, name);
    if p < 0 {
      return p, p;
    }
    FoundFacts(s, strings, node, name);
    FoundNamed(s, strings, node, name);
    var oldlen := PropertyLength(fdt, p);
    LengthIs(s, p, oldlen);
    err := SpliceStruct(fdt, p + 12, Align4(oldlen), Align4(len));
    if err != 0 {
      return;
    }
    ghost var g := fdt.Struct();
    ReplacedSize(s, p + 12, Align4(oldlen), Align4(len), g);
    WriteStruct(fdt, p + 4, Be32(len));
    Resized(s, strings, p, oldlen, g, len, name);
  }

  lemma ReplacedSize(s: Bytes, off: nat, oldlen: nat, newlen: nat, r: Bytes)
    requires Replaced(s, off, oldlen, newlen, r)
    ensures |r| == |s| - oldlen + newlen && off + newlen <= |r|
  {
  }

  lemma FoundNamed(s: Bytes, strings: Bytes, node: int, name: Bytes)
    requires Events(s, strings).Some? && (CheckedNode(s, node) >= 0 ==> Boundary(s, node))
    requires Found(s, strings, node, name) >= 0
    ensures var p := Found(s, strings, node, name); NamedAt(s, strings, p, name) && TagAt(s, p).1 <= |s|
  {
    hide First, Scan, Meaning, Walk, Events, NamedAt, CheckedNode, PropFrom, TagAt, Place;
    CheckedFacts(s, node);
    PropertyPlace(s, strings, node, name);
  }

  lemma Resized(s: Bytes, strings: Bytes, p: nat, oldlen: nat, g: Bytes, len: nat, name: Bytes)
    requires p % 4 == 0 && NamedAt(s, strings, p, name) && First(s[p..]).size == 12 + oldlen
    requires TagAt(s, p).1 == p + 12 + Align4(oldlen) <= |s| && len < LIMIT32
    requires Replaced(s, p + 12, Align4(oldlen), Align4(len), g)
    ensures Made(s, strings, p, TagAt(s, p).1, Over(g, p + 4, Be32(len)), [], len, name)
  {
    hide U32, Be32, Over, First, StringAt, Align4, Slot;
    PropertyFields(s, p);
    var o := First(s[p..]).token.nameOff;
    var d, f := Be32(len), Over(g, p + 4, Be32(len));
    ReadBe32(len);
    Fronts(g, s, p + 12);
    OverOutside(g, p + 4, d, p, p + 4);
    OverOutside(g, p + 4, d, p + 8, p + 12);
    OverPart(g, p + 4, d, 0, 4);
    assert d[0..4] == d;
    assert g[p..p + 4] == s[p..p + 4] && g[p + 8..p + 12] == s[p + 8..p + 12];
    SlotBy(f, p, len, o);
    OverOutside(g, p + 4, d, 0, p);
    OverOutside(g, p + 4, d, p + 12 + Align4(len), |g|);
    assert f[..p] == g[..p] == s[..p];
    assert f[p + 12 + Align4(len)..] == g[p + 12 + Align4(len)..] == s[p + 12 + Align4(oldlen)..];
    assert strings + [] == strings;
    assert Slot(f, p, len, o) && StringAt(strings + [], o) == Some(name);
  }

  // ---- adding

  /** Appends a name to the strings block. */
  method AppendString(fdt: Blob, name: Bytes) returns (o: int)
    requires Laid(fdt) && IsName(name)
    modifies fdt`sizeStrings, fdt.buf
    ensures o == if old(DataSize(fdt)) + |name| + 1 > fdt.totalSize then -ERR_NOSPACE else old(fdt.sizeStrings)
    ensures o < 0 ==> Untouched(fdt)
    ensures o >= 0 ==> Laid(fdt) && SameFront(fdt) && fdt.Struct() == old(fdt.Struct())
    ensures o >= 0 ==>
      fdt.Strings() == old(fdt.Strings()) + (name + [0]) && DataSize(fdt) == old(DataSize(fdt)) + |name| + 1
  {
    hide Over, Blob.Struct, Blob.Strings;
    var at := DataSize(fdt);
    ghost var b := fdt.buf[..];
    Parts(fdt, b);
    var len := |name| + 1;
    o := Splice(fdt, at, 0, len);
    if o != 0 {
      return;
    }
    NothingMoved(b, at + len, b[at..at]);
    o := fdt.sizeStrings;
    fdt.sizeStrings := fdt.sizeStrings + len;
    fdt.Write(at, name + [0]);
    AppendedAt(fdt, b, at, name + [0]);
  }

  lemma AppendedAt(fdt: Blob, b: Bytes, at: nat, d: Bytes)
    requires fdt.StructIn() && fdt.StringsIn() && fdt.offStruct + fdt.sizeStruct <= fdt.offStrings <= at
    requires at + |d| <= |b| && fdt.buf[..] == Over(b, at, d) && fdt.offStrings + fdt.sizeStrings == at + |d|
    ensures fdt.Struct() == b[fdt.offStruct..fdt.offStruct + fdt.sizeStruct] &&
      fdt.buf[..fdt.offStruct] == b[..fdt.offStruct]
    ensures fdt.Strings() == b[fdt.offStrings..at] + d
  {
    hide Over, Blob.Struct, Blob.Strings;
    WrittenBehind(b, at, d, fdt.offStruct, fdt.offStruct + fdt.sizeStruct, fdt.offStrings);
    Parts(fdt, fdt.buf[..]);
  }

  lemma WrittenBehind(b: Bytes, at: nat, d: Bytes, lo: nat, hi: nat, str: nat)
    requires lo <= hi <= str <= at && at + |d| <= |b|
    ensures Over(b, at, d)[..lo] == b[..lo] && Over(b, at, d)[lo..hi] == b[lo..hi]
    ensures Over(b, at, d)[str..at + |d|] == b[str..at] + d
  {
    OverOutside(b, at, d, 0, lo);
    OverOutside(b, at, d, lo, hi);
    OverInside(b, at, d, str, at + |d|);
    assert b[str..at] + d + b[at + |d|..at + |d|] == b[str..at] + d;
  }

  lemma NothingMoved(b: Bytes, at: nat, d: Bytes)
    requires d == [] && at <= |b|
    ensures Over(b, at, d) == b
  {
  }

  /** The bytes that a name will take in the strings block. */
  ghost function NameRoom(strings: Bytes, name: Bytes): nat {
    if Absent(strings, name, |strings|) then |name| + 1 else 0
  }

  /** Finds a name in the strings block, or else appends it. */
  method FindAppendString(fdt: Blob, name: Bytes) returns (o: int, added: bool)
    requires Laid(fdt) && IsName(name)
    modifies fdt`sizeStrings, fdt.buf
    ensures o < 0 <==> old(DataSize(fdt) + NameRoom(fdt.Strings(), name)) > fdt.totalSize
    ensures o < 0 ==> o == -ERR_NOSPACE && Untouched(fdt)
    ensures o >= 0 ==> Laid(fdt) && SameFront(fdt) && fdt.Struct() == old(fdt.Struct())
    ensures o >= 0 ==> fdt.Strings() == old(fdt.Strings()) + Appendix(name, added) && o < |fdt.Strings()|
    ensures o >= 0 ==> StringAt(fdt.Strings(), o) == Some(name)
    ensures o >= 0 ==> DataSize(fdt) == old(DataSize(fdt)) + |Appendix(name, added)|
    ensures o >= 0 ==> |Appendix(name, added)| == old(NameRoom(fdt.Strings(), name))
  {
    hide StandsAt, StringAt, Blob.Struct, Blob.Strings, IsName;
    ghost var strings := fdt.Strings();
    Parts(fdt, fdt.buf[..]);
    var p := FindString(fdt.buf, fdt.offStrings, fdt.sizeStrings, name);
    added := false;
    if p >= 0 {
      StandsWithin(strings, name, p);
      StandsIsRead(strings, name, p);
      assert strings + [] == strings;
      return p, added;
    }
    o := AppendString(fdt, name);
    if o >= 0 {
      added := true;
      StringLast(strings, name);
    }
  }

  lemma StringLast(strings: Bytes, name: Bytes)
    requires IsName(name)
    ensures StringAt(strings + (name + [0]), |strings|) == Some(name)
  {
    StringWritten(strings, name, []);
    assert strings + name + [0] + [] == strings + (name + [0]);
  }

  function Appendix(name: Bytes, added: bool): Bytes {
    if added then name + [0] else []
  }

  method DropString(fdt: Blob, name: Bytes, ghost strings: Bytes)
    requires Laid(fdt) && fdt.Strings() == strings + (name + [0])
    modifies fdt`sizeStrings
    ensures Laid(fdt) && fdt.Struct() == old(fdt.Struct()) && fdt.Strings() == strings
  {
    assert |strings + (name + [0])| == |strings| + |name| + 1;
    fdt.sizeStrings := fdt.sizeStrings - (|name| + 1);
    assert strings == (strings + (name + [0]))[..|strings|];
  }

  /** Room for a property right behind the node's name. */
  method InsertProperty(fdt: Blob, next: nat, ghost s: Bytes, ghost strings: Bytes, ghost more: Bytes, o: nat, len: nat,
      ghost name: Bytes)
    returns (err: int)
    requires Laid(fdt) && next % 4 == 0 && next <= fdt.sizeStruct && o < LIMIT32 && len < INT_MAX
    requires fdt.Struct() == s && fdt.Strings() == strings + more && StringAt(strings + more, o) == Some(name)
    modifies fdt`sizeStruct, fdt`offStrings, fdt.buf
    ensures err == if old(DataSize(fdt)) + 12 + Align4(len) > fdt.totalSize then -ERR_NOSPACE else 0
    ensures err != 0 ==> Untouched(fdt)
    ensures err == 0 ==> Laid(fdt) && SameFront(fdt) && fdt.Strings() == strings + more
    ensures err == 0 ==> Made(s, strings, next, next, fdt.Struct(), more, len, name)
  {
    hide Over, Replaced, Made, StringAt, Align4, Be32;
    err := SpliceStruct(fdt, next, 0, 12 + Align4(len));
    if err != 0 {
      return;
    }
    ghost var g := fdt.Struct();
    ReplacedSize(s, next, 0, 12 + Align4(len), g);
    WriteStruct(fdt, next, Be32(PROP) + Be32(len) + Be32(o));
    Inserted(s, strings, next, g, more, o, len, name);
  }

  lemma Inserted(s: Bytes, strings: Bytes, p: nat, g: Bytes, more: Bytes, o: nat, len: nat, name: Bytes)
    requires p % 4 == 0 && p <= |s| && o < LIMIT32 && len < INT_MAX && StringAt(strings + more, o) == Some(name)
    requires Replaced(s, p, 0, 12 + Align4(len), g)
    ensures Made(s, strings, p, p, Over(g, p, Be32(PROP) + Be32(len) + Be32(o)), more, len, name)
  {
    hide U32, Be32, Over, StringAt, Align4, Slot;
    var d := Be32(PROP) + Be32(len) + Be32(o);
    var f := Over(g, p, d);
    OverPart(g, p, d, 0, 4);
    OverPart(g, p, d, 4, 8);
    OverPart(g, p, d, 8, 12);
    assert d[0..4] == Be32(PROP) && d[4..8] == Be32(len) && d[8..12] == Be32(o);
    ReadBe32(PROP);
    ReadBe32(len);
    ReadBe32(o);
    SlotBy(f, p, len, o);
    OverOutside(g, p, d, 0, p);
    OverOutside(g, p, d, p + 12 + Align4(len), |g|);
    assert Slot(f, p, len, o) && StringAt(strings + more, o) == Some(name);
  }

  lemma NextWithin(s: Bytes, strings: Bytes, node: int)
    requires Events(s, strings).Some? && CheckedNode(s, node) >= 0 && Boundary(s, node)
    ensures CheckedNode(s, node) <= |s|
  {
    hide First, Scan, Walk, Meaning, Events, TagAt, CheckedNode, Place;
    NodeFirst(s, strings, node);
  }

  /** Whether a property can be added. */
  ghost function AddResult(fdt: Blob, name: Bytes, len: nat): (r: int)
    requires fdt.StringsIn()
    reads fdt, fdt.buf
    ensures r == 0 || r == -ERR_NOSPACE
  {
    if DataSize(fdt) + NameRoom(fdt.Strings(), name) + 12 + Align4(len) > fdt.totalSize then -ERR_NOSPACE else 0
  }

  /** Finds or adds the name, then makes room; without room the name goes again. */
  method AddNamed(fdt: Blob, next: nat, name: Bytes, len: nat) returns (err: int, ghost more: Bytes)
    requires Laid(fdt) && IsName(name) && len < INT_MAX && next % 4 == 0 && next <= fdt.sizeStruct
    modifies fdt`sizeStruct, fdt`sizeStrings, fdt`offStrings, fdt.buf
    ensures Laid(fdt) && SameFront(fdt)
    ensures err == 0 ==> fdt.Strings() == old(fdt.Strings()) + more
    ensures err == 0 ==> Made(old(fdt.Struct()), old(fdt.Strings()), next, next, fdt.Struct(), more, len, name)
    ensures err != 0 ==> SameSizes(fdt) && fdt.Struct() == old(fdt.Struct()) && fdt.Strings() == old(fdt.Strings())
    ensures err == old(AddResult(fdt, name, len))
  {
    hide Align4, Made, StringAt, NameRoom, IsName, Blob.Struct, Blob.Strings;
    ghost var s, strings := fdt.Struct(), fdt.Strings();
    more := [];
    var o, added := FindAppendString(fdt, name);
    if o < 0 {
      return o, more;
    }
    more := Appendix(name, added);
    err := InsertProperty(fdt, next, s, strings, more, o, len, name);
    if err != 0 && added {
      DropString(fdt, name, strings);
    }
  }

  twostate predicate SameSizes(fdt: Blob)
    reads fdt
  {
    fdt.sizeStruct == old(fdt.sizeStruct) && fdt.sizeStrings == old(fdt.sizeStrings) &&
      fdt.offStrings == old(fdt.offStrings)
  }

  /** Adds a property to a node; a failure leaves the strings as they were. */
  method AddProperty(fdt: Blob, node: int, name: Bytes, len: nat) returns (err: int, next: int, ghost more: Bytes)
    requires Readable(fdt) && Genuine(fdt, node) && IsName(name) && len < INT_MAX
    modifies fdt`sizeStruct, fdt`sizeStrings, fdt`offStrings, fdt.buf
    ensures next == old(CheckedNode(fdt.Struct(), node))
    ensures err == 0 ==> next >= 0 && Laid(fdt) && SameFront(fdt) && fdt.Strings() == old(fdt.Strings()) + more
    ensures err == 0 ==> Made(old(fdt.Struct()), old(fdt.Strings()), next, next, fdt.Struct(), more, len, name)
    ensures err != 0 ==>
      SameSizes(fdt) && SameFront(fdt) && fdt.Struct() == old(fdt.Struct()) && fdt.Strings() == old(fdt.Strings())
    ensures err == if next < 0 then next else old(AddResult(fdt, name, len))
  {
    hide First, Scan, Walk, Meaning, Events, TagAt, CheckedNode, Align4, Boundary, Made, StringAt, NameRoom;
    ghost var s, strings := fdt.Struct(), fdt.Strings();
    more := [];
    next := CheckNodeOffset(fdt, node);
    CheckedFacts(s, node);
    if next < 0 {
      return next, next, more;
    }
    NextWithin(s, strings, node);
    err, more := AddNamed(fdt, next, name, len);
  }

  // ---- setting

  /** A resized or added property is the events' property set. */
  lemma SetResized(s: Bytes, strings: Bytes, node: int, f: Bytes, name: Bytes, value: Bytes)
    requires Events(s, strings).Some? && (CheckedNode(s, node) >= 0 ==> Boundary(s, node))
    requires Found(s, strings, node, name) >= 0 && Remade(s, strings, Found(s, strings, node, name), f, |value|, name)
    ensures Boundary(s, node) && Place(s, strings, node) < |Events(s, strings).value|
    ensures Found(s, strings, node, name) + 12 + |value| <= |f|
    ensures Events(Over(f, Found(s, strings, node, name) + 12, value), strings) ==
            Some(SetEntry(Events(s, strings).value, Place(s, strings, node), name, value))
    ensures Sound(s, strings) ==> Sound(Over(f, Found(s, strings, node, name) + 12, value), strings)
  {
    hide First, Scan, Walk, Meaning, Events, TagAt, CheckedNode, PropFrom, NamedAt, Over, Slot, Align4, Sound, Level0;
    FoundFacts(s, strings, node, name);
    CheckedFacts(s, node);
    PropertyPlace(s, strings, node, name);
    var p := Found(s, strings, node, name);
    OneEvent(s, strings, p);
    PropertyTag(s, p);
    PlainOne(s, p);
    MadeEvents(s, strings, p, TagAt(s, p).1, f, [], name, value);
    assert strings + [] == strings;
    var x := Meaning(Scan(s[..p]).value, strings).value;
    SetAt(Events(s, strings).value, x, Meaning(Scan(s[p..TagAt(s, p).1]).value, strings).value,
          Events(s[TagAt(s, p).1..], strings).value, Entry(name, value));
  }

  lemma SetAt(ev: seq<Event>, x: seq<Event>, m: seq<Event>, y: seq<Event>, e: Event)
    requires ev == x + m + y && |m| == 1
    ensures |x| < |ev| && ev[|x| := e] == x + [e] + y
  {
  }

  /** A node's name is followed by what is in it. */
  lemma BehindBegin(s: Bytes, strings: Bytes, node: int)
    requires Events(s, strings).Some? && CheckedNode(s, node) >= 0 && Boundary(s, node)
    ensures var b := CheckedNode(s, node);
            Boundary(s, b) && Scan(s[..b]).value != [] && Scan(s[..b]).value[|Scan(s[..b]).value| - 1].Begin?
  {
    hide Scan, Walk, Meaning, Events;
    NodeFirst(s, strings, node);
    EventsAt(s, strings, node);
    EventsFirst(s, strings, node);
    BoundaryBetween(s, node, CheckedNode(s, node));
  }

  lemma SetAdded(s: Bytes, strings: Bytes, node: int, f: Bytes, more: Bytes, name: Bytes, value: Bytes)
    requires Events(s, strings).Some? && CheckedNode(s, node) >= 0 && Boundary(s, node)
    requires Found(s, strings, node, name) < 0
    requires Made(s, strings, CheckedNode(s, node), CheckedNode(s, node), f, more, |value|, name)
    ensures Place(s, strings, node) < |Events(s, strings).value|
    ensures CheckedNode(s, node) + 12 + |value| <= |f|
    ensures Events(Over(f, CheckedNode(s, node) + 12, value), strings + more) ==
            Some(SetEntry(Events(s, strings).value, Place(s, strings, node), name, value))
    ensures Sound(s, strings) ==> Sound(Over(f, CheckedNode(s, node) + 12, value), strings + more)
  {
    hide First, Scan, Walk, Meaning, Events, TagAt, CheckedNode, PropFrom, NamedAt, Over, Slot, Align4, Found, Sound;
    PropertyPlace(s, strings, node, name);
    NodeFirst(s, strings, node);
    var p := CheckedNode(s, node);
    assert s[p..p] == [];
    ScanNone();
    MeaningNone(strings);
    BehindBegin(s, strings, node);
    MadeEvents(s, strings, p, p, f, more, name, value);
    var x, y := Meaning(Scan(s[..p]).value, strings).value, Events(s[p..], strings).value;
    var ev := Events(s, strings).value;
    assert x + [] == x && ev[..|x|] == x && ev[|x|..] == y;
  }

  /** Nothing in front of the place of the property changes. */
  lemma MadeExtends(s: Bytes, strings: Bytes, b: nat, p: nat, end: int, f: Bytes, more: Bytes, len: nat, name: Bytes,
      value: Bytes)
    requires Made(s, strings, p, end, f, more, len, name) && b <= p && |value| == len
    ensures p + 12 + |value| <= |f|
    ensures Extends(s, strings, b, f, strings + more) && Extends(s, strings, b, Over(f, p + 12, value), strings + more)
  {
    hide Over, Slot;
    OverOutside(f, p + 12, value, 0, b);
    assert f[..p][..b] == f[..b] && s[..p][..b] == s[..b];
    assert (strings + more)[..|strings|] == strings;
  }

  lemma RemadeExtends(s: Bytes, strings: Bytes, b: nat, p: nat, f: Bytes, name: Bytes, value: Bytes)
    requires Remade(s, strings, p, f, |value|, name) && b <= p
    ensures p + 12 + |value| <= |f| && Extends(s, strings, b, Over(f, p + 12, value), strings)
  {
    hide Made, Over, TagAt;
    assert strings + [] == strings;
    MadeExtends(s, strings, b, p, TagAt(s, p).1, f, [], |value|, name, value);
  }

  lemma ExtendsSelf(s: Bytes, strings: Bytes, node: int)
    requires Events(s, strings).Some? && (CheckedNode(s, node) >= 0 ==> Boundary(s, node))
    ensures Extends(s, strings, CheckedNode(s, node), s, strings)
  {
    hide Events, CheckedNode, Boundary;
    if CheckedNode(s, node) >= 0 {
      NextWithin(s, strings, node);
    }
  }

  lemma {:induction false} PropAhead(s: Bytes, strings: Bytes, off: int, name: Bytes)
    ensures PropFrom(s, strings, off, name) >= 0 ==> PropFrom(s, strings, off, name) >= off
    decreases |s| - off
  {
    hide First, NamedAt;
    TagStep(s, off);
    var (tag, next) := TagAt(s, off);
    if tag == NOP || (tag == PROP && !NamedAt(s, strings, off, name)) {
      PropAhead(s, strings, next, name);
    }
  }

  lemma FoundAhead(s: Bytes, strings: Bytes, node: int, name: Bytes)
    requires Found(s, strings, node, name) >= 0
    ensures 0 <= CheckedNode(s, node) <= Found(s, strings, node, name)
  {
    hide CheckedNode, PropFrom;
    CheckedFacts(s, node);
    PropAhead(s, strings, CheckedNode(s, node), name);
  }

  lemma NotFoundNode(s: Bytes, strings: Bytes, node: int, name: Bytes)
    ensures Found(s, strings, node, name) == -ERR_NOTFOUND ==> CheckedNode(s, node) >= 0
  {
    hide CheckedNode, PropFrom;
    CheckedFacts(s, node);
  }

  /** What setting a property returns: a failed search, or whether there is room. */
  ghost function SetResult(fdt: Blob, node: int, name: Bytes, len: nat): int
    requires fdt.StructIn() && fdt.StringsIn()
    reads fdt, fdt.buf
  {
    var p := Found(fdt.Struct(), fdt.Strings(), node, name);
    if p >= 0 then ResizeResult(fdt, p, len)
    else if p == -ERR_NOTFOUND then AddResult(fdt, name, len)
    else p
  }

  /** Sets a property of a node, or leaves what the blob says as it was. */
  method SetProp(fdt: Blob, node: int, name: Bytes, value: Bytes) returns (r: int)
    requires fdt.version == 17 && fdt.totalSize < INT_MAX && fdt.totalSize <= fdt.buf.Length
    requires RwProbe(fdt) == 0 ==> Readable(fdt) && Genuine(fdt, node)
    requires IsName(name) && |value| < INT_MAX
    modifies fdt`sizeStruct, fdt`sizeStrings, fdt`offStrings, fdt.buf
    ensures old(RwProbe(fdt)) != 0 ==> r == old(RwProbe(fdt)) && Untouched(fdt)
    ensures old(RwProbe(fdt)) == 0 ==> Readable(fdt) && SameFront(fdt) && SameReserved(fdt)
    ensures old(RwProbe(fdt)) == 0 ==> r == old(SetResult(fdt, node, name, |value|))
    ensures old(RwProbe(fdt)) == 0 && r != 0 ==>
      SameSizes(fdt) && fdt.Struct() == old(fdt.Struct()) && fdt.Strings() == old(fdt.Strings())
    ensures r == 0 ==> old(Boundary(fdt.Struct(), node) && Place(fdt.Struct(), fdt.Strings(), node) < |Seen(fdt)|)
    ensures r == 0 ==> Seen(fdt) == old(SetEntry(Seen(fdt), Place(fdt.Struct(), fdt.Strings(), node), name, value))
    ensures old(RwProbe(fdt)) == 0 ==>
      Extends(old(fdt.Struct()), old(fdt.Strings()), old(CheckedNode(fdt.Struct(), node)), fdt.Struct(),
              fdt.Strings())
    ensures r == 0 && old(Sound(fdt.Struct(), fdt.Strings())) ==> Sound(fdt.Struct(), fdt.Strings())
  {
    hide SameReserved, Seen, Genuine, Boundary, Place, SetEntry, Align4, SetResult, Sound, Events;
    r := RwProbe(fdt);
    if r == 0 {
      r := SetReadable(fdt, node, name, value);
      ReservedAsWell(fdt);
    }
  }

  method SetReadable(fdt: Blob, node: int, name: Bytes, value: Bytes) returns (r: int)
    requires Readable(fdt) && Genuine(fdt, node) && IsName(name) && |value| < INT_MAX
    modifies fdt`sizeStruct, fdt`sizeStrings, fdt`offStrings, fdt.buf
    ensures Readable(fdt) && SameFront(fdt)
    ensures r != 0 ==> SameSizes(fdt) && fdt.Struct() == old(fdt.Struct()) && fdt.Strings() == old(fdt.Strings())
    ensures r == old(SetResult(fdt, node, name, |value|))
    ensures r == 0 ==> old(Boundary(fdt.Struct(), node) && Place(fdt.Struct(), fdt.Strings(), node) < |Seen(fdt)|)
    ensures r == 0 ==> Seen(fdt) == old(SetEntry(Seen(fdt), Place(fdt.Struct(), fdt.Strings(), node), name, value))
    ensures Extends(old(fdt.Struct()), old(fdt.Strings()), old(CheckedNode(fdt.Struct(), node)), fdt.Struct(),
                    fdt.Strings())
    ensures r == 0 && old(Sound(fdt.Struct(), fdt.Strings())) ==> Sound(fdt.Struct(), fdt.Strings())
  {
    hide Boundary, Place, SetEntry, Over, Align4, Events, SetResult, Sound;
    ExtendsSelf(fdt.Struct(), fdt.Strings(), node);
    var p;
    r, p := Placeholder(fdt, node, name, |value|, value);
    if r == 0 {
      WriteStruct(fdt, p + 12, value);
    }
  }

  /** Room for a value, such that writing it completes the edit. */
  method Placeholder(fdt: Blob, node: int, name: Bytes, len: nat, ghost value: Bytes) returns (r: int, p: int)
    requires Readable(fdt) && Genuine(fdt, node) && IsName(name) && len == |value| < INT_MAX
    modifies fdt`sizeStruct, fdt`sizeStrings, fdt`offStrings, fdt.buf
    ensures Laid(fdt) && SameFront(fdt)
    ensures r != 0 ==> SameSizes(fdt) && fdt.Struct() == old(fdt.Struct()) && fdt.Strings() == old(fdt.Strings())
    ensures r == old(SetResult(fdt, node, name, |value|))
    ensures r == 0 ==> old(Boundary(fdt.Struct(), node) && Place(fdt.Struct(), fdt.Strings(), node) < |Seen(fdt)|)
    ensures r == 0 ==> p >= 0 && p + 12 + |value| <= fdt.sizeStruct
    ensures r == 0 ==> Events(Over(fdt.Struct(), p + 12, value), fdt.Strings()) ==
                       Some(old(SetEntry(Seen(fdt), Place(fdt.Struct(), fdt.Strings(), node), name, value)))
    ensures r == 0 ==> Extends(old(fdt.Struct()), old(fdt.Strings()), old(CheckedNode(fdt.Struct(), node)),
                               Over(fdt.Struct(), p + 12, value), fdt.Strings())
    ensures r == 0 && old(Sound(fdt.Struct(), fdt.Strings())) ==>
      Sound(Over(fdt.Struct(), p + 12, value), fdt.Strings())
  {
    hide First, Scan, Walk, Meaning, Events, TagAt, CheckedNode, PropFrom, Align4, NamedAt, Boundary, Made, Remade,
      Found, Place, SetEntry, Over, ResizeResult, AddResult, Sound, Blob.Struct, Blob.Strings;
    ghost var s, strings := fdt.Struct(), fdt.Strings();
    r, p := ResizeProperty(fdt, node, name, len);
    if r == 0 {
      SetResized(s, strings, node, fdt.Struct(), name, value);
      FoundAhead(s, strings, node, name);
      RemadeExtends(s, strings, CheckedNode(s, node), p, fdt.Struct(), name, value);
    } else if r == -ERR_NOTFOUND {
      NotFoundNode(s, strings, node, name);
      r, p := AddSlot(fdt, node, name, len, value);
    }
  }

  /** Room for the value of a property that the node does not have. */
  method AddSlot(fdt: Blob, node: int, name: Bytes, len: nat, ghost value: Bytes) returns (r: int, p: int)
    requires Readable(fdt) && Genuine(fdt, node) && IsName(name) && len == |value| < INT_MAX
    requires CheckedNode(fdt.Struct(), node) >= 0 && Found(fdt.Struct(), fdt.Strings(), node, name) < 0
    modifies fdt`sizeStruct, fdt`sizeStrings, fdt`offStrings, fdt.buf
    ensures Laid(fdt) && SameFront(fdt)
    ensures r != 0 ==> SameSizes(fdt) && fdt.Struct() == old(fdt.Struct()) && fdt.Strings() == old(fdt.Strings())
    ensures r == old(AddResult(fdt, name, len))
    ensures r == 0 ==> old(Boundary(fdt.Struct(), node) && Place(fdt.Struct(), fdt.Strings(), node) < |Seen(fdt)|)
    ensures r == 0 ==> p >= 0 && p + 12 + |value| <= fdt.sizeStruct
    ensures r == 0 ==> Events(Over(fdt.Struct(), p + 12, value), fdt.Strings()) ==
                       Some(old(SetEntry(Seen(fdt), Place(fdt.Struct(), fdt.Strings(), node), name, value)))
    ensures r == 0 ==> Extends(old(fdt.Struct()), old(fdt.Strings()), old(CheckedNode(fdt.Struct(), node)),
                               Over(fdt.Struct(), p + 12, value), fdt.Strings())
    ensures r == 0 && old(Sound(fdt.Struct(), fdt.Strings())) ==>
      Sound(Over(fdt.Struct(), p + 12, value), fdt.Strings())
  {
    hide First, Scan, Walk, Meaning, Events, TagAt, CheckedNode, PropFrom, Align4, Boundary, Made, Found, Place,
      SetEntry, Over, AddResult, Sound, Blob.Struct, Blob.Strings;
    ghost var s, strings := fdt.Struct(), fdt.Strings();
    ghost var more;
    r, p, more := AddProperty(fdt, node, name, len);
    if r == 0 {
      SetAdded(s, strings, node, fdt.Struct(), more, name, value);
      MadeExtends(s, strings, p, p, p, fdt.Struct(), more, len, name, value);
    }
  }

  /** Reads a property of a node. */
  method GetProp(fdt: Blob, node: int, name: Bytes) returns (r: Option<Bytes>)
    requires Readable(fdt) && Genuine(fdt, node) && CheckedNode(fdt.Struct(), node) >= 0
    ensures r == Lookup(Seen(fdt), Place(fdt.Struct(), fdt.Strings(), node), name)
  {
    hide First, Scan, Walk, Meaning, Events, TagAt, CheckedNode, PropFrom, NamedAt, Place, Boundary, Found, Align4;
    ghost var s, strings := fdt.Struct(), fdt.Strings();
    PropertyPlace(s, strings, node, name);
    var p := GetProperty(fdt, node, name);
    if p < 0 {
      return None;
    }
    FoundFacts(s, strings, node, name);
    var len := PropertyLength(fdt, p);
    ValueAt(s, strings, p, len);
    var at := fdt.offStruct + p + 12;
    Inner(fdt.buf[..], fdt.offStruct, fdt.offStruct + fdt.sizeStruct, p + 12, p + 12 + len);
    return Some(fdt.buf[at..at + len]);
  }

  lemma ValueAt(s: Bytes, strings: Bytes, p: nat, len: nat)
    requires Boundary(s, p) && Events(s, strings).Some? && TagAt(s, p).0 == PROP
    requires p + 12 + len <= |s| && First(s[p..]).Lex? && First(s[p..]).size == 12 + len
    ensures var ev := Events(s, strings).value; var k := Place(s, strings, p);
            k < |ev| && ev[k].Entry? && ev[k].value == s[p + 12..p + 12 + len]
  {
    hide First, Scan, Walk, Meaning, Events, TagAt, U32;
    EventsAt(s, strings, p);
    BoundaryAligned(s, p);
    PropertyTag(s, p);
    PropertyFields(s, p);
    EventsFirst(s, strings, p);
  }
}
