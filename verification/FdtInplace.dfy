/**
 Overwriting a part of a property's value in place, and walking over the children and the
 properties of a node.
 */
module FdtInplace {
  import opened Basics
  import opened FdtFormat
  import opened FdtBlob
  import opened FdtNodes
  import opened FdtCheck
  import opened FdtSplice
  import opened FdtTree
  import opened FdtProps
  import opened FdtEdit
  import opened FdtEditOps
  import opened FdtForest
  import opened FdtTwin

  // ---- overwriting

  /**
   What overwriting n bytes at idx of a value returns. The sum is taken in 32-bit arithmetic: if it
   wraps around and then fits, the program writes behind the value.
   */
  function PartialResult(len: nat, idx: nat, n: nat): int {
    if idx + n <= len then 0
    else if (idx + n) % LIMIT32 <= len then OVERRUN
    else -ERR_NOSPACE
  }

  /** Offsets that leave room for the bytes below 2^32 cannot wrap around. */
  lemma NoOverrun(len: nat, idx: nat, n: nat)
    requires idx + n < LIMIT32
    ensures PartialResult(len, idx, n) != OVERRUN
  {
  }

  /** But the last ones do, for every value that has a byte. */
  lemma LastOffsetOverruns(len: nat)
    requires 1 <= len < LIMIT32
    ensures PartialResult(len, 0xffff_fffd, 4) == OVERRUN
  {
  }

  /** Overwrites a part of a property's value. */
  method SetInplacePartial(fdt: Blob, node: int, name: Bytes, idx: nat, val: Bytes) returns (err: int)
    requires Readable(fdt) && Genuine(fdt, node) && idx < LIMIT32 && |val| < INT_MAX
    modifies fdt.buf
    ensures err != 0 ==> Untouched(fdt)
    ensures var p := old(Found(fdt.Struct(), fdt.Strings(), node, name));
            err == if p < 0 then p else PartialResult(|old(ValueAt(fdt.Struct(), p))|, idx, |val|)
    ensures Readable(fdt) && SameFront(fdt) && fdt.Strings() == old(fdt.Strings())
    ensures err == 0 ==> var p := old(Found(fdt.Struct(), fdt.Strings(), node, name));
                         && 0 <= p && p + 12 + idx + |val| <= fdt.sizeStruct
                         && fdt.Struct() == Over(old(fdt.Struct()), p + 12 + idx, val)
    ensures err == 0 ==> old(PropertyEvent(fdt, node, name)) < |old(Seen(fdt))| && OnlyValue(fdt, node, name, idx, val)
  {
    hide First, Scan, Walk, Meaning, Events, TagAt, CheckedNode, PropFrom, NamedAt, Found, Place, Boundary, ValueAt,
      Over, Blob.Struct, Blob.Strings, Align4;
    ghost var s, strings := fdt.Struct(), fdt.Strings();
    var p := GetProperty(fdt, node, name);
    if p < 0 {
      return p;
    }
    FoundFacts(s, strings, node, name);
    ValueBytes(s, p);
    var len := ValueLength(fdt, p);
    if len < (|val| + idx) % LIMIT32 {
      return -ERR_NOSPACE;
    }
    if idx + |val| > len {
      return OVERRUN;
    }
    EventWritten(s, strings, p, idx, val);
    FoundEvent(s, strings, node, name);
    WriteStruct(fdt, p + 12 + idx, val);
    return 0;
  }

  /** Which event a property of a node is. */
  ghost function PropertyEvent(fdt: Blob, node: int, name: Bytes): nat
    requires Readable(fdt) && Genuine(fdt, node) && Found(fdt.Struct(), fdt.Strings(), node, name) >= 0
    reads fdt, fdt.buf
  {
    FoundFacts(fdt.Struct(), fdt.Strings(), node, name);
    Place(fdt.Struct(), fdt.Strings(), Found(fdt.Struct(), fdt.Strings(), node, name))
  }

  /** What a reader sees has changed in a part of that property's value and nowhere else. */
  twostate predicate OnlyValue(fdt: Blob, node: int, name: Bytes, idx: nat, val: Bytes)
    requires old(Readable(fdt) && Genuine(fdt, node) && Found(fdt.Struct(), fdt.Strings(), node, name) >= 0) &&
      Readable(fdt)
    reads fdt, fdt.buf
  {
    var j, ev := old(PropertyEvent(fdt, node, name)), old(Seen(fdt));
    && j < |ev| && ev[j].Entry? && ev[j].name == name && idx + |val| <= |ev[j].value|
    && Seen(fdt) == ev[j := Entry(name, Over(ev[j].value, idx, val))]
  }

  lemma FoundEvent(s: Bytes, strings: Bytes, node: int, name: Bytes)
    requires Events(s, strings).Some? && (CheckedNode(s, node) >= 0 ==> Boundary(s, node))
    requires Found(s, strings, node, name) >= 0
    ensures var p := Found(s, strings, node, name);
            && TagAt(s, p).0 == PROP && Boundary(s, p)
            && var ev, j := Events(s, strings).value, Place(s, strings, p);
               j < |ev| && ev[j] == Entry(name, ValueAt(s, p))
  {
    hide First, Scan, Walk, Meaning, Align4, StringAt, Place, Boundary, ValueAt, Events, TagAt;
    FoundFacts(s, strings, node, name);
    var p := Found(s, strings, node, name);
    SlotEvent(s, strings, p);
    FoundNamed(s, strings, node, name);
  }

  lemma FoundNamed(s: Bytes, strings: Bytes, node: int, name: Bytes)
    requires Found(s, strings, node, name) >= 0
    ensures NamedAt(s, strings, Found(s, strings, node, name), name)
  {
    hide First, TagAt, StringAt, NamedAt;
    PropNamed(s, strings, CheckedNode(s, node), name);
  }

  lemma {:induction false} PropNamed(s: Bytes, strings: Bytes, off: int, name: Bytes)
    requires PropFrom(s, strings, off, name) >= 0
    ensures NamedAt(s, strings, PropFrom(s, strings, off, name), name)
    decreases |s| - off
  {
    hide First, NamedAt;
    TagStep(s, off);
    var (tag, next) := TagAt(s, off);
    if tag == NOP || (tag == PROP && !NamedAt(s, strings, off, name)) {
      PropNamed(s, strings, next, name);
    }
  }

  method ValueLength(fdt: Blob, p: nat) returns (len: nat)
    requires fdt.StructIn() && TagAt(fdt.Struct(), p).0 == PROP
    ensures len == |ValueAt(fdt.Struct(), p)|
  {
    hide U32, First, TagAt, ValueAt;
    ValueBytes(fdt.Struct(), p);
    fdt.WordAt(p + 4);
    len := fdt.Word(fdt.offStruct + p + 4);
  }

  /** Overwrites the whole value of a property with one of the same length. */
  method SetInplace(fdt: Blob, node: int, name: Bytes, val: Bytes) returns (err: int)
    requires Readable(fdt) && Genuine(fdt, node) && |val| < INT_MAX
    modifies fdt.buf
    ensures err != 0 ==> Untouched(fdt)
    ensures var p := old(Found(fdt.Struct(), fdt.Strings(), node, name));
            err == if p < 0 then p else if |old(ValueAt(fdt.Struct(), p))| != |val| then -ERR_NOSPACE else 0
    ensures Readable(fdt) && SameFront(fdt) && fdt.Strings() == old(fdt.Strings())
    ensures err == 0 ==> var p := old(Found(fdt.Struct(), fdt.Strings(), node, name));
                         && 0 <= p && p + 12 + |val| <= fdt.sizeStruct &&
                           fdt.Struct() == Over(old(fdt.Struct()), p + 12, val)
    ensures err == 0 ==> old(PropertyEvent(fdt, node, name)) < |old(Seen(fdt))| && OnlyValue(fdt, node, name, 0, val)
  {
    hide First, Scan, Walk, Meaning, Events, TagAt, CheckedNode, PropFrom, NamedAt, Found, Place, Boundary, ValueAt,
      Over, Blob.Struct, Blob.Strings, PropertyEvent;
    ghost var s, strings := fdt.Struct(), fdt.Strings();
    var p := GetProperty(fdt, node, name);
    if p < 0 {
      return p;
    }
    FoundFacts(s, strings, node, name);
    var len := ValueLength(fdt, p);
    if len != |val| {
      return -ERR_NOSPACE;
    }
    err := SetInplacePartial(fdt, node, name, 0, val);
  }

  // ---- children

  /** Going from node to node is going from child to child. */
  lemma {:induction false} NodesAreKids(s: Bytes, off: int, d: nat)
    ensures var (o, d') := NodeFrom(s, off, d);
            d' <= d + 1 && KidFrom(s, off, d) ==
              (if o == ASTRAY then ASTRAY
               else if o < 0 || d' < 1 then -ERR_NOTFOUND
               else if d' == 1 then o
               else KidFrom(s, TagAt(s, o).1, d'))
    decreases |s| - off
  {
    hide First, TagAt;
    TagStep(s, off);
    var (tag, next) := TagAt(s, off);
    if tag == END_NODE && d > 0 {
      NodesAreKids(s, next, d - 1);
    } else if tag != END && tag != BEGIN_NODE && tag != END_NODE {
      NodesAreKids(s, next, d);
    }
  }

  method FirstSubnode(fdt: Blob, parent: nat) returns (r: int)
    requires fdt.StructIn() && NodeAt(fdt.Struct(), parent)
    ensures r == KidFrom(fdt.Struct(), CheckedNode(fdt.Struct(), parent), 0)
  {
    hide First, TagAt, KidFrom;
    ghost var s := fdt.Struct();
    NodesAreKids(s, CheckedNode(s, parent), 0);
    var offset, depth := NextNode(fdt, parent, 0);
    if offset == ASTRAY {
      return ASTRAY;
    }
    if offset < 0 || depth != 1 {
      return -ERR_NOTFOUND;
    }
    return offset;
  }

  method NextSubnode(fdt: Blob, start: nat) returns (r: int)
    requires fdt.StructIn() && NodeAt(fdt.Struct(), start)
    ensures r == KidFrom(fdt.Struct(), CheckedNode(fdt.Struct(), start), 1)
  {
    hide First, TagAt, KidFrom, CheckedNode, NodeFrom;
    ghost var s := fdt.Struct();
    var offset, depth := start, 1;
    while true
      invariant offset >= 0 && depth >= 1 && NodeAt(s, offset)
      invariant KidFrom(s, CheckedNode(s, start), 1) == KidFrom(s, CheckedNode(s, offset), depth)
      decreases |s| - offset
    {
      CheckedFacts(s, offset);
      NodesAreKids(s, CheckedNode(s, offset), depth);
      NodesAreTags(s, CheckedNode(s, offset), depth);
      offset, depth := NextNode(fdt, offset, depth);
      if offset == ASTRAY {
        return ASTRAY;
      }
      if offset < 0 || depth < 1 {
        return -ERR_NOTFOUND;
      }
      if depth <= 1 {
        return offset;
      }
      CheckedFacts(s, offset);
    }
  }

  // ---- properties

  method NextPropertyOffset(fdt: Blob, offset: int) returns (r: int)
    requires fdt.StructIn()
    ensures var s := fdt.Struct();
            r == if offset < 0 || offset % 4 != 0 then -ERR_BADOFFSET
                 else if Wraps(s, offset) then ASTRAY
                 else if TagAt(s, offset).0 != PROP then -ERR_BADOFFSET
                 else NextPropFrom(s, TagAt(s, offset).1)
  {
    hide First, TagAt, NextPropFrom;
    if offset < 0 || offset % 4 != 0 {
      return -ERR_BADOFFSET;
    }
    var tag, next := fdt.SafeTag(offset);
    TagStep(fdt.Struct(), offset);
    if next == ASTRAY {
      return ASTRAY;
    }
    if tag != PROP {
      return -ERR_BADOFFSET;
    }
    r := NextProp(fdt, next);
  }

  method NameOffset(fdt: Blob, p: nat) returns (o: nat)
    requires fdt.StructIn() && TagAt(fdt.Struct(), p).0 == PROP
    ensures p <= |fdt.Struct()| && First(fdt.Struct()[p..]).Lex? && First(fdt.Struct()[p..]).token.Property?
    ensures o == First(fdt.Struct()[p..]).token.nameOff
  {
    hide U32, First, TagAt;
    PropertyTag(fdt.Struct(), p);
    PropertyFields(fdt.Struct(), p);
    fdt.WordAt(p + 8);
    o := fdt.Word(fdt.offStruct + p + 8);
  }

  method StringBytes(fdt: Blob, o: nat) returns (name: Bytes)
    requires fdt.StringsIn() && fdt.magic == MAGIC && fdt.version >= 17 && fdt.totalSize < INT_MAX
    requires StringAt(fdt.Strings(), o).Some?
    ensures name == StringAt(fdt.Strings(), o).value
  {
    hide StringAt;
    var len := GetString(fdt, o);
    Inner(fdt.buf[..], fdt.offStrings, fdt.offStrings + fdt.sizeStrings, o, o + len);
    name := fdt.buf[fdt.offStrings + o..fdt.offStrings + o + len];
  }

  /** The name of the property at an offset. */
  method PropertyName(fdt: Blob, p: nat) returns (name: Bytes)
    requires fdt.StructIn() && fdt.StringsIn() && fdt.magic == MAGIC && fdt.version >= 17 && fdt.totalSize < INT_MAX
    requires TagAt(fdt.Struct(), p).0 == PROP && StringAt(fdt.Strings(), First(fdt.Struct()[p..]).token.nameOff).Some?
    ensures p <= |fdt.Struct()| && name == TokenName(First(fdt.Struct()[p..]).token, fdt.Strings())
  {
    hide First, TagAt, StringAt, Blob.Struct, Blob.Strings;
    var o := NameOffset(fdt, p);
    name := StringBytes(fdt, o);
  }

  /** The name of the node at an offset. */
  method NodeName(fdt: Blob, off: nat) returns (name: Bytes)
    requires fdt.StructIn() && NodeAt(fdt.Struct(), off)
    ensures name == NameAt(fdt.Struct(), off)
  {
    hide First, TagAt, NodeAt, NameAt;
    var len := GetName(fdt, off);
    var at := fdt.offStruct + off + 4;
    Inner(fdt.buf[..], fdt.offStruct, fdt.offStruct + fdt.sizeStruct, off + 4, off + 4 + len);
    name := fdt.buf[at..at + len];
  }
}
