/**
 Finding the properties of a node.
 */
module FdtProps {
  import opened Basics
  import opened FdtFormat
  import opened FdtBlob
  import opened FdtNodes
  import opened FdtCheck

  // ---- in the bytes

  /** The first property from off on that is not behind another kind of tag. */
  ghost function NextPropFrom(s: Bytes, off: int): int
    decreases |s| - off
  {
    var (tag, next) := TagAt(s, off);
    if tag == END then (if next >= 0 then -ERR_BADSTRUCTURE else next)
    else if tag == PROP then off
    else if tag == NOP then NextPropFrom(s, next)
    else -ERR_NOTFOUND
  }

  ghost predicate NamedAt(s: Bytes, strings: Bytes, off: int, name: Bytes) {
    && 0 <= off <= |s| && First(s[off..]).Lex? && First(s[off..]).token.Property?
    && StringAt(strings, First(s[off..]).token.nameOff) == Some(name)
  }

  /** The first property with a name. */
  ghost function PropFrom(s: Bytes, strings: Bytes, off: int, name: Bytes): int
    decreases |s| - off
  {
    var (tag, next) := TagAt(s, off);
    if tag == END then (if next >= 0 then -ERR_BADSTRUCTURE else next)
    else if tag == PROP then (if NamedAt(s, strings, off, name) then off else PropFrom(s, strings, next, name))
    else if tag == NOP then PropFrom(s, strings, next, name)
    else -ERR_NOTFOUND
  }

  lemma {:induction false} PropStep(s: Bytes, strings: Bytes, off: int, name: Bytes)
    ensures var q := NextPropFrom(s, off);
            && PropFrom(s, strings, off, name) == (if q < 0 then q else PropFrom(s, strings, q, name))
            && (q >= 0 ==> off <= q && TagAt(s, q).0 == PROP && (off % 4 == 0 ==> q % 4 == 0))
    decreases |s| - off
  {
    hide First, NamedAt;
    if TagAt(s, off).0 == NOP {
      TagAligned(s, off);
      PropStep(s, strings, TagAt(s, off).1, name);
    }
  }

  method NextProp(fdt: Blob, start: nat) returns (r: int)
    requires fdt.StructIn()
    ensures r == NextPropFrom(fdt.Struct(), start)
  {
    hide First, TagAt;
    ghost var s := fdt.Struct();
    var offset := start;
    while true
      invariant offset >= 0 && NextPropFrom(s, start) == NextPropFrom(s, offset)
      decreases |s| - offset
    {
      TagStep(s, offset);
      var tag, next := fdt.SafeTag(offset);
      if tag == END {
        return if next >= 0 then -ERR_BADSTRUCTURE else next;
      } else if tag == PROP {
        return offset;
      }
      offset := next;
      if tag != NOP {
        return -ERR_NOTFOUND;
      }
    }
  }

  /** Compares the name at an offset of the strings block. */
  method StringEq(fdt: Blob, stroffset: nat, name: Bytes) returns (eq: bool)
    requires fdt.StringsIn() && fdt.magic == MAGIC && fdt.version >= 17 && fdt.totalSize < INT_MAX
    ensures eq == (StringAt(fdt.Strings(), stroffset) == Some(name))
  {
    hide StringAt;
    var len := GetString(fdt, stroffset);
    eq := false;
    if len == |name| {
      var at := fdt.offStrings + stroffset;
      Inner(fdt.buf[..], fdt.offStrings, fdt.offStrings + fdt.sizeStrings, stroffset, stroffset + len);
      eq := fdt.buf[at..at + len] == name;
    }
  }

  method NamedHere(fdt: Blob, offset: nat, name: Bytes) returns (eq: bool)
    requires fdt.StructIn() && fdt.StringsIn() && fdt.magic == MAGIC && fdt.version >= 17 && fdt.totalSize < INT_MAX
    requires TagAt(fdt.Struct(), offset).0 == PROP
    ensures eq == NamedAt(fdt.Struct(), fdt.Strings(), offset, name)
  {
    hide First, StringAt, U32, TagAt;
    PropertyTag(fdt.Struct(), offset);
    PropertyFields(fdt.Struct(), offset);
    fdt.WordAt(offset + 8);
    eq := StringEq(fdt, fdt.Word(fdt.offStruct + offset + 8), name);
  }

  /** The offset of the first property of a node with a name, or an error. */
  ghost function Found(s: Bytes, strings: Bytes, node: int, name: Bytes): int {
    if CheckedNode(s, node) < 0 then CheckedNode(s, node) else PropFrom(s, strings, CheckedNode(s, node), name)
  }

  method GetProperty(fdt: Blob, node: int, name: Bytes) returns (offset: int)
    requires fdt.StructIn() && fdt.StringsIn() && fdt.magic == MAGIC && fdt.version >= 17 && fdt.totalSize < INT_MAX
    ensures offset == Found(fdt.Struct(), fdt.Strings(), node, name)
  {
    hide First, TagAt, NamedAt, CheckedNode, NextPropFrom;
    ghost var s, strings := fdt.Struct(), fdt.Strings();
    offset := CheckNodeOffset(fdt, node);
    if offset < 0 {
      return;
    }
    CheckedFacts(s, node);
    PropStep(s, strings, offset, name);
    offset := NextProp(fdt, offset);
    while offset >= 0
      invariant offset >= 0 ==> offset % 4 == 0 && TagAt(s, offset).0 == PROP
      invariant Found(s, strings, node, name) == if offset < 0 then offset else PropFrom(s, strings, offset, name)
      decreases offset >= 0, |s| - offset
    {
      var eq := NamedHere(fdt, offset, name);
      if eq {
        return;
      }
      TagStep(s, offset);
      TagAligned(s, offset);
      var tag, next := fdt.SafeTag(offset);
      PropStep(s, strings, next, name);
      offset := NextProp(fdt, next);
    }
  }

  // ---- in the events

  /** The first entry with a name in the run of entries from i on. */
  ghost function FindEntry(ev: seq<Event>, i: nat, name: Bytes): (r: Option<nat>)
    ensures r.Some? ==> i <= r.value < |ev| && ev[r.value].Entry? && ev[r.value].name == name
    decreases |ev| - i
  {
    if i < |ev| && ev[i].Entry? then (if ev[i].name == name then Some(i) else FindEntry(ev, i + 1, name))
    else None
  }

  /** It is the first entry of that name, with nothing but entries in front of it. */
  lemma {:induction false} FirstEntry(ev: seq<Event>, i: nat, name: Bytes, j: nat)
    ensures FindEntry(ev, i, name) == Some(j) <==>
            && i <= j < |ev| && (forall k | i <= k <= j :: ev[k].Entry?)
            && ev[j].name == name && forall k | i <= k < j :: ev[k].name != name
    decreases |ev| - i
  {
    if i < |ev| && ev[i].Entry? && ev[i].name != name {
      FirstEntry(ev, i + 1, name, j);
    }
  }

  lemma {:induction false} FindBehind(a: seq<Event>, b: seq<Event>, i: nat, name: Bytes)
    ensures FindEntry(a + b, |a| + i, name) ==
            (if FindEntry(b, i, name).None? then None else Some(|a| + FindEntry(b, i, name).value))
    decreases |b| - i
  {
    if i < |b| {
      assert (a + b)[|a| + i] == b[i];
      FindBehind(a, b, i + 1, name);
    }
  }

  /** A token at the front and the events it stands for. */
  lemma EventsFirst(s: Bytes, strings: Bytes, off: nat)
    requires off % 4 == 0 && off <= |s| && Events(s[off..], strings).Some? && TagAt(s, off).0 != END
    ensures var f := First(s[off..]); var next := TagAt(s, off).1;
            && f.Lex? && off < next <= |s| && next % 4 == 0 && next == off + Align4(f.size)
            && Scan(s[off..next]) == Some([f.token]) && MeaningOf(f.token, strings).Some?
            && Events(s[next..], strings).Some?
            && Events(s[off..], strings).value == MeaningOf(f.token, strings).value + Events(s[next..], strings).value
  {
    hide First, Align4, Meaning, MeaningOf, Scan;
    TagFacts(s, off);
    var f := First(s[off..]);
    var next := TagAt(s, off).1;
    assert next <= |s|;
    assert s[off..][next - off..] == s[next..];
    ScanNone();
    assert s[next..next] == [];
    ScanCons(s, off, next, next);
    assert [f.token] + [] == [f.token];
    MeaningAppend([f.token], Walk(s[next..]).value, strings);
    MeaningOne(f.token, strings);
  }

  /** Where a search in the bytes ends up, in terms of the events. */
  lemma {:induction false} PropEvents(s: Bytes, strings: Bytes, off: nat, name: Bytes)
    requires off % 4 == 0 && off <= |s| && Events(s[off..], strings).Some?
    ensures var p := PropFrom(s, strings, off, name);
            p < 0 ==> FindEntry(Events(s[off..], strings).value, 0, name).None?
    ensures var p := PropFrom(s, strings, off, name);
            p >= 0 ==>
              && off <= p <= |s| && p % 4 == 0 && Scan(s[off..p]).Some? && Events(s[p..], strings).Some?
              && NamedAt(s, strings, p, name) && TagAt(s, p).0 == PROP
              && Meaning(Scan(s[off..p]).value, strings).Some?
              && FindEntry(Events(s[off..], strings).value, 0, name) ==
                Some(|Meaning(Scan(s[off..p]).value, strings).value|)
    decreases |s| - off
  {
    hide First, Scan, Meaning, Align4, NamedAt, MeaningOf, Walk, Events;
    var (tag, next) := TagAt(s, off);
    var ev := Events(s[off..], strings).value;
    if tag == END {
      NoEvents(s, strings, off);
    } else {
      EventsFirst(s, strings, off);
      var t := First(s[off..]).token;
      var rest := Events(s[next..], strings).value;
      TokenEvent(s, strings, off, name);
      if tag == PROP && NamedAt(s, strings, off, name) {
        assert s[off..off] == [];
        ScanNone();
        MeaningNone(strings);
      } else if tag == PROP || tag == NOP {
        PropEvents(s, strings, next, name);
        var one := MeaningOf(t, strings).value;
        FindBehind(one, rest, 0, name);
        var p := PropFrom(s, strings, next, name);
        if p >= 0 {
          ScanCons(s, off, next, p);
          MeaningAppend([t], Scan(s[next..p]).value, strings);
          MeaningOne(t, strings);
        }
      }
    }
  }

  lemma NoEvents(s: Bytes, strings: Bytes, off: nat)
    requires off <= |s| && Events(s[off..], strings).Some? && TagAt(s, off).0 == END
    ensures Events(s[off..], strings).value == []
  {
  }

  /** What a single tag contributes to a search. */
  lemma TokenEvent(s: Bytes, strings: Bytes, off: nat, name: Bytes)
    requires off <= |s| && TagAt(s, off).0 != END && MeaningOf(First(s[off..]).token, strings).Some?
    ensures var t := First(s[off..]).token; var one := MeaningOf(t, strings).value; var tag := TagAt(s, off).0;
            && (tag == NOP ==> one == [])
            && (tag == PROP ==>
                  |one| == 1 && one[0].Entry? && (NamedAt(s, strings, off, name) <==> one[0].name == name))
            && (tag != NOP && tag != PROP ==> |one| == 1 && !one[0].Entry?)
  {
  }
}
