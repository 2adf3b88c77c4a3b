/**
 Merging a node of an overlay into a node of the base tree, from blob to blob.
 */
module FdtApply {
  import opened Basics
  import opened FdtFormat
  import opened FdtBlob
  import opened FdtNodes
  import opened FdtCheck
  import opened FdtSplice
  import opened FdtTree
  import opened FdtProps
  import opened FdtEdit
  import opened FdtEditOps
  import FdtSet
  import opened FdtForest
  import opened FdtTwin
  import opened FdtInplace
  import opened FdtOverlay
  import opened FdtAdjust
  import opened FdtMerge
  import opened FdtMergeReads
  import opened FdtSubnode

  // ---- what a node of the overlay holds

  /** The properties of a node in front of its children, and its children. */
  ghost function Held(n: Node, vals: Values): (items: seq<Item>)
    ensures |items| == |n.props| + |n.kids|
    decreases n, 1
  {
    PropsHeld(n.props, vals) + KidsHeld(n.kids, vals)
  }

  ghost function SettingOf(q: Prop, vals: Values): Item {
    Setting(q.name, if q.slot < |vals| then vals[q.slot] else [])
  }

  ghost function PropsHeld(ps: seq<Prop>, vals: Values): (items: seq<Item>)
    ensures |items| == |ps|
  {
    if ps == [] then [] else [SettingOf(ps[0], vals)] + PropsHeld(ps[1..], vals)
  }

  ghost function KidsHeld(ks: seq<Node>, vals: Values): (items: seq<Item>)
    ensures |items| == |ks|
    decreases ks
  {
    if ks == [] then []
    else
      assert ks[0] in ks;
      [Sub(ks[0].name, Held(ks[0], vals))] + KidsHeld(ks[1..], vals)
  }

  lemma {:induction false} PropsHeldAt(ps: seq<Prop>, vals: Values, i: nat)
    requires i < |ps|
    ensures PropsHeld(ps, vals)[i] == SettingOf(ps[i], vals)
    decreases i
  {
    if i > 0 {
      PropsHeldAt(ps[1..], vals, i - 1);
    }
  }

  lemma {:induction false} KidsHeldAt(ks: seq<Node>, vals: Values, k: nat)
    requires k < |ks|
    ensures KidsHeld(ks, vals)[k] == Sub(ks[k].name, Held(ks[k], vals))
    decreases k
  {
    hide Held;
    if k > 0 {
      KidsHeldAt(ks[1..], vals, k - 1);
    }
  }

  // ---- a node of the base tree

  /** The node at an offset holds those items, with that before and behind it. */
  ghost predicate HoldsAt(s: Bytes, strings: Bytes, node: int, x: seq<Event>, nm: Bytes, items: seq<Item>,
      y: seq<Event>)
  {
    && Events(s, strings).Some? && Boundary(s, node) && CheckedNode(s, node) >= 0
    && Events(s, strings).value == Framed(x, nm, items, y) && Place(s, strings, node) == |x|
  }

  ghost predicate Holds(fdt: Blob, node: int, x: seq<Event>, nm: Bytes, items: seq<Item>, y: seq<Event>)
    reads fdt, fdt.buf
  {
    Readable(fdt) && HoldsAt(fdt.Struct(), fdt.Strings(), node, x, nm, items, y)
  }

  lemma {:induction false} HoldsFacts(fdt: Blob, node: int, x: seq<Event>, nm: Bytes, items: seq<Item>, y: seq<Event>)
    requires Holds(fdt, node, x, nm, items, y)
    ensures Readable(fdt) && Laid(fdt) && Genuine(fdt, node) && CheckedNode(fdt.Struct(), node) >= 0 && node >= 0
    ensures Boundary(fdt.Struct(), node)
    ensures Seen(fdt) == Framed(x, nm, items, y) && Place(fdt.Struct(), fdt.Strings(), node) == |x|
  {
    hide Events, CheckedNode, Place, Framed;
  }

  /** The node after an edit behind its name. */
  lemma {:induction false} Onward(s: Bytes, strings: Bytes, t: Bytes, more: Bytes, node: int, x: seq<Event>, nm: Bytes,
      items: seq<Item>, its: seq<Item>, y: seq<Event>)
    requires HoldsAt(s, strings, node, x, nm, items, y) && Extends(s, strings, CheckedNode(s, node), t, more)
    requires Events(t, more).Some? && Events(t, more).value == Framed(x, nm, its, y)
    ensures HoldsAt(t, more, node, x, nm, its, y) && CheckedNode(t, node) == CheckedNode(s, node)
  {
    hide Events, CheckedNode, Place, Framed, Boundary, Extends;
    BoundaryIn(s, node);
    StillThere(s, strings, node, t, more);
  }

  lemma {:induction false} BoundaryIn(s: Bytes, off: int)
    requires Boundary(s, off)
    ensures 0 <= off <= |s|
  {
  }

  lemma {:induction false} ExtendsOn(s: Bytes, strings: Bytes, b: int, t: Bytes, more: Bytes, u: Bytes, most: Bytes)
    requires Extends(s, strings, b, t, more) && Extends(t, more, b, u, most)
    ensures Extends(s, strings, b, u, most)
  {
    if b >= 0 {
      assert most[..|strings|] == most[..|more|][..|strings|] == more[..|strings|];
    }
  }

  lemma {:induction false} ExtendsLess(s: Bytes, strings: Bytes, b: int, c: int, t: Bytes, more: Bytes)
    requires Extends(s, strings, c, t, more) && 0 <= b <= c
    ensures Extends(s, strings, b, t, more)
  {
    assert t[..b] == t[..c][..b] && s[..b] == s[..c][..b];
  }

  /**
   The blob after some edits of the node, the blocks before them being s, strings and front: nothing
   up to the node's name has changed, and what was accepted is still accepted.
   */
  ghost predicate Stage(fdt: Blob, s: Bytes, strings: Bytes, front: Bytes, node: int, x: seq<Event>, nm: Bytes,
                        items: seq<Item>, y: seq<Event>)
    reads fdt, fdt.buf
  {
    && Holds(fdt, node, x, nm, items, y)
    && fdt.offStruct <= fdt.buf.Length && fdt.buf[..fdt.offStruct] == front
    && CheckedNode(fdt.Struct(), node) == CheckedNode(s, node)
    && Extends(s, strings, CheckedNode(s, node), fdt.Struct(), fdt.Strings())
    && (Sound(s, strings) ==> Sound(fdt.Struct(), fdt.Strings()))
  }

  lemma {:induction false} StageFacts(fdt: Blob, s: Bytes, strings: Bytes, front: Bytes, node: int, x: seq<Event>,
      nm: Bytes,
      items: seq<Item>, y: seq<Event>)
    requires Stage(fdt, s, strings, front, node, x, nm, items, y)
    ensures Holds(fdt, node, x, nm, items, y) && Laid(fdt) && FrontOf(fdt) == front
    ensures CheckedNode(fdt.Struct(), node) == CheckedNode(s, node) >= 0
    ensures Extends(s, strings, CheckedNode(s, node), fdt.Struct(), fdt.Strings())
    ensures Sound(s, strings) ==> Sound(fdt.Struct(), fdt.Strings())
  {
    hide CheckedNode, Extends, Sound, Events, Framed, Boundary, Place;
  }

  lemma {:induction false} FirstStage(fdt: Blob, node: int, x: seq<Event>, nm: Bytes, items: seq<Item>, y: seq<Event>)
    requires Holds(fdt, node, x, nm, items, y)
    ensures Stage(fdt, fdt.Struct(), fdt.Strings(), FrontOf(fdt), node, x, nm, items, y)
  {
    hide CheckedNode, Extends, Sound, Events, Framed, Boundary, Place;
    FdtSet.ExtendsSelf(fdt.Struct(), fdt.Strings(), node);
  }

  /** One stage after another. */
  lemma {:induction false} NextStage(fdt: Blob, s: Bytes, strings: Bytes, ms: Bytes, mstrings: Bytes, front: Bytes,
      node: int,
      x: seq<Event>, nm: Bytes, items: seq<Item>, y: seq<Event>)
    requires CheckedNode(ms, node) == CheckedNode(s, node)
    requires Extends(s, strings, CheckedNode(s, node), ms, mstrings) && (Sound(s, strings) ==> Sound(ms, mstrings))
    requires Stage(fdt, ms, mstrings, front, node, x, nm, items, y)
    ensures Stage(fdt, s, strings, front, node, x, nm, items, y)
  {
    hide CheckedNode, Extends, Sound, Events, Framed, Boundary, Place;
    ExtendsOn(s, strings, CheckedNode(s, node), ms, mstrings, fdt.Struct(), fdt.Strings());
  }

  // ---- properties

  /** The probe of the editing functions lets every readable blob through. */
  lemma {:induction false} ProbeOk(fdt: Blob)
    requires Laid(fdt)
    ensures RwProbe(fdt) == 0
  {
  }

  /** A search for a property that the node does not have stops at what follows the properties. */
  lemma {:induction false} PropMissing(s: Bytes, strings: Bytes, off: nat, name: Bytes)
    requires off % 4 == 0 && off <= |s| && Events(s[off..], strings).Some?
    requires EntriesEnd(Events(s[off..], strings).value, 0) < |Events(s[off..], strings).value|
    ensures PropFrom(s, strings, off, name) < 0 ==> PropFrom(s, strings, off, name) == -ERR_NOTFOUND
    decreases |s| - off
  {
    hide First, Scan, Meaning, Align4, MatchAt, MeaningOf, Walk, Events, Matches, NamedAt;
    var (tag, next) := TagAt(s, off);
    if tag == END {
      NoEvents(s, strings, off);
    } else {
      EventsFirst(s, strings, off);
      var t := First(s[off..]).token;
      var one, rest := MeaningOf(t, strings).value, Events(s[next..], strings).value;
      TokenSub(s, strings, off, []);
      if tag == PROP || tag == NOP {
        EndBehind(one, rest, 0);
        PropMissing(s, strings, next, name);
      }
    }
  }

  lemma {:induction false} FoundCode(s: Bytes, strings: Bytes, node: int, x: seq<Event>, nm: Bytes, items: seq<Item>,
      y: seq<Event>, name: Bytes)
    requires HoldsAt(s, strings, node, x, nm, items, y)
    ensures Found(s, strings, node, name) >= 0 || Found(s, strings, node, name) == -ERR_NOTFOUND
  {
    hide Scan, Meaning, Walk, Events, CheckedNode, PropFrom, Framed, EntriesEnd, SubIn;
    NodeFirst(s, strings, node);
    var b, ev := CheckedNode(s, node), Events(s, strings).value;
    EventsAt(s, strings, b);
    var a := Meaning(Scan(s[..b]).value, strings).value;
    EndBehind(a, Events(s[b..], strings).value, 0);
    SubFramed(x, nm, items, y, []);
    FramedParts(x, nm, items, y);
    LeadShort(items);
    PropMissing(s, strings, b, name);
  }

  lemma {:induction false} LeadShort(items: seq<Item>)
    ensures Lead(items) <= |Flat(items)|
  {
    hide Flat, Lead;
    FlatSplit(items, Lead(items));
    FlatSettings(items, Lead(items));
  }

  /** The bytes of a property's value. */
  method ValueRead(fdt: Blob, p: nat) returns (v: Bytes)
    requires fdt.StructIn() && TagAt(fdt.Struct(), p).0 == PROP
    ensures v == ValueAt(fdt.Struct(), p) && |v| < fdt.totalSize
  {
    hide U32, First, TagAt, ValueAt;
    ghost var s := fdt.Struct();
    ValueBytes(s, p);
    var len := ValueLength(fdt, p);
    var at := fdt.offStruct + p + 12;
    Inner(fdt.buf[..], fdt.offStruct, fdt.offStruct + fdt.sizeStruct, p + 12, p + 12 + len);
    v := fdt.buf[at..at + len];
  }

  /** A property as the overlay has it. */
  method PropertyRead(fdto: Blob, prop: nat, ghost n: Node, ghost i: nat) returns (name: Bytes, value: Bytes)
    requires Sees(fdto, n) && i < |n.props| && n.props[i].slot == prop
    ensures Laid(fdto) && Setting(name, value) == SettingOf(n.props[i], Vals(fdto)) && IsName(name) && |value| < INT_MAX
  {
    hide First, TagAt, Boundary, ValueAt, Here, Events, StringAt, NextPropFrom, CheckedNode, Blob.Struct, Blob.Strings;
    PropHere(fdto.Struct(), fdto.Strings(), n, i);
    name := PropertyName(fdto, prop);
    PropertyTag(fdto.Struct(), prop);
    StringIsName(fdto.Strings(), First(fdto.Struct()[prop..]).token);
    value := ValueRead(fdto, prop);
  }

  lemma {:induction false} StringIsName(strings: Bytes, t: Token)
    requires t.Property? && StringAt(strings, t.nameOff).Some?
    ensures IsName(TokenName(t, strings))
  {
  }

  /** What setting a property does to the node. */
  lemma {:induction false} SetStep(s: Bytes, strings: Bytes, t: Bytes, more: Bytes, node: int, x: seq<Event>, nm: Bytes,
      items: seq<Item>, y: seq<Event>, name: Bytes, value: Bytes)
    requires HoldsAt(s, strings, node, x, nm, items, y) && Extends(s, strings, CheckedNode(s, node), t, more)
    requires |x| < |Events(s, strings).value|
    requires Events(t, more) == Some(SetEntry(Events(s, strings).value, |x|, name, value))
    ensures HoldsAt(t, more, node, x, nm, MergeOne(items, Setting(name, value)), y)
    ensures CheckedNode(t, node) == CheckedNode(s, node)
  {
    hide Events, CheckedNode, Framed, Extends, SetEntry, SetItem, Boundary, Place;
    SetFlat(x, nm, items, y, name, value);
    MergedSetting(items, name, value);
    Onward(s, strings, t, more, node, x, nm, items, SetItem(items, name, value), y);
  }

  /** Sets one property of the overlay's node. */
  method ApplyProp(fdt: Blob, target: int, name: Bytes, value: Bytes, ghost x: seq<Event>, ghost nm: Bytes,
                   ghost items: seq<Item>, ghost y: seq<Event>)
    returns (r: int, ghost now: seq<Item>)
    requires Holds(fdt, target, x, nm, items, y) && IsName(name) && |value| < INT_MAX
    modifies fdt`sizeStruct, fdt`sizeStrings, fdt`offStrings, fdt.buf
    ensures r == 0 || r == -ERR_NOSPACE
    ensures now == if r == 0 then MergeOne(items, Setting(name, value)) else items
    ensures Stage(fdt, old(fdt.Struct()), old(fdt.Strings()), old(FrontOf(fdt)), target, x, nm, now, y)
  {
    hide Events, CheckedNode, Framed, Extends, SetEntry, MergeOne, Boundary, Place, Sound, HoldsAt, Found, SameReserved,
      FdtSet.ResizeResult, FdtSet.AddResult;
    HoldsFacts(fdt, target, x, nm, items, y);
    ghost var s, strings := fdt.Struct(), fdt.Strings();
    FoundCode(s, strings, target, x, nm, items, y, name);
    ProbeOk(fdt);
    r := FdtSet.SetProp(fdt, target, name, value);
    if r == 0 {
      SetStep(s, strings, fdt.Struct(), fdt.Strings(), target, x, nm, items, y, name, value);
      now := MergeOne(items, Setting(name, value));
    } else {
      Onward(s, strings, fdt.Struct(), fdt.Strings(), target, x, nm, items, items, y);
      now := items;
    }
  }

  /** Sets the properties of the overlay's node. */
  method ApplyProps(fdt: Blob, target: int, fdto: Blob, node: nat, ghost n: Node, ghost x: seq<Event>, ghost nm: Bytes,
                    ghost items: seq<Item>, ghost y: seq<Event>)
    returns (r: int, ghost now: seq<Item>)
    requires fdt != fdto && fdt.buf != fdto.buf && Sees(fdto, n) && n.at == node
    requires Holds(fdt, target, x, nm, items, y)
    modifies fdt`sizeStruct, fdt`sizeStrings, fdt`offStrings, fdt.buf
    ensures r == 0 || r == -ERR_NOSPACE
    ensures Laid(fdto) && (r == 0 ==> now == MergeTo(items, Held(n, Vals(fdto)), |n.props|))
    ensures Stage(fdt, old(fdt.Struct()), old(fdt.Strings()), old(FrontOf(fdt)), target, x, nm, now, y)
  {
    hide First, TagAt, Boundary, Here, Events, ValuesOf, MergeOne, StringAt, Blob.Struct, Blob.Strings, Sees,
      NextPropFrom, CheckedNode, ValueAt, Stage, Holds, Sound, Extends, Held, MergeTo, SettingOf, Framed, Place,
        Readable;
    SeesFacts(fdto, n);
    MergeNone(items, Held(n, Vals(fdto)));
    HoldsFacts(fdt, target, x, nm, items, y);
    FirstStage(fdt, target, x, nm, items, y);
    ghost var s, strings, front := fdt.Struct(), fdt.Strings(), FrontOf(fdt);
    ghost var over := Held(n, Vals(fdto));
    now := items;
    ghost var i := 0;
    FirstProp(fdto.Struct(), fdto.Strings(), n);
    var b := CheckNodeOffset(fdto, node);
    var prop := NextProp(fdto, b);
    while prop >= 0
      invariant 0 <= i <= |n.props| && prop == if i < |n.props| then n.props[i].slot else -ERR_NOTFOUND
      invariant Sees(fdto, n) && Laid(fdto) && over == Held(n, Vals(fdto)) && now == MergeTo(items, over, i)
      invariant Stage(fdt, s, strings, front, target, x, nm, now, y)
      decreases |n.props| - i
    {
      SeesFacts(fdto, n);
      StageFacts(fdt, s, strings, front, target, x, nm, now, y);
      ghost var ms, mstrings := fdt.Struct(), fdt.Strings();
      HeldIs(n, Vals(fdto), i);
      var name, value := PropertyRead(fdto, prop, n, i);
      MergeStep(items, over, i + 1);
      r, now := ApplyProp(fdt, target, name, value, x, nm, now, y);
      NextStage(fdt, s, strings, ms, mstrings, front, target, x, nm, now, y);
      if r != 0 {
        return;
      }
      i := i + 1;
      PropHere(fdto.Struct(), fdto.Strings(), n, i - 1);
      prop := NextPropertyOffset(fdto, prop);
    }
    r := 0;
  }

  lemma {:induction false} HeldIs(n: Node, vals: Values, i: nat)
    requires i < |n.props|
    ensures Held(n, vals)[i] == SettingOf(n.props[i], vals)
  {
    hide SettingOf;
    PropsHeldAt(n.props, vals, i);
  }

  lemma {:induction false} MergeNone(items: seq<Item>, over: seq<Item>)
    ensures MergeTo(items, over, 0) == items
  {
  }

  // ---- children

  /** A child that the node has. */
  lemma {:induction false} OldKid(s: Bytes, strings: Bytes, node: int, x: seq<Event>, nm: Bytes, items: seq<Item>,
      y: seq<Event>, name: Bytes)
    requires HoldsAt(s, strings, node, x, nm, items, y) && SubNode(s, node, name) >= 0
    ensures FindSub(items, 0, name).Some?
    ensures var p, j := SubNode(s, node, name), FindSub(items, 0, name).value;
            && CheckedNode(s, node) <= p <= CheckedNode(s, p)
            && HoldsAt(s, strings, p, x + [Open(nm)] + Flat(items[..j]), items[j].name, items[j].items,
                       Flat(items[j + 1..]) + ([Close] + y))
  {
    hide Events, CheckedNode, Framed, Boundary, Place, SubNode, SubIn, FindSub, Flat, EntriesEnd, Lead;
    SubPlace(s, strings, node, name);
    SubFramed(x, nm, items, y, name);
    var j := FindSub(items, 0, name).value;
    KidInside(x, nm, items, y, j, []);
    NodeFirst(s, strings, SubNode(s, node, name));
  }

  lemma {:induction false} NoKid(s: Bytes, strings: Bytes, node: int, x: seq<Event>, nm: Bytes, items: seq<Item>,
      y: seq<Event>, name: Bytes)
    requires HoldsAt(s, strings, node, x, nm, items, y) && SubNode(s, node, name) < 0
    ensures FindSub(items, 0, name).None?
  {
    hide Events, CheckedNode, Framed, Boundary, Place, SubNode, SubIn, FindSub, Flat, EntriesEnd, Lead;
    SubPlace(s, strings, node, name);
    SubFramed(x, nm, items, y, name);
  }

  /** A child that has been added. */
  lemma {:induction false} NewKid(t: Bytes, strings: Bytes, p: int, x: seq<Event>, nm: Bytes, items: seq<Item>,
      y: seq<Event>, name: Bytes)
    requires Events(t, strings).Some? && Boundary(t, p) && CheckedNode(t, p) >= 0
    requires var ev := Framed(x, nm, items, y); var m := EntriesEnd(ev, |x| + 1);
             Events(t, strings).value == AddNode(ev, m, name) && Place(t, strings, p) == m
    ensures var k := Lead(items);
            HoldsAt(t, strings, p, x + [Open(nm)] + Flat(items[..k]), name, [], Flat(items[k..]) + ([Close] + y))
    ensures p <= CheckedNode(t, p)
  {
    hide Events, CheckedNode, Framed, Boundary, Place, SubIn, FindSub, Flat, EntriesEnd, Lead, AddNode;
    SubFramed(x, nm, items, y, name);
    NewInside(x, nm, items, y, name);
    NodeFirst(t, strings, p);
  }

  /** The node with a child changed. */
  ghost function WithKid(items: seq<Item>, name: Bytes, its: seq<Item>): seq<Item> {
    var j, k := FindSub(items, 0, name), Lead(items);
    if j.Some? then items[j.value := Sub(items[j.value].name, its)]
    else items[..k] + [Sub(name, its)] + items[k..]
  }

  /** Where the child is among what is around it. */
  ghost function KidBefore(items: seq<Item>, name: Bytes, x: seq<Event>, nm: Bytes): seq<Event> {
    var j := FindSub(items, 0, name);
    x + [Open(nm)] + Flat(items[..if j.Some? then j.value else Lead(items)])
  }

  ghost function KidBehind(items: seq<Item>, name: Bytes, y: seq<Event>): seq<Event> {
    var j := FindSub(items, 0, name);
    Flat(items[if j.Some? then j.value + 1 else Lead(items)..]) + ([Close] + y)
  }

  ghost function KidName(items: seq<Item>, name: Bytes): Bytes {
    var j := FindSub(items, 0, name);
    if j.Some? then items[j.value].name else name
  }

  lemma {:induction false} KidFramed(items: seq<Item>, name: Bytes, x: seq<Event>, nm: Bytes, y: seq<Event>,
      its: seq<Item>)
    ensures Framed(KidBefore(items, name, x, nm), KidName(items, name), its, KidBehind(items, name, y)) ==
            Framed(x, nm, WithKid(items, name, its), y)
  {
    hide Framed, FindSub, Flat, Lead;
    var j := FindSub(items, 0, name);
    if j.Some? {
      KidInside(x, nm, items, y, j.value, its);
    } else {
      NewFilled(x, nm, items, y, name, its);
    }
  }

  lemma {:induction false} KidMerged(items: seq<Item>, name: Bytes, its: seq<Item>)
    ensures WithKid(items, name, Merge(KidItems(items, name), its)) == MergeOne(items, Sub(name, its))
  {
    hide FindSub, Lead, Merge;
  }

  /** The child of the base node that a child of the overlay's node goes into; it is added if there is none. */
  method FindOrAdd(fdt: Blob, target: int, name: Bytes, ghost x: seq<Event>, ghost nm: Bytes, ghost items: seq<Item>,
                   ghost y: seq<Event>)
    returns (r: int)
    requires Holds(fdt, target, x, nm, items, y) && IsName(name)
    modifies fdt`sizeStruct, fdt`offStrings, fdt.buf
    ensures Laid(fdt) && (r >= 0 || r == -ERR_NOSPACE)
    ensures r < 0 ==> Stage(fdt, old(fdt.Struct()), old(fdt.Strings()), old(FrontOf(fdt)), target, x, nm, items, y)
    ensures r >= 0 ==>
      && Holds(fdt, r, KidBefore(items, name, x, nm), KidName(items, name), KidItems(items, name),
               KidBehind(items, name, y))
      && old(CheckedNode(fdt.Struct(), target)) <= r <= CheckedNode(fdt.Struct(), r)
      && FrontOf(fdt) == old(FrontOf(fdt))
      && Extends(old(fdt.Struct()), old(fdt.Strings()), old(CheckedNode(fdt.Struct(), target)), fdt.Struct(),
                 fdt.Strings())
      && (old(Sound(fdt.Struct(), fdt.Strings())) ==> Sound(fdt.Struct(), fdt.Strings()))
  {
    hide Events, CheckedNode, Framed, Boundary, Place, SubNode, SubIn, FindSub, Flat, EntriesEnd, Lead, AddNode,
      Extends,
      Sound, HoldsAt, RoomForNode;
    HoldsFacts(fdt, target, x, nm, items, y);
    FirstStage(fdt, target, x, nm, items, y);
    ghost var s, strings := fdt.Struct(), fdt.Strings();
    r := AddSubnode(fdt, target, name);
    if r == -ERR_EXISTS {
      r := SubnodeOffset(fdt, target, name);
      OldKid(s, strings, target, x, nm, items, y, name);
    } else if r >= 0 {
      NoKid(s, strings, target, x, nm, items, y, name);
      NewKid(fdt.Struct(), fdt.Strings(), r, x, nm, items, y, name);
    }
  }

  /** Edits of the child are edits of the node. */
  lemma {:induction false} KidStage(fdt: Blob, s: Bytes, strings: Bytes, front: Bytes, ms: Bytes, mstrings: Bytes,
      node: int, kid: int,
      x: seq<Event>, nm: Bytes, items: seq<Item>, y: seq<Event>, name: Bytes, its: seq<Item>)
    requires HoldsAt(s, strings, node, x, nm, items, y) && CheckedNode(s, node) <= CheckedNode(ms, kid)
    requires Extends(s, strings, CheckedNode(s, node), ms, mstrings) && (Sound(s, strings) ==> Sound(ms, mstrings))
    requires Stage(fdt, ms, mstrings, front, kid, KidBefore(items, name, x, nm), KidName(items, name), its,
                   KidBehind(items, name, y))
    ensures Stage(fdt, s, strings, front, node, x, nm, WithKid(items, name, its), y)
  {
    hide Events, CheckedNode, Framed, Boundary, Place, Extends, Sound, KidBefore, KidName, KidBehind, WithKid;
    ExtendsLess(ms, mstrings, CheckedNode(s, node), CheckedNode(ms, kid), fdt.Struct(), fdt.Strings());
    ExtendsOn(s, strings, CheckedNode(s, node), ms, mstrings, fdt.Struct(), fdt.Strings());
    KidFramed(items, name, x, nm, y, its);
    Onward(s, strings, fdt.Struct(), fdt.Strings(), node, x, nm, items, WithKid(items, name, its), y);
  }

  lemma {:induction false} NameHere(s: Bytes, strings: Bytes, n: Node)
    requires Here(s, strings, n)
    ensures NodeAt(s, n.at) && NameAt(s, n.at) == n.name && IsName(n.name)
  {
    hide First, Props, Forest, Boundary, CheckedNode;
    NoZero(s, n.at);
  }

  /** Merges a child of the overlay's node. */
  method ApplyKid(fdt: Blob, target: int, fdto: Blob, child: nat, ghost kid: Node, ghost x: seq<Event>, ghost nm: Bytes,
                  ghost items: seq<Item>, ghost y: seq<Event>)
    returns (r: int, ghost now: seq<Item>)
    requires fdt != fdto && fdt.buf != fdto.buf && Sees(fdto, kid) && kid.at == child
    requires Holds(fdt, target, x, nm, items, y)
    modifies fdt`sizeStruct, fdt`sizeStrings, fdt`offStrings, fdt.buf
    ensures r == 0 || r == -ERR_NOSPACE
    ensures Laid(fdto) && (r == 0 ==> now == MergeOne(items, Sub(kid.name, Held(kid, Vals(fdto)))))
    ensures Stage(fdt, old(fdt.Struct()), old(fdt.Strings()), old(FrontOf(fdt)), target, x, nm, now, y)
    decreases kid, 1
  {
    hide First, TagAt, Boundary, Here, Events, ValuesOf, MergeOne, Blob.Struct, Blob.Strings, Sees, CheckedNode, Stage,
      HoldsAt, Sound, Extends, Held, Framed, Place, NameAt, NodeAt, KidBefore, KidName, KidItems, KidBehind, WithKid;
    SeesFacts(fdto, kid);
    NameHere(fdto.Struct(), fdto.Strings(), kid);
    HoldsFacts(fdt, target, x, nm, items, y);
    ghost var s, strings, front := fdt.Struct(), fdt.Strings(), FrontOf(fdt);
    var name := NodeName(fdto, child);
    r := FindOrAdd(fdt, target, name, x, nm, items, y);
    now := items;
    if r < 0 {
      return;
    }
    ghost var ms, mstrings, nnode := fdt.Struct(), fdt.Strings(), r;
    ghost var its;
    r, its := ApplyNode(fdt, r, fdto, child, kid, KidBefore(items, name, x, nm), KidName(items, name),
                        KidItems(items, name), KidBehind(items, name, y));
    KidStage(fdt, s, strings, front, ms, mstrings, target, nnode, x, nm, items, y, name, its);
    now := WithKid(items, name, its);
    KidMerged(items, name, Held(kid, Vals(fdto)));
  }

  /** Merges a node of the overlay into a node of the base tree. */
  method ApplyNode(fdt: Blob, target: int, fdto: Blob, node: nat, ghost n: Node, ghost x: seq<Event>, ghost nm: Bytes,
                   ghost items: seq<Item>, ghost y: seq<Event>)
    returns (r: int, ghost now: seq<Item>)
    requires fdt != fdto && fdt.buf != fdto.buf && Sees(fdto, n) && n.at == node
    requires Holds(fdt, target, x, nm, items, y)
    modifies fdt`sizeStruct, fdt`sizeStrings, fdt`offStrings, fdt.buf
    ensures r == 0 || r == -ERR_NOSPACE
    ensures Laid(fdto) && (r == 0 ==> now == Merge(items, Held(n, Vals(fdto))))
    ensures Stage(fdt, old(fdt.Struct()), old(fdt.Strings()), old(FrontOf(fdt)), target, x, nm, now, y)
    ensures Readable(fdt) && Readable(fdto) && Boundary(fdto.Struct(), node)
    ensures r == 0 ==>
      ReadsMerged(old(Seen(fdt)), |x|, Seen(fdto), Place(fdto.Struct(), fdto.Strings(), node), Seen(fdt))
    decreases n, 0
  {
    hide First, TagAt, Boundary, Here, Events, ValuesOf, MergeOne, Blob.Struct, Blob.Strings, Sees, CheckedNode, Stage,
      Holds, Sound, Extends, Held, Framed, Place, MergeTo, KidFrom;
    SeesFacts(fdto, n);
    HoldsFacts(fdt, target, x, nm, items, y);
    ghost var s, strings, front := fdt.Struct(), fdt.Strings(), FrontOf(fdt);
    ghost var over := Held(n, Vals(fdto));
    ghost var base, os, ostrings := Seen(fdt), fdto.Struct(), fdto.Strings();
    HereGenuine(os, ostrings, n);
    r, now := ApplyProps(fdt, target, fdto, node, n, x, nm, items, y);
    if r != 0 {
      StageFacts(fdt, s, strings, front, target, x, nm, now, y);
      HoldsFacts(fdt, target, x, nm, now, y);
      return;
    }
    FirstKid(fdto.Struct(), fdto.Strings(), n);
    ghost var k := 0;
    var child := FirstSubnode(fdto, node);
    while child >= 0
      invariant 0 <= k <= |n.kids| && child == if k < |n.kids| then n.kids[k].at else -ERR_NOTFOUND
      invariant Sees(fdto, n) && Laid(fdto) && over == Held(n, Vals(fdto)) && now == MergeTo(items, over, |n.props| + k)
      invariant Stage(fdt, s, strings, front, target, x, nm, now, y)
      decreases |n.kids| - k
    {
      ghost var kid := n.kids[k];
      SeesKid(fdto, n, k);
      StageFacts(fdt, s, strings, front, target, x, nm, now, y);
      ghost var ms, mstrings := fdt.Struct(), fdt.Strings();
      HeldKid(n, Vals(fdto), k);
      MergeStep(items, over, |n.props| + k + 1);
      r, now := ApplyKid(fdt, target, fdto, child, kid, x, nm, now, y);
      NextStage(fdt, s, strings, ms, mstrings, front, target, x, nm, now, y);
      if r != 0 {
        StageFacts(fdt, s, strings, front, target, x, nm, now, y);
        HoldsFacts(fdt, target, x, nm, now, y);
        return;
      }
      k := k + 1;
      SeesFacts(fdto, kid);
      child := NextSubnode(fdto, child);
    }
    r := 0;
    StageFacts(fdt, s, strings, front, target, x, nm, now, y);
    HoldsFacts(fdt, target, x, nm, now, y);
    MergedNow(os, ostrings, n, x, nm, items, y);
  }

  /** In terms of the overlay's own events. */
  lemma {:induction false} MergedNow(s: Bytes, strings: Bytes, n: Node, x: seq<Event>, nm: Bytes, items: seq<Item>,
      y: seq<Event>)
    requires Here(s, strings, n) && Events(s, strings).Some?
    ensures Boundary(s, n.at)
    ensures ReadsMerged(Framed(x, nm, items, y), |x|, Events(s, strings).value, Place(s, strings, n.at),
                        Framed(x, nm, Merge(items, Held(n, ValuesOf(s))), y))
  {
    hide Events, Framed, Merge, ReadsMerged, Held, Normal, ValuesOf, Place, Boundary;
    HereGenuine(s, strings, n);
    var x2, nm2, items2, y2 := EveryNodeHolds(s, strings, n.at);
    HeldIsNormal(s, strings, n, x2, nm2, items2, y2);
    MergedLookup(x, nm, items, y, x2, nm2, items2, y2);
    HoldsPlace(s, strings, n.at, x2, nm2, items2, y2);
  }

  lemma {:induction false} HoldsPlace(s: Bytes, strings: Bytes, node: int, x: seq<Event>, nm: Bytes, items: seq<Item>,
      y: seq<Event>)
    requires HoldsAt(s, strings, node, x, nm, items, y)
    ensures Events(s, strings).Some? && Boundary(s, node)
    ensures Events(s, strings).value == Framed(x, nm, items, y) && Place(s, strings, node) == |x|
  {
    hide Events, Framed, Place, Boundary;
  }

  /** A property of the overlay's node, as what it holds has it and as a reader does. */
  lemma {:induction false} HeldReads(s: Bytes, strings: Bytes, n: Node, name: Bytes)
    requires Here(s, strings, n) && Events(s, strings).Some?
    ensures Boundary(s, n.at)
    ensures ValueIn(Held(n, ValuesOf(s)), name) == Lookup(Events(s, strings).value, Place(s, strings, n.at), name)
  {
    hide Events, Framed, Held, Normal, ValuesOf, Place, ValueIn, Lookup, Boundary;
    HereGenuine(s, strings, n);
    var x, nm, items, y := EveryNodeHolds(s, strings, n.at);
    HeldIsNormal(s, strings, n, x, nm, items, y);
    ValueNormal(items, name);
    LookupItems(x, nm, items, y, name);
    HoldsPlace(s, strings, n.at, x, nm, items, y);
  }

  /** Without settings behind children, it holds just what it holds by its events. */
  lemma {:induction false} HeldExactly(s: Bytes, strings: Bytes, n: Node, x: seq<Event>, nm: Bytes, items: seq<Item>,
      y: seq<Event>)
    requires Here(s, strings, n) && HoldsAt(s, strings, n.at, x, nm, items, y) && Tidy(items)
    ensures Held(n, ValuesOf(s)) == items
  {
    hide Here, HoldsAt, Held, Tidy, Normal, ValuesOf;
    HeldIsNormal(s, strings, n, x, nm, items, y);
    TidyIsNormal(items);
  }

  lemma {:induction false} HeldKid(n: Node, vals: Values, k: nat)
    requires k < |n.kids|
    ensures Held(n, vals)[|n.props| + k] == Sub(n.kids[k].name, Held(n.kids[k], vals))
  {
    hide PropsHeld, KidsHeld;
    KidsHeldAt(n.kids, vals, k);
  }

  // ---- every closed node holds something

  lemma {:induction false} ShutBehind(a: seq<Event>, b: seq<Event>, i: nat, d: nat)
    ensures Shut(a + b, |a| + i, d) <==> Shut(b, i, d)
    decreases |b| - i
  {
    if i < |b| {
      assert (a + b)[|a| + i] == b[i];
      match b[i]
      case Open(_) => ShutBehind(a, b, i + 1, d + 1);
      case Close => if d > 0 { ShutBehind(a, b, i + 1, d - 1); }
      case Entry(_, _) => ShutBehind(a, b, i + 1, d);
    }
  }

  lemma {:induction false} ShutEvents(s: Bytes, strings: Bytes, off: nat, d: nat)
    requires off % 4 == 0 && off <= |s| && Events(s[off..], strings).Some? && CloseFrom(s, off, d) >= 0
    ensures Shut(Events(s[off..], strings).value, 0, d)
    decreases |s| - off
  {
    hide First, Scan, Meaning, Align4, MatchAt, MeaningOf, Walk, Events, Matches;
    var (tag, next) := TagAt(s, off);
    EventsFirst(s, strings, off);
    var t := First(s[off..]).token;
    var one, rest := MeaningOf(t, strings).value, Events(s[next..], strings).value;
    TokenSub(s, strings, off, []);
    if !(tag == END_NODE && d == 0) {
      var deeper := if tag == BEGIN_NODE then d + 1 else if tag == END_NODE then d - 1 else d;
      ShutEvents(s, strings, next, deeper);
      ShutBehind(one, rest, 0, deeper);
    }
  }

  lemma {:induction false} EveryNodeHolds(s: Bytes, strings: Bytes, node: int)
      returns (x: seq<Event>, nm: Bytes, items: seq<Item>, y: seq<Event>)
    requires Events(s, strings).Some? && Boundary(s, node) && NodeAt(s, node) && EndOf(s, node) >= 0
    ensures HoldsAt(s, strings, node, x, nm, items, y)
  {
    hide Scan, Meaning, Walk, Events, CloseFrom, Framed, First;
    NodeFirst(s, strings, node);
    var b, n, ev := CheckedNode(s, node), Place(s, strings, node), Events(s, strings).value;
    EventsAt(s, strings, b);
    ShutEvents(s, strings, b, 0);
    var a := Meaning(Scan(s[..b]).value, strings).value;
    ShutBehind(a, Events(s[b..], strings).value, 0, 0);
    x, nm := ev[..n], ev[n].name;
    items, y := ShutFramed(ev, n);
  }

  // ---- what a node of the overlay holds, by its events

  /** Where the items from off on end, and what they are. */
  ghost predicate HeldUpTo(s: Bytes, strings: Bytes, off: nat, items: seq<Item>, y: seq<Event>) {
    var e := CloseFrom(s, off, 0);
    && off < e <= |s| && e % 4 == 0 && Boundary(s, e)
    && Events(s[e..], strings) == Some(y)
    && PropsHeld(Props(s, strings, off), ValuesOf(s)) == items[..Lead(items)]
    && KidsHeld(Forest(s, strings, off).0, ValuesOf(s)) == Subs(items)
  }

  lemma {:induction false} HeldFrom(s: Bytes, strings: Bytes, off: nat, items: seq<Item>, y: seq<Event>)
    requires off % 4 == 0 && Boundary(s, off) && Events(s, strings).Some?
    requires Events(s[off..], strings) == Some(Flat(items) + ([Close] + y))
    ensures HeldUpTo(s, strings, off, items, y)
    decreases |s| - off
  {
    hide First, Scan, Meaning, Align4, MatchAt, MeaningOf, Walk, Events, Matches, Flat, Boundary, HeldUpTo, CloseFrom,
      ValuesOf, Forest, Props;
    BoundaryIn(s, off);
    var (tag, next) := TagAt(s, off);
    if tag == END {
      NoEvents(s, strings, off);
      assert false;
    } else {
      EventsFirst(s, strings, off);
      OneStep(s, off);
      var t := First(s[off..]).token;
      var one, rest := MeaningOf(t, strings).value, Events(s[next..], strings).value;
      TokenSub(s, strings, off, []);
      if tag == NOP {
        assert one + rest == rest;
        HeldFrom(s, strings, next, items, y);
        HeldNop(s, strings, off, items, y);
      } else {
        assert one == [one[0]];
        FrontItem(one[0], rest, items, y);
        if tag == PROP {
          HeldFrom(s, strings, next, items[1..], y);
          HeldProp(s, strings, off, items, y);
        } else if tag == END_NODE {
          HeldEnd(s, strings, off, y);
        } else {
          var more := Flat(items[1..]) + ([Close] + y);
          HeldFrom(s, strings, next, items[0].items, more);
          var e := CloseFrom(s, next, 0);
          HeldFacts(s, strings, next, items[0].items, more);
          HeldFrom(s, strings, e, items[1..], y);
          BeginMeans(s, strings, off);
          HeldBegin(s, strings, off, items, y, more);
        }
      }
    }
  }

  lemma {:induction false} HeldFacts(s: Bytes, strings: Bytes, off: nat, items: seq<Item>, y: seq<Event>)
    requires HeldUpTo(s, strings, off, items, y)
    ensures var e := CloseFrom(s, off, 0);
            off < e <= |s| && e % 4 == 0 && Boundary(s, e) && Events(s[e..], strings) == Some(y)
  {
  }

  lemma {:induction false} OneStep(s: Bytes, off: nat)
    requires Boundary(s, off) && off <= |s| && TagAt(s, off).0 != END && TagAt(s, off).1 <= |s|
    requires Scan(s[off..TagAt(s, off).1]).Some? && off < TagAt(s, off).1
    ensures Boundary(s, TagAt(s, off).1)
  {
    hide First, Scan, TagAt;
    BoundaryBetween(s, off, TagAt(s, off).1);
  }

  lemma {:induction false} HeldNop(s: Bytes, strings: Bytes, off: nat, items: seq<Item>, y: seq<Event>)
    requires off < TagAt(s, off).1 && TagAt(s, off).0 == NOP && HeldUpTo(s, strings, TagAt(s, off).1, items, y)
    ensures HeldUpTo(s, strings, off, items, y)
  {
    hide First, TagAt, Boundary, Events, ValuesOf, Lead, Subs;
  }

  lemma {:induction false} HeldEnd(s: Bytes, strings: Bytes, off: nat, y: seq<Event>)
    requires TagAt(s, off).0 == END_NODE && off < TagAt(s, off).1 <= |s| && TagAt(s, off).1 % 4 == 0
    requires Boundary(s, TagAt(s, off).1) && Events(s[TagAt(s, off).1..], strings) == Some(y)
    ensures HeldUpTo(s, strings, off, [], y)
  {
    hide First, TagAt, Boundary, Events, ValuesOf;
  }

  lemma {:induction false} HeldProp(s: Bytes, strings: Bytes, off: nat, items: seq<Item>, y: seq<Event>)
    requires Boundary(s, off) && TagAt(s, off).0 == PROP && off < TagAt(s, off).1 && Events(s, strings).Some?
    requires First(s[off..]).Lex? && MeaningOf(First(s[off..]).token, strings).Some? && off <= |s|
    requires items != [] && items[0].Setting?
    requires MeaningOf(First(s[off..]).token, strings).value == [Entry(items[0].name, items[0].value)]
    requires HeldUpTo(s, strings, TagAt(s, off).1, items[1..], y)
    ensures HeldUpTo(s, strings, off, items, y)
  {
    hide First, Boundary, Events, Subs;
    PropertyTag(s, off);
    SlotEvent(s, strings, off);
    var ps, more := Props(s, strings, off), Props(s, strings, TagAt(s, off).1);
    assert ps[1..] == more;
    assert SettingOf(ps[0], ValuesOf(s)) == items[0];
    assert items[..Lead(items)] == [items[0]] + items[1..][..Lead(items[1..])];
    SubsNext(items);
  }

  lemma {:induction false} SubsNext(items: seq<Item>)
    requires items != [] && items[0].Setting?
    ensures Subs(items) == Subs(items[1..])
  {
  }

  lemma {:induction false} HeldBegin(s: Bytes, strings: Bytes, off: nat, items: seq<Item>, y: seq<Event>,
      more: seq<Event>)
    requires TagAt(s, off).0 == BEGIN_NODE && off <= |s| && First(s[off..]).Lex? && First(s[off..]).token.Begin?
    requires items != [] && items[0].Sub? && items[0].name == First(s[off..]).token.name
    requires var next := TagAt(s, off).1;
             && off < next && HeldUpTo(s, strings, next, items[0].items, more)
             && HeldUpTo(s, strings, CloseFrom(s, next, 0), items[1..], y)
    ensures HeldUpTo(s, strings, off, items, y)
  {
    hide First, TagAt, Boundary, Events, ValuesOf, Props;
    var next := TagAt(s, off).1;
    ForestEnd(s, strings, next);
    CloseNest(s, next, 0, 0);
    var e := CloseFrom(s, next, 0);
    var kids, ks := Forest(s, strings, next).0, Forest(s, strings, off).0;
    var n := Node(off, First(s[off..]).token.name, Props(s, strings, next), kids);
    assert ks == [n] + Forest(s, strings, e).0;
    assert ks[1..] == Forest(s, strings, e).0;
    assert Held(n, ValuesOf(s)) == Normal(items[0].items);
    assert Props(s, strings, off) == [] by {
      NoPropsAt(s, strings, off);
    }
  }

  lemma {:induction false} BeginMeans(s: Bytes, strings: Bytes, off: nat)
    requires TagAt(s, off).0 == BEGIN_NODE && off <= |s| && First(s[off..]).Lex?
    ensures First(s[off..]).token.Begin? && MeaningOf(First(s[off..]).token, strings) ==
              Some([Open(First(s[off..]).token.name)])
  {
  }

  lemma {:induction false} NoPropsAt(s: Bytes, strings: Bytes, off: nat)
    requires TagAt(s, off).0 == BEGIN_NODE
    ensures Props(s, strings, off) == []
  {
  }

  /** Whatever a node holds by its events, walks over its properties and children see just that. */
  lemma {:induction false} HeldIsNormal(s: Bytes, strings: Bytes, n: Node, x: seq<Event>, nm: Bytes, items: seq<Item>,
      y: seq<Event>)
    requires Here(s, strings, n) && HoldsAt(s, strings, n.at, x, nm, items, y)
    ensures Held(n, ValuesOf(s)) == Normal(items) && n.name == nm
  {
    hide Scan, Meaning, Walk, Events, CloseFrom, First, ValuesOf, Forest, Props, Flat;
    NodeFirst(s, strings, n.at);
    var b, ev := CheckedNode(s, n.at), Events(s, strings).value;
    EventsAt(s, strings, b);
    var a := Meaning(Scan(s[..b]).value, strings).value;
    FramedParts(x, nm, items, y);
    Halves(a, Events(s[b..], strings).value);
    assert ev == x + [Open(nm)] + (Flat(items) + ([Close] + y));
    Halves(x + [Open(nm)], Flat(items) + ([Close] + y));
    HeldFrom(s, strings, b, items, y);
    NodeNamed(s, strings, n.at, nm);
  }

  lemma {:induction false} NodeNamed(s: Bytes, strings: Bytes, node: int, nm: Bytes)
    requires Events(s, strings).Some? && Boundary(s, node) && NodeAt(s, node)
    requires var k := Place(s, strings, node); k < |Events(s, strings).value| && Events(s, strings).value[k] == Open(nm)
    ensures NameAt(s, node) == nm
  {
    hide Scan, Meaning, Walk, Events, First;
    EventsAt(s, strings, node);
    EventsFirst(s, strings, node);
  }
}
