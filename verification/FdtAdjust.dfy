/**
 Moving up the phandles of an overlay and adding to the references that its local fixups list, in
 the bytes of the blob that is being walked.
 */
module FdtAdjust {
  import opened Basics
  import opened FdtFormat
  import opened FdtBlob
  import opened FdtNodes
  import opened FdtSplice
  import opened FdtTree
  import opened FdtProps
  import opened FdtEdit
  import opened FdtEditOps
  import opened FdtForest
  import opened FdtTwin
  import opened FdtInplace
  import opened FdtOverlay

  /** A node of a blob that can be read. */
  ghost predicate Sees(fdt: Blob, n: Node)
    reads fdt, fdt.buf
  {
    Readable(fdt) && Here(fdt.Struct(), fdt.Strings(), n)
  }

  /** The values of all properties of a blob. */
  ghost function Vals(fdt: Blob): Values
    requires Laid(fdt)
    reads fdt, fdt.buf
  {
    ValuesOf(fdt.Struct())
  }

  /** A blob with those tags, those strings and those bytes in front, whatever its values. */
  ghost predicate Kept(fdt: Blob, s: Bytes, strings: Bytes, front: Bytes)
    reads fdt, fdt.buf
  {
    && Readable(fdt) && fdt.Strings() == strings && Twin(s, fdt.Struct(), 0)
    && fdt.offStruct <= fdt.buf.Length && fdt.buf[..fdt.offStruct] == front
  }

  ghost function FrontOf(fdt: Blob): Bytes
    requires Laid(fdt)
    reads fdt, fdt.buf
  {
    fdt.buf[..fdt.offStruct]
  }

  lemma KeptSelf(fdt: Blob)
    requires Readable(fdt)
    ensures Kept(fdt, fdt.Struct(), fdt.Strings(), FrontOf(fdt))
  {
    hide Twin, Events;
    TwinSelf(fdt.Struct(), 0);
  }

  /** Readable blocks have names for all their properties. */
  lemma ReadableNamed(s: Bytes, strings: Bytes)
    requires Events(s, strings).Some?
    ensures Named(s, strings)
  {
    hide First, Boundary, StringAt, Events, Place;
    forall p: nat | Boundary(s, p) && TagAt(s, p).0 == PROP
      ensures StringAt(strings, First(s[p..]).token.nameOff).Some?
    {
      SlotEvent(s, strings, p);
    }
  }

  // ---- one property of a node

  /** Where a property of a node is, and its value. */
  lemma CellAt(s: Bytes, strings: Bytes, n: Node, name: Bytes)
    requires Here(s, strings, n) && Events(s, strings).Some?
    ensures var f := FindProp(n, name, 0);
            && Found(s, strings, n.at, name) == (if f.None? then -ERR_NOTFOUND else f.value)
            && (f.Some? ==>
                  && Boundary(s, f.value) && TagAt(s, f.value).0 == PROP && f.value < |s|
                  && ValuesOf(s)[f.value] == ValueAt(s, f.value) && f.value in OwnSlots(n))
  {
    hide First, TagAt, Boundary, ValueAt, Found, FindProp, Here, Events, Named;
    ReadableNamed(s, strings);
    FindPropHere(s, strings, n, name);
    OwnSlotsHere(s, strings, n);
    OwnWithin(n, 0);
    if FindProp(n, name, 0).Some? {
      assert FindProp(n, name, 0).value in SlotOf(n, name);
    }
  }

  /** Overwriting a part of it. */
  lemma CellWritten(s: Bytes, strings: Bytes, n: Node, name: Bytes, idx: nat, d: Bytes)
    requires Here(s, strings, n) && Events(s, strings).Some? && FindProp(n, name, 0).Some?
    requires FindProp(n, name, 0).value < |s| && idx + |d| <= |ValuesOf(s)[FindProp(n, name, 0).value]|
    ensures var p := FindProp(n, name, 0).value;
            && p + 12 + idx + |d| <= |s|
            && var t := Over(s, p + 12 + idx, d);
               && Twin(s, t, 0) && Here(t, strings, n)
               && ValuesOf(t) == ValuesOf(s)[p := Over(ValuesOf(s)[p], idx, d)]
  {
    hide First, TagAt, Boundary, ValueAt, Found, FindProp, Here, Events, Twin, Over;
    CellAt(s, strings, n, name);
    var p := FindProp(n, name, 0).value;
    ValueWritten(s, p, idx, d);
    TwinHere(s, Over(s, p + 12 + idx, d), strings, n);
  }

  /** The number at a place of a value. */
  method NumberIn(fdt: Blob, p: nat, idx: nat) returns (v: nat)
    requires fdt.StructIn() && TagAt(fdt.Struct(), p).0 == PROP && idx + 4 <= |ValueAt(fdt.Struct(), p)|
    ensures v == U32(ValueAt(fdt.Struct(), p)[idx..idx + 4]) < LIMIT32
  {
    hide U32, First, TagAt, ValueAt;
    ghost var s := fdt.Struct();
    ValueBytes(s, p);
    Inner(s, p + 12, p + 12 + |ValueAt(s, p)|, idx, idx + 4);
    fdt.WordAt(p + 12 + idx);
    v := fdt.Word(fdt.offStruct + p + 12 + idx);
  }

  lemma ShiftedOne(vals: Values, p: nat, delta: nat)
    requires p < |vals| && Movable(vals[p], delta)
    ensures Shifted(vals, {p}, delta) == vals[p := Over(vals[p], 0, Be32(U32(vals[p]) + delta))]
  {
    hide U32, Be32;
    var v := vals[p];
    assert v[0..4] == v;
    assert Over(v, 0, Be32(U32(v) + delta)) == Up(v, delta);
  }

  /** A blob whose structure block has been overwritten. */
  lemma KeptNow(fdt: Blob, s: Bytes, t: Bytes, strings: Bytes, front: Bytes, n: Node)
    requires Readable(fdt) && fdt.Struct() == t && fdt.Strings() == strings && FrontOf(fdt) == front
    requires Twin(s, t, 0) && Here(t, strings, n)
    ensures Kept(fdt, s, strings, front) && Sees(fdt, n) && Vals(fdt) == ValuesOf(t)
  {
    hide Twin, Here, Events, ValuesOf;
  }

  /** Moves up a phandle of a node; a node without it is left alone. */
  method AddOffset(fdt: Blob, node: nat, name: Bytes, delta: nat, ghost n: Node) returns (err: int)
    requires Sees(fdt, n) && n.at == node && delta < LIMIT32
    modifies fdt.buf
    ensures Kept(fdt, old(fdt.Struct()), old(fdt.Strings()), old(FrontOf(fdt))) && Sees(fdt, n)
    ensures err != OVERRUN
    ensures err == 0 || err == -ERR_NOTFOUND <==> old(AllMovable(Vals(fdt), SlotOf(n, name), delta))
    ensures Vals(fdt) == if err == 0 || err == -ERR_NOTFOUND then Shifted(old(Vals(fdt)), SlotOf(n, name), delta)
                         else old(Vals(fdt))
  {
    hide First, TagAt, Boundary, ValueAt, Found, FindProp, Here, Events, Twin, Over, U32, Be32, ValuesOf, Shifted,
      Blob.Struct, Blob.Strings, Movable, OnlyValue, PropertyEvent, Kept, Sees, AllMovable, SlotOf;
    SeesFacts(fdt, n);
    ghost var s, strings, front, vals := fdt.Struct(), fdt.Strings(), FrontOf(fdt), Vals(fdt);
    KeptSelf(fdt);
    CellAt(s, strings, n, name);
    HereGenuine(s, strings, n);
    var p := GetProperty(fdt, node, name);
    if p < 0 {
      NothingShifted(vals, n, name, delta);
      return p;
    }
    OneSlot(vals, n, name, delta);
    var len := ValueLength(fdt, p);
    if len != 4 {
      NotMovable(vals[p], delta);
      return -ERR_BADPHANDLE;
    }
    var adj := NumberIn(fdt, p, 0);
    MovableIs(vals[p], delta);
    if (adj + delta) % LIMIT32 < adj {
      return -ERR_NOPHANDLES;
    }
    adj := (adj + delta) % LIMIT32;
    if adj == NO_PHANDLE {
      return -ERR_NOPHANDLES;
    }
    ShiftedOne(vals, p, delta);
    CellWritten(s, strings, n, name, 0, Be32(adj));
    err := SetInplace(fdt, node, name, Be32(adj));
    KeptNow(fdt, s, Over(s, p + 12, Be32(adj)), strings, front, n);
  }

  lemma HereGenuine(s: Bytes, strings: Bytes, n: Node)
    requires Here(s, strings, n)
    ensures Boundary(s, n.at) && NodeAt(s, n.at) && EndOf(s, n.at) >= 0
  {
  }

  lemma NothingShifted(vals: Values, n: Node, name: Bytes, delta: nat)
    requires FindProp(n, name, 0).None?
    ensures AllMovable(vals, SlotOf(n, name), delta) && Shifted(vals, SlotOf(n, name), delta) == vals
  {
    hide FindProp;
    ShiftedNone(vals, delta);
  }

  lemma OneSlot(vals: Values, n: Node, name: Bytes, delta: nat)
    requires FindProp(n, name, 0).Some? && FindProp(n, name, 0).value < |vals|
    ensures SlotOf(n, name) == {FindProp(n, name, 0).value}
    ensures AllMovable(vals, SlotOf(n, name), delta) <==> Movable(vals[FindProp(n, name, 0).value], delta)
  {
    hide FindProp, Movable;
    assert FindProp(n, name, 0).value in SlotOf(n, name);
  }

  lemma NotMovable(v: Bytes, delta: nat)
    requires |v| != 4
    ensures !Movable(v, delta)
  {
  }

  /** The two tests of the program, in 32-bit arithmetic. */
  lemma MovableIs(v: Bytes, delta: nat)
    requires |v| == 4 && delta < LIMIT32
    ensures v[0..4] == v
    ensures Movable(v, delta) <==>
            (U32(v) + delta) % LIMIT32 >= U32(v) && (U32(v) + delta) % LIMIT32 != NO_PHANDLE
    ensures Movable(v, delta) ==> (U32(v) + delta) % LIMIT32 == U32(v) + delta
  {
    hide U32;
  }

  // ---- phandles

  lemma KeptFacts(fdt: Blob, s: Bytes, strings: Bytes, front: Bytes)
    requires Kept(fdt, s, strings, front)
    ensures Readable(fdt) && fdt.Strings() == strings && FrontOf(fdt) == front && Twin(s, fdt.Struct(), 0)
  {
  }

  /** One step further. */
  lemma KeptOn(fdt: Blob, s: Bytes, mid: Bytes, strings: Bytes, front: Bytes)
    requires Twin(s, mid, 0) && Kept(fdt, mid, strings, front)
    ensures Kept(fdt, s, strings, front)
  {
    hide Twin, Events;
    TwinTrans(s, mid, fdt.Struct(), 0);
  }

  lemma SeesOn(fdt: Blob, mid: Bytes, strings: Bytes, front: Bytes, n: Node)
    requires Kept(fdt, mid, strings, front) && Here(mid, strings, n)
    ensures Sees(fdt, n)
  {
    hide Twin, Here, Events;
    TwinHere(mid, fdt.Struct(), strings, n);
  }

  lemma SeesFacts(fdt: Blob, n: Node)
    requires Sees(fdt, n)
    ensures Readable(fdt) && Here(fdt.Struct(), fdt.Strings(), n) && NodeAt(fdt.Struct(), n.at)
  {
  }

  /** Moves up the phandles of a node itself. */
  method AdjustOwn(fdt: Blob, node: nat, delta: nat, ghost n: Node) returns (err: int)
    requires Sees(fdt, n) && n.at == node && delta < LIMIT32
    modifies fdt.buf
    ensures Kept(fdt, old(fdt.Struct()), old(fdt.Strings()), old(FrontOf(fdt))) && Sees(fdt, n)
    ensures err != OVERRUN
    ensures err == 0 <==> old(AllMovable(Vals(fdt), PhandlesTo(n, 0), delta))
    ensures err == 0 ==> Vals(fdt) == Shifted(old(Vals(fdt)), PhandlesTo(n, 0), delta)
  {
    hide First, TagAt, Boundary, Here, Events, Twin, ValuesOf, Shifted, AllMovable, SlotOf, Distinct, Phandles,
      PhandlesTo, Blob.Struct, Blob.Strings, Kept, Sees;
    SeesFacts(fdt, n);
    ghost var s, strings, front, vals := fdt.Struct(), fdt.Strings(), FrontOf(fdt), Vals(fdt);
    SlotsHere(s, strings, n);
    OwnPhandles(n);
    OwnMovable(n, vals, delta);
    err := AddOffset(fdt, node, PHANDLE, delta, n);
    if err != 0 && err != -ERR_NOTFOUND {
      return;
    }
    KeptFacts(fdt, s, strings, front);
    ghost var mid := fdt.Struct();
    err := AddOffset(fdt, node, LINUX_PHANDLE, delta, n);
    KeptOn(fdt, s, mid, strings, front);
    if err == -ERR_NOTFOUND {
      err := 0;
    }
  }

  /** Moves up the phandles of a node and of everything below it. */
  method AdjustNode(fdt: Blob, node: nat, delta: nat, ghost n: Node) returns (err: int)
    requires Sees(fdt, n) && n.at == node && delta < LIMIT32
    modifies fdt.buf
    ensures Kept(fdt, old(fdt.Struct()), old(fdt.Strings()), old(FrontOf(fdt))) && Sees(fdt, n)
    ensures err != OVERRUN
    ensures err == 0 <==> old(AllMovable(Vals(fdt), Phandles(n), delta))
    ensures err == 0 ==> Vals(fdt) == Shifted(old(Vals(fdt)), Phandles(n), delta)
    decreases n
  {
    hide First, TagAt, Boundary, Here, Events, Twin, ValuesOf, Shifted, AllMovable, SlotOf, Distinct, Phandles,
      PhandlesTo, Blob.Struct, Blob.Strings, KidFrom, CheckedNode, Kept, Sees;
    SeesFacts(fdt, n);
    ghost var s, strings, front, vals := fdt.Struct(), fdt.Strings(), FrontOf(fdt), Vals(fdt);
    SlotsHere(s, strings, n);
    AllOfThem(n);
    err := AdjustOwn(fdt, node, delta, n);
    if err != 0 {
      MovableTo(n, vals, delta, 0);
      return;
    }
    SeesFacts(fdt, n);
    KeptFacts(fdt, s, strings, front);
    FirstKid(fdt.Struct(), strings, n);
    ghost var k := 0;
    var child := FirstSubnode(fdt, node);
    while child >= 0
      invariant 0 <= k <= |n.kids| && child == if k < |n.kids| then n.kids[k].at else -ERR_NOTFOUND
      invariant Kept(fdt, s, strings, front) && Sees(fdt, n) && Readable(fdt)
      invariant AllMovable(vals, PhandlesTo(n, k), delta) && Vals(fdt) == Shifted(vals, PhandlesTo(n, k), delta)
      decreases |n.kids| - k
    {
      ghost var kid, now := n.kids[k], fdt.Struct();
      SeesFacts(fdt, n);
      KeptFacts(fdt, s, strings, front);
      KidApart(n, k);
      ShiftedMore(vals, PhandlesTo(n, k), Phandles(kid), delta);
      MovableBoth(vals, PhandlesTo(n, k), Phandles(kid), delta);
      SeesKid(fdt, n, k);
      err := AdjustNode(fdt, child, delta, kid);
      SeesOn(fdt, now, strings, front, n);
      KeptOn(fdt, s, now, strings, front);
      k := k + 1;
      if err != 0 {
        MovableTo(n, vals, delta, k);
        return;
      }
      SeesKid(fdt, n, k - 1);
      SeesFacts(fdt, kid);
      child := NextSubnode(fdt, child);
    }
    err := 0;
  }

  /** The children of a node that is seen. */
  lemma SeesKid(fdt: Blob, n: Node, k: nat)
    requires Sees(fdt, n) && k < |n.kids|
    ensures Readable(fdt) && Sees(fdt, n.kids[k])
    ensures KidFrom(fdt.Struct(), CheckedNode(fdt.Struct(), n.kids[k].at), 1) ==
            if k + 1 < |n.kids| then n.kids[k + 1].at else -ERR_NOTFOUND
  {
    hide Here, Events, KidFrom, CheckedNode;
    KidHere(fdt.Struct(), fdt.Strings(), n, k);
  }

  lemma AllOfThem(n: Node)
    ensures PhandlesTo(n, |n.kids|) == Phandles(n)
  {
  }

  // ---- local references

  /** A property of a node by its place. */
  lemma PropHere(s: Bytes, strings: Bytes, n: Node, i: nat)
    requires Here(s, strings, n) && Events(s, strings).Some? && i < |n.props|
    ensures var q := n.props[i].slot;
            && q < |s| && q % 4 == 0 && Boundary(s, q) && TagAt(s, q).0 == PROP && ValuesOf(s)[q] == ValueAt(s, q)
            && !Wraps(s, q)
            && StringAt(strings, First(s[q..]).token.nameOff).Some?
            && n.props[i].name == TokenName(First(s[q..]).token, strings)
            && NextPropFrom(s, TagAt(s, q).1) == if i + 1 < |n.props| then n.props[i + 1].slot else -ERR_NOTFOUND
    ensures NextPropFrom(s, CheckedNode(s, n.at)) == n.props[0].slot
  {
    hide First, TagAt, Boundary, ValueAt, Events, Forest, Props, CloseFrom, TreeAt, KidFrom, NextPropFrom, StringAt;
    ReadableNamed(s, strings);
    TreeParts(s, strings, n);
    SpanScan(s, n.at);
    var b := CheckedNode(s, n.at);
    BoundaryOn(s, n.at, b);
    PropsAt(s, strings, b, i);
    PropsStep(s, strings, b);
    TagStep(s, n.props[i].slot);
  }

  lemma NoProps(s: Bytes, strings: Bytes, n: Node)
    requires Here(s, strings, n) && n.props == []
    ensures NextPropFrom(s, CheckedNode(s, n.at)) == -ERR_NOTFOUND
  {
    hide First, TagAt, Boundary, Forest, Props, CloseFrom, TreeAt, KidFrom, NextPropFrom;
    TreeParts(s, strings, n);
    SpanScan(s, n.at);
    BoundaryOn(s, n.at, CheckedNode(s, n.at));
    PropsStep(s, strings, CheckedNode(s, n.at));
  }

  /** What the first of k listed offsets that does not fit leads to, 0 if all of them fit. */
  ghost function ListCode(v: Bytes, size: nat, k: nat): int
    requires 4 * k <= |v|
  {
    if k == 0 then 0
    else if ListCode(v, size, k - 1) != 0 then ListCode(v, size, k - 1)
    else OffsetCode(size, OffsetAt(v, k - 1))
  }

  /** An offset without room for a number is an error, unless its sum with 4 wraps around to one that fits. */
  ghost function OffsetCode(size: nat, off: nat): int {
    if PartialResult(size, off, 4) == -ERR_NOSPACE then -ERR_BADOVERLAY else PartialResult(size, off, 4)
  }

  ghost function PropCode(tree: Node, fix: Node, vals: Values, i: nat): int
    requires i < |fix.props|
  {
    var slot, t := fix.props[i].slot, FindProp(tree, fix.props[i].name, 0);
    if slot >= |vals| || |vals[slot]| % 4 != 0 || t.None? || t.value >= |vals| then -ERR_BADOVERLAY
    else ListCode(vals[slot], |vals[t.value]|, |vals[slot]| / 4)
  }

  ghost function PropCodeTo(tree: Node, fix: Node, vals: Values, i: nat): int
    requires i <= |fix.props|
  {
    if i == 0 then 0
    else if PropCodeTo(tree, fix, vals, i - 1) != 0 then PropCodeTo(tree, fix, vals, i - 1)
    else PropCode(tree, fix, vals, i - 1)
  }

  /** The first failure among the fixups for a node, and below its first k children. */
  ghost function CodeTo(tree: Node, fix: Node, vals: Values, k: nat): int
    requires k <= |fix.kids|
    decreases fix, k
  {
    if k == 0 then PropCodeTo(tree, fix, vals, |fix.props|)
    else if CodeTo(tree, fix, vals, k - 1) != 0 then CodeTo(tree, fix, vals, k - 1)
    else
      var t := FindKid(tree, fix.kids[k - 1].name, 0);
      if t.None? then -ERR_BADOVERLAY else Code(tree.kids[t.value], fix.kids[k - 1], vals)
  }

  ghost function Code(tree: Node, fix: Node, vals: Values): int
    decreases fix, |fix.kids| + 1
  {
    CodeTo(tree, fix, vals, |fix.kids|)
  }

  /** There is no failure exactly if the fixups list references. */
  lemma {:induction false} ListCoded(v: Bytes, slot: nat, size: nat, k: nat)
    requires 4 * k <= |v|
    ensures ListCode(v, size, k) == 0 <==> ListTo(v, slot, size, k).Some?
    decreases k
  {
    hide OffsetAt;
    if k > 0 {
      ListCoded(v, slot, size, k - 1);
    }
  }

  lemma PropCoded(tree: Node, fix: Node, vals: Values, i: nat)
    requires i < |fix.props|
    ensures PropCode(tree, fix, vals, i) == 0 <==> PropRefs(tree, fix, vals, i).Some?
  {
    hide ListCode, ListTo, FindProp;
    var slot, t := fix.props[i].slot, FindProp(tree, fix.props[i].name, 0);
    if slot < |vals| && |vals[slot]| % 4 == 0 && t.Some? && t.value < |vals| {
      ListCoded(vals[slot], t.value, |vals[t.value]|, |vals[slot]| / 4);
    }
  }

  lemma {:induction false} PropsCoded(tree: Node, fix: Node, vals: Values, i: nat)
    requires i <= |fix.props|
    ensures PropCodeTo(tree, fix, vals, i) == 0 <==> PropRefsTo(tree, fix, vals, i).Some?
    decreases i
  {
    hide PropCode, PropRefs;
    if i > 0 {
      PropsCoded(tree, fix, vals, i - 1);
      PropCoded(tree, fix, vals, i - 1);
    }
  }

  lemma {:induction false} Coded(tree: Node, fix: Node, vals: Values, k: nat)
    requires k <= |fix.kids|
    ensures CodeTo(tree, fix, vals, k) == 0 <==> RefsTo(tree, fix, vals, k).Some?
    decreases fix, k
  {
    hide PropCodeTo, PropRefsTo, FindKid;
    if k == 0 {
      PropsCoded(tree, fix, vals, |fix.props|);
    } else {
      Coded(tree, fix, vals, k - 1);
      var t := FindKid(tree, fix.kids[k - 1].name, 0);
      if t.Some? {
        Coded(tree.kids[t.value], fix.kids[k - 1], vals, |fix.kids[k - 1].kids|);
      }
    }
  }

  /** The first failure stays the first. */
  lemma {:induction false} ListStays(v: Bytes, size: nat, k: nat, m: nat)
    requires k <= m && 4 * m <= |v| && ListCode(v, size, k) != 0
    ensures ListCode(v, size, m) == ListCode(v, size, k)
    decreases m
  {
    hide OffsetAt;
    if k < m {
      ListStays(v, size, k, m - 1);
    }
  }

  lemma {:induction false} PropStays(tree: Node, fix: Node, vals: Values, i: nat, m: nat)
    requires i <= m <= |fix.props| && PropCodeTo(tree, fix, vals, i) != 0
    ensures PropCodeTo(tree, fix, vals, m) == PropCodeTo(tree, fix, vals, i)
    decreases m
  {
    hide PropCode;
    if i < m {
      PropStays(tree, fix, vals, i, m - 1);
    }
  }

  lemma {:induction false} CodeStays(tree: Node, fix: Node, vals: Values, k: nat, m: nat)
    requires k <= m <= |fix.kids| && CodeTo(tree, fix, vals, k) != 0
    ensures CodeTo(tree, fix, vals, m) == CodeTo(tree, fix, vals, k)
    decreases m
  {
    hide PropCodeTo, FindKid, Code;
    if k < m {
      CodeStays(tree, fix, vals, k, m - 1);
    }
  }

  /** The failures depend on the fixups and on the lengths of values. */
  lemma PropCodeSame(tree: Node, fix: Node, a: Values, b: Values, f: set<nat>, i: nat)
    requires i < |fix.props| && SameFor(a, b, f) && fix.props[i].slot in f
    ensures PropCode(tree, fix, a, i) == PropCode(tree, fix, b, i)
  {
    hide ListCode, FindProp;
  }

  lemma {:induction false} PropsCodeSame(tree: Node, fix: Node, a: Values, b: Values, f: set<nat>, i: nat)
    requires i <= |fix.props| && SameFor(a, b, f) && OwnSlots(fix) <= f
    ensures PropCodeTo(tree, fix, a, i) == PropCodeTo(tree, fix, b, i)
    decreases i
  {
    hide PropCode, SameFor;
    if i > 0 {
      PropsCodeSame(tree, fix, a, b, f, i - 1);
      assert fix.props[i - 1].slot in OwnSlots(fix);
      PropCodeSame(tree, fix, a, b, f, i - 1);
    }
  }

  lemma {:induction false} CodeSame(tree: Node, fix: Node, a: Values, b: Values, f: set<nat>, k: nat)
    requires k <= |fix.kids| && SameFor(a, b, f) && SlotsTo(fix, k) <= f
    ensures CodeTo(tree, fix, a, k) == CodeTo(tree, fix, b, k)
    decreases fix, k
  {
    hide PropCodeTo, SameFor, FindKid;
    if k == 0 {
      PropsCodeSame(tree, fix, a, b, f, |fix.props|);
    } else {
      CodeSame(tree, fix, a, b, f, k - 1);
      var t := FindKid(tree, fix.kids[k - 1].name, 0);
      if t.Some? {
        CodeSame(tree.kids[t.value], fix.kids[k - 1], a, b, f, |fix.kids[k - 1].kids|);
      }
    }
  }

  /** Adds delta to one number inside a property's value; an offset that is too large is an error. */
  method AddToNumber(fdt: Blob, tree: nat, name: Bytes, p: nat, poffset: nat, delta: nat, ghost n: Node)
      returns (err: int)
    requires Sees(fdt, n) && n.at == tree && FindProp(n, name, 0) == Some(p) && poffset < LIMIT32
    modifies fdt.buf
    ensures Kept(fdt, old(fdt.Struct()), old(fdt.Strings()), old(FrontOf(fdt))) && Sees(fdt, n)
    ensures p < |old(Vals(fdt))|
    ensures err == PartialResult(|old(Vals(fdt))[p]|, poffset, 4)
    ensures err != 0 ==> Vals(fdt) == old(Vals(fdt))
    ensures err == 0 ==>
      poffset + 4 <= |old(Vals(fdt))[p]| && Vals(fdt) == AddAt(old(Vals(fdt)), Ref(p, poffset), delta)
  {
    hide First, TagAt, Boundary, ValueAt, Found, FindProp, Here, Events, Twin, Over, U32, Be32, ValuesOf, Plus,
      Blob.Struct, Blob.Strings, OnlyValue, PropertyEvent, Kept, Sees;
    SeesFacts(fdt, n);
    ghost var s, strings, front, vals := fdt.Struct(), fdt.Strings(), FrontOf(fdt), Vals(fdt);
    KeptSelf(fdt);
    CellAt(s, strings, n, name);
    HereGenuine(s, strings, n);
    var len := ValueLength(fdt, p);
    var adj := 0;
    if poffset + 4 <= len {
      adj := NumberIn(fdt, p, poffset);
      adj := (adj + delta) % LIMIT32;
      CellWritten(s, strings, n, name, poffset, Be32(adj));
      PlusIsOver(vals[p], poffset, delta);
    }
    err := SetInplacePartial(fdt, tree, name, poffset, Be32(adj));
    if err == 0 {
      KeptNow(fdt, s, Over(s, p + 12 + poffset, Be32(adj)), strings, front, n);
    }
  }

  lemma PlusIsOver(v: Bytes, off: nat, delta: nat)
    requires off + 4 <= |v|
    ensures Plus(v, off, delta) == Over(v, off, Be32((U32(v[off..off + 4]) + delta) % LIMIT32))
  {
  }

  /** What holds of the two nodes while references are being added to. */
  ghost predicate Both(fdt: Blob, tn: Node, fn: Node)
    reads fdt, fdt.buf
  {
    Sees(fdt, tn) && Sees(fdt, fn)
  }

  lemma BothFacts(fdt: Blob, tn: Node, fn: Node)
    requires Both(fdt, tn, fn)
    ensures Readable(fdt) && Sees(fdt, tn) && Sees(fdt, fn)
    ensures Here(fdt.Struct(), fdt.Strings(), tn) && Here(fdt.Struct(), fdt.Strings(), fn)
    ensures NodeAt(fdt.Struct(), tn.at) && NodeAt(fdt.Struct(), fn.at)
  {
  }

  lemma BothOn(fdt: Blob, s: Bytes, mid: Bytes, strings: Bytes, front: Bytes, tn: Node, fn: Node)
    requires Twin(s, mid, 0) && Kept(fdt, mid, strings, front) && Here(mid, strings, tn) && Here(mid, strings, fn)
    ensures Kept(fdt, s, strings, front) && Both(fdt, tn, fn)
  {
    hide Twin, Here, Events, Kept, Sees;
    SeesOn(fdt, mid, strings, front, tn);
    SeesOn(fdt, mid, strings, front, fn);
    KeptOn(fdt, s, mid, strings, front);
  }

  /** The k-th offset of a fixup property. */
  method ListedOffset(fdt: Blob, prop: nat, k: nat, ghost fn: Node, ghost i: nat) returns (poffset: nat)
    requires Sees(fdt, fn) && i < |fn.props| && fn.props[i].slot == prop
    requires prop < |Vals(fdt)| && 4 * k + 4 <= |Vals(fdt)[prop]|
    ensures poffset == OffsetAt(Vals(fdt)[prop], k) < LIMIT32
  {
    hide First, TagAt, Boundary, ValueAt, Here, Events, U32, Blob.Struct, Blob.Strings, NextPropFrom, StringAt,
      CheckedNode;
    PropHere(fdt.Struct(), fdt.Strings(), fn, i);
    poffset := NumberIn(fdt, prop, 4 * k);
  }

  /** Adds delta to the numbers that a fixup property lists for a property of the tree. */
  method FixList(fdt: Blob, tree: nat, name: Bytes, t: nat, prop: nat, len: nat, delta: nat,
                 ghost tn: Node, ghost fn: Node, ghost i: nat, ghost f: set<nat>)
    returns (err: int)
    requires Both(fdt, tn, fn) && Readable(fdt) && tn.at == tree && FindProp(tn, name, 0) == Some(t) && t < |Vals(fdt)|
    requires i < |fn.props| && fn.props[i].slot == prop && prop < |Vals(fdt)| && |Vals(fdt)[prop]| == 4 * len
    requires prop in f && t !in f
    modifies fdt.buf
    ensures Kept(fdt, old(fdt.Struct()), old(fdt.Strings()), old(FrontOf(fdt))) && Both(fdt, tn, fn)
    ensures var rs := old(ListTo(Vals(fdt)[prop], t, |Vals(fdt)[t]|, len));
            && (err == 0 <==> rs.Some?)
            && (err == 0 ==> AllInside(old(Vals(fdt)), rs.value) && Outside(rs.value, f)
                             && Readable(fdt) && Vals(fdt) == AddAll(old(Vals(fdt)), rs.value, delta))
    ensures err == old(ListCode(Vals(fdt)[prop], |Vals(fdt)[t]|, len))
  {
    hide First, TagAt, Boundary, Here, Events, Twin, ValuesOf, ListTo, AddAll, AllInside, OffsetAt, Outside, AddAt,
      Blob.Struct, Blob.Strings, Kept, Sees, FindProp, Both;
    BothFacts(fdt, tn, fn);
    ghost var s, strings, front, start := fdt.Struct(), fdt.Strings(), FrontOf(fdt), Vals(fdt);
    ghost var v, size := start[prop], |start[t]|;
    KeptSelf(fdt);
    ListStart(start, v, t, size, delta);
    var k := 0;
    while k < len
      invariant 0 <= k <= len && Kept(fdt, s, strings, front) && Both(fdt, tn, fn) && Readable(fdt)
      invariant ListCode(v, size, k) == 0
      invariant ListTo(v, t, size, k).Some? && AllInside(start, ListTo(v, t, size, k).value)
      invariant Vals(fdt) == AddAll(start, ListTo(v, t, size, k).value, delta) && Vals(fdt)[prop] == v
    {
      ghost var mid := fdt.Struct();
      BothFacts(fdt, tn, fn);
      KeptFacts(fdt, s, strings, front);
      ListStep(start, v, t, k, f, delta);
      AddAtKeeps(start, v, t, size, k, delta, prop);
      var poffset := ListedOffset(fdt, prop, k, fn, i);
      err := AddToNumber(fdt, tree, name, t, poffset, delta, tn);
      BothOn(fdt, s, mid, strings, front, tn, fn);
      KeptFacts(fdt, s, strings, front);
      k := k + 1;
      if err != 0 {
        ListNever(v, t, size, k, len);
        ListStays(v, size, k, len);
        if err == -ERR_NOSPACE {
          err := -ERR_BADOVERLAY;
        }
        return;
      }
    }
    ListInside(v, t, start, len, f);
    return 0;
  }

  /** Adding to numbers keeps lengths, and values of other slots. */
  lemma AddAtKeeps(start: Values, v: Bytes, t: nat, size: nat, k: nat, delta: nat, prop: nat)
    requires t < |start| && prop < |start| && prop != t && size == |start[t]| && 4 * k + 4 <= |v|
    requires ListTo(v, t, size, k).Some? && AllInside(start, ListTo(v, t, size, k).value)
    ensures var now := AddAll(start, ListTo(v, t, size, k).value, delta);
            && |now| == |start| && |now[t]| == size
            && (OffsetAt(v, k) + 4 <= size ==> AddAt(now, Ref(t, OffsetAt(v, k)), delta)[prop] == now[prop])
  {
    hide ListTo, AllInside, OffsetAt, Plus;
  }

  /** Adds delta to the numbers that one fixup property lists. */
  method UpdateProp(fdt: Blob, tree: nat, prop: nat, delta: nat, ghost tn: Node, ghost fn: Node, ghost i: nat,
      ghost f: set<nat>)
    returns (err: int)
    requires Both(fdt, tn, fn) && Readable(fdt) && tn.at == tree && i < |fn.props| && fn.props[i].slot == prop
    requires prop in f && SlotOf(tn, fn.props[i].name) !! f
    modifies fdt.buf
    ensures Kept(fdt, old(fdt.Struct()), old(fdt.Strings()), old(FrontOf(fdt))) && Both(fdt, tn, fn) && Readable(fdt)
    ensures err == 0 <==> old(PropRefs(tn, fn, Vals(fdt), i)).Some?
    ensures err == 0 ==> Applied(fdt, old(Vals(fdt)), old(PropRefs(tn, fn, Vals(fdt), i)).value, delta, f)
    ensures err == old(PropCode(tn, fn, Vals(fdt), i))
  {
    hide First, TagAt, Boundary, Here, Events, Twin, ValuesOf, ListTo, AddAll, AllInside, OffsetAt, Outside, ValueAt,
      Found, Blob.Struct, Blob.Strings, Kept, Sees, FindProp, Both, StringAt, NextPropFrom, CheckedNode, ListCode;
    BothFacts(fdt, tn, fn);
    KeptSelf(fdt);
    ghost var s, strings, front := fdt.Struct(), fdt.Strings(), FrontOf(fdt);
    PropHere(s, strings, fn, i);
    var len := ValueLength(fdt, prop);
    if len % 4 != 0 {
      return -ERR_BADOVERLAY;
    }
    var name := PropertyName(fdt, prop);
    CellAt(s, strings, tn, name);
    var t := GetProperty(fdt, tree, name);
    if t < 0 {
      return if t == -ERR_NOTFOUND then -ERR_BADOVERLAY else t;
    }
    SlotIs(tn, name);
    err := FixList(fdt, tree, name, t, prop, len / 4, delta, tn, fn, i, f);
    KeptFacts(fdt, s, strings, front);
  }

  /** The references have been added to, and none of them lies in a set of slots. */
  ghost predicate Applied(fdt: Blob, vals: Values, rs: seq<Ref>, delta: nat, f: set<nat>)
    reads fdt, fdt.buf
  {
    Laid(fdt) && AllInside(vals, rs) && Vals(fdt) == AddAll(vals, rs, delta) && Outside(rs, f)
  }

  lemma SlotIs(n: Node, name: Bytes)
    requires FindProp(n, name, 0).Some?
    ensures FindProp(n, name, 0).value in SlotOf(n, name)
  {
  }

  lemma AppliedNone(fdt: Blob, delta: nat, f: set<nat>)
    requires Readable(fdt)
    ensures Applied(fdt, Vals(fdt), [], delta, f)
  {
    hide Events, ValuesOf;
    Begun(Vals(fdt), delta, f);
  }

  /** What has been done, and what that leaves as it was. */
  lemma AppliedSo(fdt: Blob, start: Values, rs: seq<Ref>, delta: nat, f: set<nat>)
    requires Applied(fdt, start, rs, delta, f)
    ensures SameFor(start, Vals(fdt), f) && AllInside(start, rs) && Vals(fdt) == AddAll(start, rs, delta) &&
      Outside(rs, f)
  {
    hide AddAll, AllInside, Outside, SameFor, ValuesOf;
    AddAllOutside(start, rs, delta, f);
  }

  /** One part of the work after another. */
  lemma AppliedMore(fdt: Blob, start: Values, a: seq<Ref>, mid: Values, b: seq<Ref>, delta: nat, f: set<nat>)
    requires AllInside(start, a) && mid == AddAll(start, a, delta) && Outside(a, f) && Applied(fdt, mid, b, delta, f)
    ensures Applied(fdt, start, a + b, delta, f)
  {
    hide AddAll, AllInside, Outside, SameFor, ValuesOf;
    Further(start, a, mid, b, delta, f);
  }

  /** Adds delta to the numbers listed in the properties of a fixup node. */
  method UpdateProps(fdt: Blob, tree: nat, fix: nat, delta: nat, ghost tn: Node, ghost fn: Node, ghost f: set<nat>)
    returns (err: int)
    requires Both(fdt, tn, fn) && Readable(fdt) && tn.at == tree && fn.at == fix
    requires OwnSlots(fn) <= f && forall i | 0 <= i < |fn.props| :: SlotOf(tn, fn.props[i].name) !! f
    modifies fdt.buf
    ensures Kept(fdt, old(fdt.Struct()), old(fdt.Strings()), old(FrontOf(fdt))) && Both(fdt, tn, fn) && Readable(fdt)
    ensures err == 0 <==> old(PropRefsTo(tn, fn, Vals(fdt), |fn.props|)).Some?
    ensures err == 0 ==> Applied(fdt, old(Vals(fdt)), old(PropRefsTo(tn, fn, Vals(fdt), |fn.props|)).value, delta, f)
    ensures err == old(PropCodeTo(tn, fn, Vals(fdt), |fn.props|))
  {
    hide First, TagAt, Boundary, Here, Events, Twin, ValuesOf, AddAll, AllInside, Outside, PropRefs, SameFor, SlotOf,
      StringAt, Blob.Struct, Blob.Strings, Kept, Sees, Both, NextPropFrom, CheckedNode, PropCode, Applied,
      ValueAt;
    BothFacts(fdt, tn, fn);
    KeptSelf(fdt);
    ghost var s, strings, front, start := fdt.Struct(), fdt.Strings(), FrontOf(fdt), Vals(fdt);
    AppliedNone(fdt, delta, f);
    ghost var i := 0;
    FirstProp(s, strings, fn);
    var b := CheckNodeOffset(fdt, fix);
    var prop := NextProp(fdt, b);
    while prop >= 0
      invariant 0 <= i <= |fn.props| && prop == if i < |fn.props| then fn.props[i].slot else -ERR_NOTFOUND
      invariant Kept(fdt, s, strings, front) && Both(fdt, tn, fn) && Readable(fdt)
      invariant PropCodeTo(tn, fn, start, i) == 0
      invariant PropRefsTo(tn, fn, start, i).Some? && Applied(fdt, start, PropRefsTo(tn, fn, start, i).value, delta, f)
      decreases |fn.props| - i
    {
      ghost var rs, mid, midS := PropRefsTo(tn, fn, start, i).value, Vals(fdt), fdt.Struct();
      BothFacts(fdt, tn, fn);
      KeptFacts(fdt, s, strings, front);
      AppliedSo(fdt, start, rs, delta, f);
      assert fn.props[i].slot in OwnSlots(fn);
      PropRefsSameOne(tn, fn, start, mid, f, i);
      PropCodeSame(tn, fn, start, mid, f, i);
      err := UpdateProp(fdt, tree, prop, delta, tn, fn, i, f);
      BothOn(fdt, s, midS, strings, front, tn, fn);
      i := i + 1;
      if err != 0 {
        PropNever(tn, fn, start, i, |fn.props|);
        PropStays(tn, fn, start, i, |fn.props|);
        return;
      }
      AppliedMore(fdt, start, rs, mid, PropRefs(tn, fn, start, i - 1).value, delta, f);
      BothFacts(fdt, tn, fn);
      KeptFacts(fdt, s, strings, front);
      PropHere(fdt.Struct(), strings, fn, i - 1);
      prop := NextPropertyOffset(fdt, prop);
    }
    return 0;
  }

  lemma FirstProp(s: Bytes, strings: Bytes, n: Node)
    requires Here(s, strings, n) && Events(s, strings).Some?
    ensures NextPropFrom(s, CheckedNode(s, n.at)) == if n.props != [] then n.props[0].slot else -ERR_NOTFOUND
    ensures CheckedNode(s, n.at) >= 0
  {
    hide First, TagAt, Boundary, Here, Events, NextPropFrom, CheckedNode, StringAt, ValueAt;
    HereGenuine(s, strings, n);
    if n.props == [] {
      NoProps(s, strings, n);
    } else {
      PropHere(s, strings, n, 0);
    }
  }

  /** Adds delta to every number that the local fixups list for a node and everything below it. */
  method UpdateNode(fdt: Blob, tree: nat, fix: nat, delta: nat, ghost tn: Node, ghost fn: Node, ghost f: set<nat>)
    returns (err: int)
    requires Both(fdt, tn, fn) && Readable(fdt) && tn.at == tree && fn.at == fix
    requires Slots(fn) <= f && Apart(tn, fn, f)
    modifies fdt.buf
    ensures Kept(fdt, old(fdt.Struct()), old(fdt.Strings()), old(FrontOf(fdt))) && Both(fdt, tn, fn) && Readable(fdt)
    ensures err == 0 <==> old(Refs(tn, fn, Vals(fdt))).Some?
    ensures err == 0 ==> Applied(fdt, old(Vals(fdt)), old(Refs(tn, fn, Vals(fdt))).value, delta, f)
    ensures err == old(Code(tn, fn, Vals(fdt)))
    decreases fn
  {
    hide First, TagAt, Boundary, Here, Events, Twin, ValuesOf, AddAll, AllInside, Outside, PropRefsTo, SameFor,
      SlotOf, Apart, Blob.Struct, Blob.Strings, Kept, Sees, Both, CheckedNode, CodeTo, Applied, KidFrom, FindKid,
      SubNode, NameAt, Slots, OwnSlots, RefsTo;
    BothFacts(fdt, tn, fn);
    ghost var s, strings, front, start := fdt.Struct(), fdt.Strings(), FrontOf(fdt), Vals(fdt);
    NodeParts(tn, fn, f);
    RefsWhole(tn, fn, start);
    err := UpdateProps(fdt, tree, fix, delta, tn, fn, f);
    if err != 0 {
      RefsNever(tn, fn, start, 0, |fn.kids|);
      CodeStays(tn, fn, start, 0, |fn.kids|);
      return;
    }
    BothFacts(fdt, tn, fn);
    KeptFacts(fdt, s, strings, front);
    FirstKid(fdt.Struct(), strings, fn);
    ghost var k := 0;
    var child := FirstSubnode(fdt, fix);
    while child >= 0
      invariant 0 <= k <= |fn.kids| && child == if k < |fn.kids| then fn.kids[k].at else -ERR_NOTFOUND
      invariant Kept(fdt, s, strings, front) && Both(fdt, tn, fn) && Readable(fdt)
      invariant CodeTo(tn, fn, start, k) == 0
      invariant RefsTo(tn, fn, start, k).Some? && Applied(fdt, start, RefsTo(tn, fn, start, k).value, delta, f)
      decreases |fn.kids| - k
    {
      ghost var kid := fn.kids[k];
      BothFacts(fdt, tn, fn);
      KeptFacts(fdt, s, strings, front);
      SeesKid(fdt, fn, k);
      var t := MatchingKid(fdt, tree, child, tn, kid);
      k := k + 1;
      RefsStep(tn, fn, start, k);
      if t < 0 {
        RefsNever(tn, fn, start, k, |fn.kids|);
        CodeStays(tn, fn, start, k, |fn.kids|);
        return if t == -ERR_NOTFOUND then -ERR_BADOVERLAY else t;
      }
      err := UpdateKid(fdt, t, child, delta, tn, fn, f, k, s, front, start);
      if err != 0 {
        RefsNever(tn, fn, start, k, |fn.kids|);
        CodeStays(tn, fn, start, k, |fn.kids|);
        return;
      }
      BothFacts(fdt, tn, fn);
      SeesKid(fdt, fn, k - 1);
      SeesFacts(fdt, kid);
      child := NextSubnode(fdt, child);
    }
    return 0;
  }

  /** The child of a node of the tree that a child of the fixup node is about. */
  method MatchingKid(fdt: Blob, tree: nat, child: nat, ghost tn: Node, ghost kid: Node) returns (t: int)
    requires Sees(fdt, tn) && Sees(fdt, kid) && tn.at == tree && kid.at == child
    ensures t == if FindKid(tn, kid.name, 0).None? then -ERR_NOTFOUND else tn.kids[FindKid(tn, kid.name, 0).value].at
  {
    hide First, TagAt, Boundary, Events, FindKid, SubNode, NameAt, CheckedNode, Forest, Props, Blob.Struct,
      Blob.Strings;
    FindKidHere(fdt.Struct(), fdt.Strings(), tn, kid.name);
    var name := NodeName(fdt, child);
    t := SubnodeOffset(fdt, tree, name);
  }

  /** One child of the fixup node, after those before it. */
  method UpdateKid(fdt: Blob, t: nat, child: nat, delta: nat, ghost tn: Node, ghost fn: Node, ghost f: set<nat>,
      ghost k: nat,
                   ghost s: Bytes, ghost front: Bytes, ghost start: Values)
    returns (err: int)
    requires Both(fdt, tn, fn) && Readable(fdt) && Kept(fdt, s, fdt.Strings(), front)
    requires Slots(fn) <= f && Apart(tn, fn, f) && 1 <= k <= |fn.kids| && fn.kids[k - 1].at == child
    requires FindKid(tn, fn.kids[k - 1].name, 0).Some? && tn.kids[FindKid(tn, fn.kids[k - 1].name, 0).value].at == t
    requires CodeTo(tn, fn, start, k - 1) == 0
    requires RefsTo(tn, fn, start, k - 1).Some? && Applied(fdt, start, RefsTo(tn, fn, start, k - 1).value, delta, f)
    modifies fdt.buf
    ensures Kept(fdt, s, old(fdt.Strings()), front) && Both(fdt, tn, fn) && Readable(fdt)
    ensures err == 0 <==> RefsTo(tn, fn, start, k).Some?
    ensures err == 0 ==> Applied(fdt, start, RefsTo(tn, fn, start, k).value, delta, f)
    ensures err == CodeTo(tn, fn, start, k)
    decreases fn, 0
  {
    hide First, TagAt, Boundary, Here, Events, Twin, ValuesOf, AddAll, AllInside, Outside, SameFor, SlotOf, Apart,
      KidFrom, Blob.Struct, Blob.Strings, Kept, Sees, Both, CheckedNode, Applied, FindKid, Slots, Refs, Code, CodeTo,
      RefsTo;
    ghost var strings, midS, mid := fdt.Strings(), fdt.Struct(), Vals(fdt);
    ghost var kid, j := fn.kids[k - 1], FindKid(tn, fn.kids[k - 1].name, 0).value;
    ghost var rs := RefsTo(tn, fn, start, k - 1).value;
    BothFacts(fdt, tn, fn);
    KeptFacts(fdt, s, strings, front);
    AppliedSo(fdt, start, rs, delta, f);
    KidParts(tn, fn, f, k, j);
    RefsSameAll(tn.kids[j], kid, start, mid, f);
    CodeSameAll(tn.kids[j], kid, start, mid, f);
    RefsStep(tn, fn, start, k);
    BothKids(fdt, tn, j, fn, k - 1);
    err := UpdateNode(fdt, t, child, delta, tn.kids[j], kid, f);
    BothOn(fdt, s, midS, strings, front, tn, fn);
    if err == 0 {
      AppliedMore(fdt, start, rs, mid, Refs(tn.kids[j], kid, start).value, delta, f);
    }
  }

  lemma BothKids(fdt: Blob, tn: Node, j: nat, fn: Node, k: nat)
    requires Both(fdt, tn, fn) && j < |tn.kids| && k < |fn.kids|
    ensures Both(fdt, tn.kids[j], fn.kids[k])
  {
    hide Sees;
    SeesKid(fdt, tn, j);
    SeesKid(fdt, fn, k);
  }

  lemma RefsWhole(tn: Node, fn: Node, vals: Values)
    ensures Refs(tn, fn, vals) == RefsTo(tn, fn, vals, |fn.kids|)
    ensures RefsTo(tn, fn, vals, 0) == PropRefsTo(tn, fn, vals, |fn.props|)
    ensures Code(tn, fn, vals) == CodeTo(tn, fn, vals, |fn.kids|)
    ensures CodeTo(tn, fn, vals, 0) == PropCodeTo(tn, fn, vals, |fn.props|)
  {
    hide PropRefsTo, PropCodeTo;
  }

  lemma RefsStep(tn: Node, fn: Node, vals: Values, k: nat)
    requires 1 <= k <= |fn.kids|
    ensures var t := FindKid(tn, fn.kids[k - 1].name, 0);
            RefsTo(tn, fn, vals, k) ==
              if t.None? then None else Join(RefsTo(tn, fn, vals, k - 1), Refs(tn.kids[t.value], fn.kids[k - 1], vals))
    ensures var t := FindKid(tn, fn.kids[k - 1].name, 0);
            CodeTo(tn, fn, vals, k - 1) == 0 ==>
              CodeTo(tn, fn, vals, k) ==
                if t.None? then -ERR_BADOVERLAY else Code(tn.kids[t.value], fn.kids[k - 1], vals)
  {
    hide FindKid, Refs, PropRefsTo, Code, PropCodeTo;
  }

  lemma RefsSameAll(tn: Node, fn: Node, a: Values, b: Values, f: set<nat>)
    requires SameFor(a, b, f) && Slots(fn) <= f
    ensures Refs(tn, fn, a) == Refs(tn, fn, b)
  {
    RefsSame(tn, fn, a, b, f, |fn.kids|);
  }

  lemma CodeSameAll(tn: Node, fn: Node, a: Values, b: Values, f: set<nat>)
    requires SameFor(a, b, f) && Slots(fn) <= f
    ensures Code(tn, fn, a) == Code(tn, fn, b)
  {
    CodeSame(tn, fn, a, b, f, |fn.kids|);
  }
}
