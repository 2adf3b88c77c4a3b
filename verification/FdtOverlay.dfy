/**
 Renumbering the phandles of an overlay, as a change to the values of its properties: every phandle
 of the overlay moves up by the largest one of the base tree, and so does every reference listed in
 the local fixups. A slot is the offset of a property's tag.
 */
module FdtOverlay {
  import opened Basics
  import opened FdtFormat
  import opened FdtNodes
  import opened FdtTree
  import opened FdtProps
  import opened FdtForest

  const ERR_BADPHANDLE: int := 6
  const ERR_BADOVERLAY: int := 16
  const ERR_NOPHANDLES: int := 17

  const NO_PHANDLE: nat := 0xffff_ffff

  const PHANDLE: Bytes := [112, 104, 97, 110, 100, 108, 101]
  const LINUX_PHANDLE: Bytes := [108, 105, 110, 117, 120, 44] + PHANDLE
  const LOCAL_FIXUPS: Bytes := [95, 95, 108, 111, 99, 97, 108, 95, 102, 105, 120, 117, 112, 115, 95, 95]

  // ---- trees and their values

  type Values = seq<Bytes>

  ghost function OwnSlots(n: Node): set<nat> {
    set i | 0 <= i < |n.props| :: n.props[i].slot
  }

  /** The slots of a node's properties and of those below its first k children. */
  ghost function SlotsTo(n: Node, k: nat): set<nat>
    requires k <= |n.kids|
    decreases n, k
  {
    if k == 0 then OwnSlots(n) else SlotsTo(n, k - 1) + Slots(n.kids[k - 1])
  }

  ghost function Slots(n: Node): set<nat>
    decreases n, |n.kids| + 1
  {
    SlotsTo(n, |n.kids|)
  }

  /** Every property has a slot of its own. */
  ghost predicate Distinct(n: Node)
    decreases n, |n.kids| + 1
  {
    && (forall i, j | 0 <= i < j < |n.props| :: n.props[i].slot != n.props[j].slot)
    && DistinctTo(n, |n.kids|)
  }

  ghost predicate DistinctTo(n: Node, k: nat)
    requires k <= |n.kids|
    decreases n, k
  {
    k == 0 || (DistinctTo(n, k - 1) && Distinct(n.kids[k - 1]) && SlotsTo(n, k - 1) !! Slots(n.kids[k - 1]))
  }

  /** A property's tag between two offsets of the block. */
  ghost predicate SlotIn(s: Bytes, q: nat, lo: int, hi: int) {
    lo < q < hi && q < |s| && q % 4 == 0 && Boundary(s, q) && TagAt(s, q).0 == PROP
  }

  /** Where the k-th child starts, or the node ends. */
  ghost function Upto(s: Bytes, n: Node, k: nat): int
    requires k <= |n.kids|
  {
    if k < |n.kids| then n.kids[k].at else EndOf(s, n.at)
  }

  lemma OwnSlotsHere(s: Bytes, strings: Bytes, n: Node)
    requires Here(s, strings, n)
    ensures forall q | q in OwnSlots(n) :: SlotIn(s, q, n.at, Upto(s, n, 0))
    ensures forall i, j | 0 <= i < j < |n.props| :: n.props[i].slot < n.props[j].slot
  {
    hide First, Scan, TagAt, Forest, Props, CloseFrom, TreeAt, KidFrom, NextPropFrom, Boundary;
    TreeParts(s, strings, n);
    SpanScan(s, n.at);
    FirstKid(s, strings, n);
    var b := CheckedNode(s, n.at);
    BoundaryOn(s, n.at, b);
    forall i | 0 <= i < |n.props|
      ensures SlotIn(s, n.props[i].slot, n.at, Upto(s, n, 0)) && (i > 0 ==> n.props[i - 1].slot < n.props[i].slot)
    {
      PropsAt(s, strings, b, i);
    }
    Increasing(n);
  }

  lemma Increasing(n: Node)
    requires forall i | 1 <= i < |n.props| :: n.props[i - 1].slot < n.props[i].slot
    ensures forall i, j | 0 <= i < j < |n.props| :: n.props[i].slot < n.props[j].slot
  {
    forall i, j | 0 <= i < j < |n.props| ensures n.props[i].slot < n.props[j].slot {
      IncreasingTo(n, i, j);
    }
  }

  lemma {:induction false} IncreasingTo(n: Node, i: nat, j: nat)
    requires (forall k | 1 <= k < |n.props| :: n.props[k - 1].slot < n.props[k].slot) && i < j < |n.props|
    ensures n.props[i].slot < n.props[j].slot
    decreases j
  {
    if i < j - 1 {
      IncreasingTo(n, i, j - 1);
    }
  }

  /** The slots of a node of the block are tags within it, and all different. */
  lemma {:induction false} SlotsToHere(s: Bytes, strings: Bytes, n: Node, k: nat)
    requires Here(s, strings, n) && k <= |n.kids|
    ensures forall q | q in SlotsTo(n, k) :: SlotIn(s, q, n.at, Upto(s, n, k))
    ensures DistinctTo(n, k)
    decreases n, k
  {
    hide First, Scan, TagAt, CloseFrom, TreeAt, CheckedNode, KidFrom, Boundary, NodeAt, Here, OwnSlots;
    if k == 0 {
      OwnSlotsHere(s, strings, n);
    } else {
      SlotsToHere(s, strings, n, k - 1);
      var kid := n.kids[k - 1];
      KidHere(s, strings, n, k - 1);
      SlotsHere(s, strings, kid);
    }
  }

  lemma {:induction false} SlotsHere(s: Bytes, strings: Bytes, n: Node)
    requires Here(s, strings, n)
    ensures forall q | q in Slots(n) :: SlotIn(s, q, n.at, EndOf(s, n.at))
    ensures Distinct(n)
    decreases n, |n.kids| + 1
  {
    hide First, Scan, TagAt, CloseFrom, TreeAt, CheckedNode, KidFrom, Boundary, NodeAt, Here, OwnSlots, SlotIn;
    SlotsToHere(s, strings, n, |n.kids|);
    OwnSlotsHere(s, strings, n);
  }

  // ---- phandles

  ghost function SlotOf(n: Node, name: Bytes): set<nat> {
    if FindProp(n, name, 0).Some? then {FindProp(n, name, 0).value} else {}
  }

  /** The slots that hold phandles, in a node and below its first k children. */
  ghost function PhandlesTo(n: Node, k: nat): (r: set<nat>)
    requires k <= |n.kids|
    ensures r <= SlotsTo(n, k)
    decreases n, k
  {
    if k == 0 then SlotOf(n, PHANDLE) + SlotOf(n, LINUX_PHANDLE)
    else PhandlesTo(n, k - 1) + Phandles(n.kids[k - 1])
  }

  ghost function Phandles(n: Node): (r: set<nat>)
    ensures r <= Slots(n)
    decreases n, |n.kids| + 1
  {
    PhandlesTo(n, |n.kids|)
  }

  /** A phandle that can be moved up by delta. */
  predicate Movable(v: Bytes, delta: nat) {
    |v| == 4 && U32(v) + delta < NO_PHANDLE
  }

  /** A value with delta added to its number at an offset, in 32-bit arithmetic. */
  function Plus(v: Bytes, off: nat, delta: nat): (r: Bytes)
    requires off + 4 <= |v|
    ensures |r| == |v|
  {
    v[..off] + Be32((U32(v[off..off + 4]) + delta) % LIMIT32) + v[off + 4..]
  }

  function Up(v: Bytes, delta: nat): (r: Bytes)
    ensures |r| == |v|
  {
    if |v| == 4 then Plus(v, 0, delta) else v
  }

  /** The values with some slots moved up. */
  ghost function Shifted(vals: Values, slots: set<nat>, delta: nat): (r: Values)
    ensures |r| == |vals|
    ensures forall i | 0 <= i < |r| :: r[i] == if i in slots then Up(vals[i], delta) else vals[i]
  {
    seq(|vals|, i requires 0 <= i < |vals| => if i in slots then Up(vals[i], delta) else vals[i])
  }

  ghost predicate AllMovable(vals: Values, slots: set<nat>, delta: nat) {
    forall i: nat | i in slots :: i < |vals| && Movable(vals[i], delta)
  }

  lemma ShiftedMore(vals: Values, a: set<nat>, b: set<nat>, delta: nat)
    requires a !! b
    ensures Shifted(Shifted(vals, a, delta), b, delta) == Shifted(vals, a + b, delta)
    ensures AllMovable(Shifted(vals, a, delta), b, delta) <==> AllMovable(vals, b, delta)
  {
  }

  lemma ShiftedSame(vals: Values, slots: set<nat>, delta: nat, f: set<nat>)
    requires slots !! f
    ensures SameFor(vals, Shifted(vals, slots, delta), f)
  {
  }

  lemma ShiftedNone(vals: Values, delta: nat)
    ensures Shifted(vals, {}, delta) == vals
  {
  }

  lemma OwnPhandles(n: Node)
    requires Distinct(n)
    ensures SlotOf(n, PHANDLE) !! SlotOf(n, LINUX_PHANDLE)
    ensures SlotOf(n, PHANDLE) <= Slots(n) && SlotOf(n, LINUX_PHANDLE) <= Slots(n)
    ensures PhandlesTo(n, 0) == SlotOf(n, PHANDLE) + SlotOf(n, LINUX_PHANDLE)
  {
    hide Distinct;
    OwnWithin(n, |n.kids|);
    DifferentNames(n);
  }

  lemma DifferentNames(n: Node)
    requires Distinct(n)
    ensures SlotOf(n, PHANDLE) !! SlotOf(n, LINUX_PHANDLE)
  {
    assert |PHANDLE| != |LINUX_PHANDLE|;
    if FindProp(n, PHANDLE, 0).Some? && FindProp(n, LINUX_PHANDLE, 0).Some? {
      var i :| 0 <= i < |n.props| && n.props[i] == Prop(PHANDLE, FindProp(n, PHANDLE, 0).value);
      var j :| 0 <= j < |n.props| && n.props[j] == Prop(LINUX_PHANDLE, FindProp(n, LINUX_PHANDLE, 0).value);
      assert i < j || j < i;
    }
  }

  lemma {:induction false} OwnWithin(n: Node, k: nat)
    requires k <= |n.kids|
    ensures OwnSlots(n) <= SlotsTo(n, k)
    ensures forall name :: SlotOf(n, name) <= OwnSlots(n)
    decreases k
  {
    forall name ensures SlotOf(n, name) <= OwnSlots(n) {
    }
    if k > 0 {
      OwnWithin(n, k - 1);
    }
  }

  lemma {:induction false} WithinTo(n: Node, k: nat, m: nat)
    requires k <= m <= |n.kids|
    ensures SlotsTo(n, k) <= SlotsTo(n, m) && PhandlesTo(n, k) <= PhandlesTo(n, m)
    ensures DistinctTo(n, m) ==> DistinctTo(n, k)
    decreases m
  {
    if k < m {
      WithinTo(n, k, m - 1);
    }
  }

  /** A child's slots are in range and apart from those before it. */
  lemma KidApart(n: Node, k: nat)
    requires Distinct(n) && k < |n.kids|
    ensures Distinct(n.kids[k]) && Slots(n.kids[k]) <= Slots(n) && PhandlesTo(n, k) !! Phandles(n.kids[k])
    ensures PhandlesTo(n, k + 1) == PhandlesTo(n, k) + Phandles(n.kids[k])
  {
    WithinTo(n, k + 1, |n.kids|);
  }

  lemma MovableBoth(vals: Values, a: set<nat>, b: set<nat>, delta: nat)
    ensures AllMovable(vals, a + b, delta) <==> AllMovable(vals, a, delta) && AllMovable(vals, b, delta)
  {
  }

  lemma OwnMovable(n: Node, vals: Values, delta: nat)
    requires SlotOf(n, PHANDLE) !! SlotOf(n, LINUX_PHANDLE)
    ensures var a, b := SlotOf(n, PHANDLE), SlotOf(n, LINUX_PHANDLE);
            && (AllMovable(vals, PhandlesTo(n, 0), delta) <==> AllMovable(vals, a, delta) && AllMovable(vals, b, delta))
            && Shifted(Shifted(vals, a, delta), b, delta) == Shifted(vals, PhandlesTo(n, 0), delta)
            && (AllMovable(Shifted(vals, a, delta), b, delta) <==> AllMovable(vals, b, delta))
  {
    MovableBoth(vals, SlotOf(n, PHANDLE), SlotOf(n, LINUX_PHANDLE), delta);
    ShiftedMore(vals, SlotOf(n, PHANDLE), SlotOf(n, LINUX_PHANDLE), delta);
  }

  lemma MovableTo(n: Node, vals: Values, delta: nat, k: nat)
    requires k <= |n.kids| && !AllMovable(vals, PhandlesTo(n, k), delta)
    ensures !AllMovable(vals, Phandles(n), delta)
  {
    WithinTo(n, k, |n.kids|);
  }

  // ---- local references

  /** A number inside a property's value. */
  datatype Ref = Ref(slot: nat, off: nat)

  /** The k-th offset of a fixup property. */
  function OffsetAt(v: Bytes, k: nat): nat
    requires 4 * k + 4 <= |v|
  {
    U32(v[4 * k..4 * k + 4])
  }

  /** The first k references a fixup value lists, all of them inside a value of some size. */
  ghost function ListTo(v: Bytes, slot: nat, size: nat, k: nat): (r: Option<seq<Ref>>)
    requires 4 * k <= |v|
  {
    if k == 0 then Some([])
    else if OffsetAt(v, k - 1) + 4 > size then None
    else Join(ListTo(v, slot, size, k - 1), Some([Ref(slot, OffsetAt(v, k - 1))]))
  }

  /** The references of one fixup property. */
  ghost function PropRefs(tree: Node, fix: Node, vals: Values, i: nat): Option<seq<Ref>>
    requires i < |fix.props|
  {
    var slot, t := fix.props[i].slot, FindProp(tree, fix.props[i].name, 0);
    if slot >= |vals| || |vals[slot]| % 4 != 0 || t.None? || t.value >= |vals| then None
    else ListTo(vals[slot], t.value, |vals[t.value]|, |vals[slot]| / 4)
  }

  ghost function PropRefsTo(tree: Node, fix: Node, vals: Values, i: nat): Option<seq<Ref>>
    requires i <= |fix.props|
  {
    if i == 0 then Some([]) else Join(PropRefsTo(tree, fix, vals, i - 1), PropRefs(tree, fix, vals, i - 1))
  }

  /** The references listed for a node, and below its first k children. */
  ghost function RefsTo(tree: Node, fix: Node, vals: Values, k: nat): Option<seq<Ref>>
    requires k <= |fix.kids|
    decreases fix, k
  {
    if k == 0 then PropRefsTo(tree, fix, vals, |fix.props|)
    else
      var t := FindKid(tree, fix.kids[k - 1].name, 0);
      if t.None? then None
      else Join(RefsTo(tree, fix, vals, k - 1), Refs(tree.kids[t.value], fix.kids[k - 1], vals))
  }

  ghost function Refs(tree: Node, fix: Node, vals: Values): Option<seq<Ref>>
    decreases fix, |fix.kids| + 1
  {
    RefsTo(tree, fix, vals, |fix.kids|)
  }

  /** No fixup is for a property in a set of slots. */
  ghost predicate Apart(tree: Node, fix: Node, f: set<nat>)
    decreases fix, |fix.kids| + 1
  {
    && (forall i | 0 <= i < |fix.props| :: SlotOf(tree, fix.props[i].name) !! f)
    && ApartTo(tree, fix, f, |fix.kids|)
  }

  ghost predicate ApartTo(tree: Node, fix: Node, f: set<nat>, k: nat)
    requires k <= |fix.kids|
    decreases fix, k
  {
    k == 0 ||
    (&& ApartTo(tree, fix, f, k - 1)
     && (FindKid(tree, fix.kids[k - 1].name, 0).Some? ==>
           Apart(tree.kids[FindKid(tree, fix.kids[k - 1].name, 0).value], fix.kids[k - 1], f)))
  }

  lemma {:induction false} ApartBelow(tree: Node, fix: Node, f: set<nat>, k: nat, m: nat)
    requires k <= m <= |fix.kids| && ApartTo(tree, fix, f, m)
    ensures ApartTo(tree, fix, f, k)
    decreases m
  {
    if k < m {
      ApartBelow(tree, fix, f, k, m - 1);
    }
  }

  /** The same in what the list of references depends on. */
  ghost predicate SameFor(a: Values, b: Values, f: set<nat>) {
    && |a| == |b| && (forall i | 0 <= i < |a| :: |a[i]| == |b[i]|)
    && forall i | 0 <= i < |a| && i in f :: a[i] == b[i]
  }

  lemma {:induction false} PropRefsSame(tree: Node, fix: Node, a: Values, b: Values, f: set<nat>, i: nat)
    requires i <= |fix.props| && SameFor(a, b, f) && OwnSlots(fix) <= f
    ensures PropRefsTo(tree, fix, a, i) == PropRefsTo(tree, fix, b, i)
    decreases i
  {
    if i > 0 {
      PropRefsSame(tree, fix, a, b, f, i - 1);
      assert fix.props[i - 1].slot in OwnSlots(fix);
    }
  }

  lemma {:induction false} RefsSame(tree: Node, fix: Node, a: Values, b: Values, f: set<nat>, k: nat)
    requires k <= |fix.kids| && SameFor(a, b, f) && SlotsTo(fix, k) <= f
    ensures RefsTo(tree, fix, a, k) == RefsTo(tree, fix, b, k)
    decreases fix, k
  {
    if k == 0 {
      PropRefsSame(tree, fix, a, b, f, |fix.props|);
    } else {
      RefsSame(tree, fix, a, b, f, k - 1);
      var t := FindKid(tree, fix.kids[k - 1].name, 0);
      if t.Some? {
        RefsSame(tree.kids[t.value], fix.kids[k - 1], a, b, f, |fix.kids[k - 1].kids|);
      }
    }
  }

  // ---- adding to references

  ghost function AddAt(vals: Values, r: Ref, delta: nat): (out: Values)
    requires r.slot < |vals| && r.off + 4 <= |vals[r.slot]|
    ensures |out| == |vals| && forall i | 0 <= i < |vals| :: |out[i]| == |vals[i]|
  {
    vals[r.slot := Plus(vals[r.slot], r.off, delta)]
  }

  predicate Inside(vals: Values, r: Ref) {
    r.slot < |vals| && r.off + 4 <= |vals[r.slot]|
  }

  ghost predicate AllInside(vals: Values, rs: seq<Ref>) {
    forall i | 0 <= i < |rs| :: Inside(vals, rs[i])
  }

  /** Delta added at each reference in turn. */
  ghost function AddAll(vals: Values, rs: seq<Ref>, delta: nat): (out: Values)
    requires AllInside(vals, rs)
    ensures |out| == |vals| && forall i | 0 <= i < |vals| :: |out[i]| == |vals[i]|
    decreases |rs|
  {
    if rs == [] then vals else AddAt(AddAll(vals, rs[..|rs| - 1], delta), rs[|rs| - 1], delta)
  }

  lemma {:induction false} AddAllAppend(vals: Values, a: seq<Ref>, b: seq<Ref>, delta: nat)
    requires AllInside(vals, a) && AllInside(AddAll(vals, a, delta), b)
    ensures AllInside(vals, a + b) && AddAll(vals, a + b, delta) == AddAll(AddAll(vals, a, delta), b, delta)
    decreases |b|
  {
    hide Plus;
    if b == [] {
      assert a + b == a;
    } else {
      var c := b[..|b| - 1];
      AddAllAppend(vals, a, c, delta);
      assert (a + b)[..|a + b| - 1] == a + c;
      assert a + b == (a + c) + [b[|b| - 1]];
    }
  }

  /** References outside a set of slots leave its values alone. */
  ghost predicate Outside(rs: seq<Ref>, f: set<nat>) {
    forall i | 0 <= i < |rs| :: rs[i].slot !in f
  }

  lemma {:induction false} AddAllOutside(vals: Values, rs: seq<Ref>, delta: nat, f: set<nat>)
    requires AllInside(vals, rs) && Outside(rs, f)
    ensures SameFor(vals, AddAll(vals, rs, delta), f)
    decreases |rs|
  {
    hide Plus;
    if rs != [] {
      AddAllOutside(vals, rs[..|rs| - 1], delta, f);
    }
  }

  /** The listed references lie inside their values and outside the fixups. */
  lemma {:induction false} ListInside(v: Bytes, slot: nat, vals: Values, k: nat, f: set<nat>)
    requires 4 * k <= |v| && slot < |vals| && slot !in f && ListTo(v, slot, |vals[slot]|, k).Some?
    ensures AllInside(vals, ListTo(v, slot, |vals[slot]|, k).value) &&
      Outside(ListTo(v, slot, |vals[slot]|, k).value, f)
    decreases k
  {
    if k > 0 {
      ListInside(v, slot, vals, k - 1, f);
    }
  }

  /** One more reference of a list. */
  lemma ListStep(vals: Values, v: Bytes, slot: nat, k: nat, f: set<nat>, delta: nat)
    requires 4 * k + 4 <= |v| && slot < |vals| && slot !in f && ListTo(v, slot, |vals[slot]|, k).Some?
    ensures var rs := ListTo(v, slot, |vals[slot]|, k).value;
            && AllInside(vals, rs)
            && (OffsetAt(v, k) + 4 > |vals[slot]| ==> ListTo(v, slot, |vals[slot]|, k + 1).None?)
            && (OffsetAt(v, k) + 4 <= |vals[slot]| ==>
                  && ListTo(v, slot, |vals[slot]|, k + 1) == Some(rs + [Ref(slot, OffsetAt(v, k))])
                  && AllInside(vals, rs + [Ref(slot, OffsetAt(v, k))])
                  && AddAll(vals, rs + [Ref(slot, OffsetAt(v, k))], delta) ==
                       AddAt(AddAll(vals, rs, delta), Ref(slot, OffsetAt(v, k)), delta))
  {
    hide Plus, U32;
    ListInside(v, slot, vals, k, f);
    var rs := ListTo(v, slot, |vals[slot]|, k).value;
    var r := Ref(slot, OffsetAt(v, k));
    assert (rs + [r])[..|rs|] == rs;
  }

  lemma {:induction false} ListNever(v: Bytes, slot: nat, size: nat, k: nat, m: nat)
    requires k <= m && 4 * m <= |v| && ListTo(v, slot, size, k).None?
    ensures ListTo(v, slot, size, m).None?
    decreases m
  {
    if k < m {
      ListNever(v, slot, size, k, m - 1);
    }
  }

  lemma ListStart(vals: Values, v: Bytes, slot: nat, size: nat, delta: nat)
    ensures ListTo(v, slot, size, 0) == Some([]) && AllInside(vals, []) && AddAll(vals, [], delta) == vals
  {
  }

  /** What a part of the work has left to do, and done. */
  lemma Further(start: Values, a: seq<Ref>, mid: Values, b: seq<Ref>, delta: nat, f: set<nat>)
    requires AllInside(start, a) && mid == AddAll(start, a, delta) && AllInside(mid, b) && Outside(a, f) &&
      Outside(b, f)
    ensures AllInside(start, a + b) && AddAll(mid, b, delta) == AddAll(start, a + b, delta) && Outside(a + b, f)
    ensures SameFor(start, mid, f)
  {
    hide AddAll;
    AddAllAppend(start, a, b, delta);
    AddAllOutside(start, a, delta, f);
  }

  lemma Begun(start: Values, delta: nat, f: set<nat>)
    ensures AllInside(start, []) && AddAll(start, [], delta) == start && Outside([], f)
  {
  }

  lemma {:induction false} PropNever(tree: Node, fix: Node, vals: Values, i: nat, m: nat)
    requires i <= m <= |fix.props| && PropRefsTo(tree, fix, vals, i).None?
    ensures PropRefsTo(tree, fix, vals, m).None?
    decreases m
  {
    if i < m {
      PropNever(tree, fix, vals, i, m - 1);
    }
  }

  lemma {:induction false} RefsNever(tree: Node, fix: Node, vals: Values, k: nat, m: nat)
    requires k <= m <= |fix.kids| && RefsTo(tree, fix, vals, k).None?
    ensures RefsTo(tree, fix, vals, m).None?
    decreases m
  {
    if k < m {
      RefsNever(tree, fix, vals, k, m - 1);
    }
  }

  lemma PropRefsSameOne(tree: Node, fix: Node, a: Values, b: Values, f: set<nat>, i: nat)
    requires i < |fix.props| && SameFor(a, b, f) && fix.props[i].slot in f
    ensures PropRefs(tree, fix, a, i) == PropRefs(tree, fix, b, i)
  {
  }

  lemma NodeParts(tree: Node, fix: Node, f: set<nat>)
    requires Slots(fix) <= f && Apart(tree, fix, f)
    ensures OwnSlots(fix) <= f && OwnSlots(fix) <= Slots(fix) && OwnSlots(tree) <= Slots(tree)
    ensures forall i | 0 <= i < |fix.props| :: SlotOf(tree, fix.props[i].name) !! f
  {
    hide SlotOf;
    OwnWithin(fix, |fix.kids|);
    OwnWithin(tree, |tree.kids|);
  }

  lemma KidParts(tree: Node, fix: Node, f: set<nat>, k: nat, t: nat)
    requires Slots(fix) <= f && Apart(tree, fix, f) && 1 <= k <= |fix.kids| &&
      FindKid(tree, fix.kids[k - 1].name, 0) == Some(t)
    ensures Slots(fix.kids[k - 1]) <= f && Apart(tree.kids[t], fix.kids[k - 1], f)
    ensures Slots(fix.kids[k - 1]) <= Slots(fix) && Slots(tree.kids[t]) <= Slots(tree)
  {
    hide SlotOf, FindKid;
    ApartBelow(tree, fix, f, k, |fix.kids|);
    WithinTo(fix, k, |fix.kids|);
    WithinTo(tree, t + 1, |tree.kids|);
  }
}
