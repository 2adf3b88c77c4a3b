/**
 What renumbering an overlay achieves: its phandles keep clear of the base tree's, and every
 reference listed in the local fixups still leads to the node it led to.
 */
module FdtPhandle {
  import opened Basics
  import opened FdtFormat
  import opened FdtNodes
  import opened FdtProps
  import opened FdtForest
  import opened FdtTwin
  import opened FdtOverlay
  import opened FdtAdjust
  import opened FdtRooted

  // ---- phandles of nodes

  /** A property's value, if it is a single number. */
  ghost function CellOf(n: Node, vals: Values, name: Bytes): Option<nat> {
    var s := FindProp(n, name, 0);
    if s.Some? && s.value < |vals| && |vals[s.value]| == 4 then Some(U32(vals[s.value])) else None
  }

  /** The phandle of a node, 0 if it has none. */
  ghost function Phandle(n: Node, vals: Values): nat {
    if CellOf(n, vals, PHANDLE).Some? then CellOf(n, vals, PHANDLE).value
    else if CellOf(n, vals, LINUX_PHANDLE).Some? then CellOf(n, vals, LINUX_PHANDLE).value
    else 0
  }

  ghost predicate HasPhandle(n: Node) {
    FindProp(n, PHANDLE, 0).Some? || FindProp(n, LINUX_PHANDLE, 0).Some?
  }

  /** The phandles of a tree's nodes are among its phandle slots. */
  lemma {:induction false} NodeSlots(root: Node, k: nat, i: nat)
    requires k <= |root.kids| && i < |NodesTo(root, k)|
    ensures var n := NodesTo(root, k)[i]; SlotOf(n, PHANDLE) + SlotOf(n, LINUX_PHANDLE) <= PhandlesTo(root, k)
    decreases root, k
  {
    hide SlotOf;
    if k > 0 {
      var m := |NodesTo(root, k - 1)|;
      if i < m {
        NodeSlots(root, k - 1, i);
      } else {
        NodeSlots(root.kids[k - 1], |root.kids[k - 1].kids|, i - m);
      }
    }
  }

  // ---- numbers at references

  ghost function Number(vals: Values, r: Ref): nat
    requires Inside(vals, r)
  {
    U32(vals[r.slot][r.off..r.off + 4])
  }

  predicate Misses(q: Ref, r: Ref) {
    q.slot != r.slot || q.off + 4 <= r.off || r.off + 4 <= q.off
  }

  /** A reference is listed once, and no other one overlaps it. */
  ghost predicate Alone(rs: seq<Ref>, i: nat)
    requires i < |rs|
  {
    forall j | 0 <= j < |rs| && j != i :: Misses(rs[j], rs[i])
  }

  lemma PlusMisses(v: Bytes, q: nat, r: nat, delta: nat)
    requires q + 4 <= |v| && r + 4 <= |v| && (q + 4 <= r || r + 4 <= q)
    ensures Plus(v, q, delta)[r..r + 4] == v[r..r + 4]
  {
    hide U32, Be32;
    assert forall k | r <= k < r + 4 :: Plus(v, q, delta)[k] == v[k];
  }

  lemma PlusHits(v: Bytes, off: nat, delta: nat)
    requires off + 4 <= |v|
    ensures U32(Plus(v, off, delta)[off..off + 4]) == (U32(v[off..off + 4]) + delta) % LIMIT32
  {
    hide U32, Be32;
    var b := Be32((U32(v[off..off + 4]) + delta) % LIMIT32);
    assert Plus(v, off, delta)[off..off + 4] == b;
    ReadBe32((U32(v[off..off + 4]) + delta) % LIMIT32);
  }

  lemma {:induction false} AddAllMisses(vals: Values, rs: seq<Ref>, delta: nat, r: Ref)
    requires AllInside(vals, rs) && Inside(vals, r) && forall j | 0 <= j < |rs| :: Misses(rs[j], r)
    ensures Inside(AddAll(vals, rs, delta), r) && Number(AddAll(vals, rs, delta), r) == Number(vals, r)
    decreases |rs|
  {
    hide Plus, U32;
    if rs != [] {
      var front, q := rs[..|rs| - 1], rs[|rs| - 1];
      AddAllMisses(vals, front, delta, r);
      assert Misses(q, r);
      var mid := AddAll(vals, front, delta);
      if q.slot == r.slot {
        PlusMisses(mid[q.slot], q.off, r.off, delta);
      }
    }
  }

  /** A reference listed once gets delta added once. */
  lemma {:induction false} AddAllAlone(vals: Values, rs: seq<Ref>, delta: nat, i: nat)
    requires AllInside(vals, rs) && i < |rs| && Alone(rs, i)
    ensures Inside(AddAll(vals, rs, delta), rs[i])
    ensures Number(AddAll(vals, rs, delta), rs[i]) == (Number(vals, rs[i]) + delta) % LIMIT32
    decreases |rs|
  {
    hide Plus, U32;
    var front, q, r := rs[..|rs| - 1], rs[|rs| - 1], rs[i];
    assert Inside(vals, r);
    var mid := AddAll(vals, front, delta);
    if i == |rs| - 1 {
      forall j | 0 <= j < |front| ensures Misses(front[j], r) {
        assert Misses(rs[j], rs[i]);
      }
      AddAllMisses(vals, front, delta, r);
      PlusHits(mid[q.slot], q.off, delta);
    } else {
      forall j | 0 <= j < |front| && j != i ensures Misses(front[j], front[i]) {
        assert Misses(rs[j], rs[i]);
      }
      AddAllAlone(vals, front, delta, i);
      assert Misses(q, r);
      if q.slot == r.slot {
        PlusMisses(mid[q.slot], q.off, r.off, delta);
      }
    }
  }

  // ---- the overlay as a whole

  /** The values before, after moving up the phandles, and after adding to the references. */
  ghost predicate Renumbered(root: Node, vals0: Values, rs: seq<Ref>, vals2: Values, delta: nat) {
    && AllMovable(vals0, Phandles(root), delta)
    && AllInside(Shifted(vals0, Phandles(root), delta), rs)
    && vals2 == AddAll(Shifted(vals0, Phandles(root), delta), rs, delta)
  }

  lemma UpBy(v: Bytes, delta: nat)
    requires Movable(v, delta)
    ensures U32(Up(v, delta)) == U32(v) + delta
  {
    hide U32, Be32;
    assert v[0..4] == v;
    PlusHits(v, 0, delta);
    assert Up(v, delta)[0..4] == Up(v, delta);
  }

  /** One phandle property. */
  lemma CellMoved(root: Node, vals0: Values, rs: seq<Ref>, vals2: Values, delta: nat, n: Node, name: Bytes)
    requires Renumbered(root, vals0, rs, vals2, delta) && Outside(rs, Phandles(root)) &&
      SlotOf(n, name) <= Phandles(root)
    ensures var c := CellOf(n, vals0, name); c.Some? == FindProp(n, name, 0).Some?
    ensures CellOf(n, vals2, name) ==
            (if FindProp(n, name, 0).None? then None else Some(CellOf(n, vals0, name).value + delta))
    ensures CellOf(n, vals0, name).Some? ==> CellOf(n, vals0, name).value + delta < NO_PHANDLE
  {
    hide U32, Up, AddAll, AllInside, Phandles, FindProp;
    var vals1 := Shifted(vals0, Phandles(root), delta);
    AddAllOutside(vals1, rs, delta, Phandles(root));
    var s := FindProp(n, name, 0);
    if s.Some? {
      assert s.value in SlotOf(n, name);
      UpBy(vals0[s.value], delta);
    }
  }

  /** Every phandle of the overlay has moved up by delta, and no node has gained one. */
  lemma PhandleMoved(root: Node, vals0: Values, rs: seq<Ref>, vals2: Values, delta: nat, i: nat)
    requires Renumbered(root, vals0, rs, vals2, delta) && Outside(rs, Phandles(root)) && i < |Nodes(root)|
    ensures var n := Nodes(root)[i];
            && Phandle(n, vals2) == (if HasPhandle(n) then Phandle(n, vals0) + delta else 0)
            && (!HasPhandle(n) ==> Phandle(n, vals0) == 0)
            && (HasPhandle(n) ==> Phandle(n, vals0) + delta < NO_PHANDLE)
  {
    hide Renumbered, SlotOf, U32;
    var n := Nodes(root)[i];
    NodeSlots(root, |root.kids|, i);
    CellMoved(root, vals0, rs, vals2, delta, n, PHANDLE);
    CellMoved(root, vals0, rs, vals2, delta, n, LINUX_PHANDLE);
  }

  /** The first node with a phandle. */
  ghost function NodeBy(all: seq<Node>, vals: Values, phandle: nat, i: nat): (r: Option<nat>)
    requires i <= |all|
    ensures r.Some? ==> i <= r.value < |all| && Phandle(all[r.value], vals) == phandle
    decreases |all| - i
  {
    if i == |all| then None else if Phandle(all[i], vals) == phandle then Some(i) else NodeBy(all, vals, phandle, i + 1)
  }

  /** Looking a phandle up after the move is looking it up before. */
  lemma {:induction false} SameNode(root: Node, vals0: Values, rs: seq<Ref>, vals2: Values, delta: nat, p: nat, i: nat)
    requires Renumbered(root, vals0, rs, vals2, delta) && Outside(rs, Phandles(root)) && p >= 1 && i <= |Nodes(root)|
    ensures NodeBy(Nodes(root), vals2, p + delta, i) == NodeBy(Nodes(root), vals0, p, i)
    decreases |Nodes(root)| - i
  {
    hide Renumbered, Phandle, HasPhandle, Nodes;
    if i < |Nodes(root)| {
      PhandleMoved(root, vals0, rs, vals2, delta, i);
      SameNode(root, vals0, rs, vals2, delta, p, i + 1);
    }
  }

  lemma RefNumber(root: Node, vals0: Values, rs: seq<Ref>, vals2: Values, delta: nat, k: nat)
    requires Renumbered(root, vals0, rs, vals2, delta) && Outside(rs, Phandles(root)) && k < |rs| && Alone(rs, k) &&
      Inside(vals0, rs[k])
    ensures Inside(vals2, rs[k]) && Number(vals2, rs[k]) == (Number(vals0, rs[k]) + delta) % LIMIT32
  {
    hide Number, Inside, AddAll, Up, AllMovable, Alone, Phandles, AllInside, Shifted;
    var vals1 := Shifted(vals0, Phandles(root), delta);
    ShiftedElsewhere(vals0, Phandles(root), delta, rs[k]);
    AddAllAlone(vals1, rs, delta, k);
  }

  lemma ShiftedElsewhere(vals: Values, slots: set<nat>, delta: nat, r: Ref)
    requires Inside(vals, r) && r.slot !in slots
    ensures Inside(Shifted(vals, slots, delta), r) && Number(Shifted(vals, slots, delta), r) == Number(vals, r)
  {
    hide U32, Up;
  }

  // ---- in the bytes

  /** The phandle of a node in the bytes is its phandle in the tree. */
  lemma PhandleHere(s: Bytes, strings: Bytes, n: Node)
    requires Here(s, strings, n) && Events(s, strings).Some?
    ensures PhandleAt(s, strings, n.at) == Phandle(n, ValuesOf(s)) && !Lost(s, strings, n.at)
  {
    hide First, TagAt, Boundary, ValueAt, Found, FindProp, Here, Events, ValuesOf, U32;
    CellAt(s, strings, n, PHANDLE);
    CellAt(s, strings, n, LINUX_PHANDLE);
  }

  /** A blob before and after the renumbering: the same tags, and values as described. */
  ghost predicate BlobRenumbered(s0: Bytes, strings: Bytes, rs: seq<Ref>, s2: Bytes, delta: nat) {
    && Rooted(s0, strings) && Twin(s0, s2, 0) && Events(s2, strings).Some?
    && Renumbered(Root(s0, strings), ValuesOf(s0), rs, ValuesOf(s2), delta)
  }

  /** The same nodes, in the tree and in the bytes. */
  lemma SameNodes(s0: Bytes, strings: Bytes, s2: Bytes)
    requires Rooted(s0, strings) && Twin(s0, s2, 0) && Events(s2, strings).Some?
    ensures Rooted(s2, strings) && Root(s2, strings) == Root(s0, strings) && Begins(s2, 0) == Begins(s0, 0)
  {
    hide First, TagAt, Events, Twin, CloseFrom, Here, CheckedNode, Begins, TreeAt, Nodes;
    RootHere(s0, strings);
    var n := Root(s0, strings);
    TwinHere(s0, s2, strings, n);
    HereGenuine(s2, strings, n);
    SpanOfRoot(s0, strings);
    TwinBoundary(s0, s2, EndOf(s0, 0));
    TwinTag(s0, s2, EndOf(s0, 0));
    IsTree(s2, strings, n);
    RootedNodes(s0, strings);
    RootedNodes(s2, strings);
  }

  lemma SpanOfRoot(s: Bytes, strings: Bytes)
    requires Rooted(s, strings)
    ensures Boundary(s, EndOf(s, 0))
  {
    hide First, TagAt, Events, CloseFrom, CheckedNode, Scan;
    SpanScan(s, 0);
    assert s[0..EndOf(s, 0)] == s[..EndOf(s, 0)];
  }

  lemma TwinTag(s: Bytes, t: Bytes, off: int)
    requires Twin(s, t, off)
    ensures TagAt(s, off) == TagAt(t, off)
  {
  }

  lemma IsTree(s: Bytes, strings: Bytes, n: Node)
    requires Here(s, strings, n)
    ensures n == TreeAt(s, strings, n.at)
  {
  }

  /** A node of the block, in the tree. */
  lemma NodeInTree(s0: Bytes, strings: Bytes, rs: seq<Ref>, s2: Bytes, delta: nat, i: nat)
    requires BlobRenumbered(s0, strings, rs, s2, delta) && i < |Begins(s0, 0)|
    ensures Begins(s2, 0) == Begins(s0, 0) && i < |Nodes(Root(s0, strings))| &&
      Begins(s0, 0)[i] == Nodes(Root(s0, strings))[i].at
    ensures var n := Nodes(Root(s0, strings))[i];
            && PhandleAt(s0, strings, n.at) == Phandle(n, ValuesOf(s0))
            && PhandleAt(s2, strings, n.at) == Phandle(n, ValuesOf(s2))
  {
    hide First, TagAt, Events, Twin, Here, Begins, PhandleAt, Phandle, Renumbered, ValuesOf, Rooted;
    SameNodes(s0, strings, s2);
    RootedNodes(s0, strings);
    RootHere(s0, strings);
    var root := Root(s0, strings);
    NodesToHere(s0, strings, root, |root.kids|, i);
    var n := Nodes(root)[i];
    TwinHere(s0, s2, strings, n);
    RootedEvents(s0, strings);
    PhandleHere(s0, strings, n);
    PhandleHere(s2, strings, n);
  }

  lemma RootedEvents(s: Bytes, strings: Bytes)
    requires Rooted(s, strings)
    ensures Events(s, strings).Some?
  {
  }

  /** No phandle of the overlay is one of the base tree's, nor the number that is none. */
  lemma NoClash(s0: Bytes, strings: Bytes, rs: seq<Ref>, s2: Bytes, delta: nat, base: Bytes, baseStrings: Bytes, i: nat,
      j: nat)
    requires BlobRenumbered(s0, strings, rs, s2, delta) && Outside(rs, Phandles(Root(s0, strings)))
    requires IsMax(base, baseStrings, Begins(base, 0), delta) && i < |Begins(s0, 0)| && j < |Begins(base, 0)|
    requires PhandleAt(s0, strings, Begins(s0, 0)[i]) >= 1
    ensures Begins(s2, 0) == Begins(s0, 0)
    ensures PhandleAt(s2, strings, Begins(s2, 0)[i]) == PhandleAt(s0, strings, Begins(s0, 0)[i]) + delta < NO_PHANDLE
    ensures PhandleAt(s2, strings, Begins(s2, 0)[i]) != PhandleAt(base, baseStrings, Begins(base, 0)[j])
  {
    hide Renumbered, Phandle, PhandleAt, Begins, Twin, Events, Rooted, Root, ValuesOf, Nodes, Outside, Phandles;
    NodeInTree(s0, strings, rs, s2, delta, i);
    PhandleMoved(Root(s0, strings), ValuesOf(s0), rs, ValuesOf(s2), delta, i);
  }

  /** A property that holds one number is a property of the node in the tree. */
  lemma NumberHere(s: Bytes, strings: Bytes, n: Node, name: Bytes)
    requires Here(s, strings, n) && Events(s, strings).Some? && NumberAt(s, strings, n.at, name).Some?
    ensures FindProp(n, name, 0).Some?
  {
    hide First, TagAt, Boundary, ValueAt, Found, FindProp, Here, Events, ValuesOf, U32;
    CellAt(s, strings, n, name);
  }

  ghost predicate Numbered(s: Bytes, strings: Bytes, node: int) {
    NumberAt(s, strings, node, PHANDLE).Some? || NumberAt(s, strings, node, LINUX_PHANDLE).Some?
  }

  lemma NumberedHas(s: Bytes, strings: Bytes, i: nat)
    requires Rooted(s, strings) && i < |Begins(s, 0)| && Numbered(s, strings, Begins(s, 0)[i])
    ensures i < |Nodes(Root(s, strings))| && HasPhandle(Nodes(Root(s, strings))[i])
  {
    hide Here, Events, NumberAt, FindProp, Rooted, Begins;
    RootedNodes(s, strings);
    RootedEvents(s, strings);
    RootHere(s, strings);
    var root := Root(s, strings);
    NodesToHere(s, strings, root, |root.kids|, i);
    var n := Nodes(root)[i];
    if NumberAt(s, strings, n.at, PHANDLE).Some? {
      NumberHere(s, strings, n, PHANDLE);
    } else {
      NumberHere(s, strings, n, LINUX_PHANDLE);
    }
  }

  /** A node that has a phandle property gets a phandle of the base tree if and only if that property is 0. */
  lemma ClashExactly(s0: Bytes, strings: Bytes, rs: seq<Ref>, s2: Bytes, delta: nat, base: Bytes, baseStrings: Bytes,
      i: nat)
    requires BlobRenumbered(s0, strings, rs, s2, delta) && Outside(rs, Phandles(Root(s0, strings)))
    requires IsMax(base, baseStrings, Begins(base, 0), delta) && i < |Begins(s0, 0)|
    requires Numbered(s0, strings, Begins(s0, 0)[i])
    ensures Begins(s2, 0) == Begins(s0, 0)
    ensures (exists j | 0 <= j < |Begins(base, 0)| ::
               PhandleAt(base, baseStrings, Begins(base, 0)[j]) == PhandleAt(s2, strings, Begins(s2, 0)[i]))
            <==> PhandleAt(s0, strings, Begins(s0, 0)[i]) == 0 && Begins(base, 0) != []
  {
    hide Renumbered, Phandle, HasPhandle, PhandleAt, Begins, Twin, Events, Rooted, Root, ValuesOf, Nodes, Outside,
      Phandles, Numbered;
    NodeInTree(s0, strings, rs, s2, delta, i);
    PhandleMoved(Root(s0, strings), ValuesOf(s0), rs, ValuesOf(s2), delta, i);
    NumberedHas(s0, strings, i);
    var os := Begins(base, 0);
    if PhandleAt(s0, strings, Begins(s0, 0)[i]) == 0 && os != [] {
      assert PhandleAt(base, baseStrings, os[0]) <= delta;
      assert exists j :: 0 <= j < |os| && PhandleAt(base, baseStrings, os[j]) == delta;
    }
  }

  /** Looking a phandle up in the bytes is looking it up among the nodes of the tree. */
  lemma {:induction false} WithIsBy(s: Bytes, strings: Bytes, off: int, all: seq<Node>, phandle: nat, i: nat)
    requires i <= |all| && Begins(s, off) == Ats(all)[i..]
    requires forall k | 0 <= k < |all| :: PhandleAt(s, strings, all[k].at) == Phandle(all[k], ValuesOf(s))
    requires forall k | 0 <= k < |all| :: !Lost(s, strings, all[k].at)
    ensures var r := NodeBy(all, ValuesOf(s), phandle, i);
            WithFrom(s, strings, off, phandle) == if r.None? then LastCode(s, off) else all[r.value].at
    decreases |all| - i
  {
    hide BeginFrom, PhandleAt, Phandle, ValuesOf, TagAt, Lost;
    var os := Ats(all)[i..];
    var o := BeginFrom(s, off);
    if o >= 0 {
      assert os[0] == all[i].at;
      assert Begins(s, TagAt(s, o).1) == os[1..] == Ats(all)[i + 1..];
      WithIsBy(s, strings, TagAt(s, o).1, all, phandle, i + 1);
    } else {
      assert |os| == |all| - i;
    }
  }

  /** Every node of the tree has the phandle in the bytes that it has there. */
  lemma PhandlesHere(s: Bytes, strings: Bytes, root: Node)
    requires Here(s, strings, root) && Events(s, strings).Some?
    ensures forall k | 0 <= k < |Nodes(root)| ::
      PhandleAt(s, strings, Nodes(root)[k].at) == Phandle(Nodes(root)[k], ValuesOf(s))
    ensures forall k | 0 <= k < |Nodes(root)| :: !Lost(s, strings, Nodes(root)[k].at)
  {
    hide Here, Events, PhandleAt, Phandle, ValuesOf, Lost;
    forall k | 0 <= k < |Nodes(root)|
      ensures PhandleAt(s, strings, Nodes(root)[k].at) == Phandle(Nodes(root)[k], ValuesOf(s))
      ensures !Lost(s, strings, Nodes(root)[k].at)
    {
      NodesToHere(s, strings, root, |root.kids|, k);
      PhandleHere(s, strings, Nodes(root)[k]);
    }
  }

  lemma LookUp(s: Bytes, strings: Bytes, phandle: nat)
    requires Rooted(s, strings)
    ensures var all := Nodes(Root(s, strings)); var r := NodeBy(all, ValuesOf(s), phandle, 0);
            WithFrom(s, strings, 0, phandle) == if r.None? then -ERR_NOTFOUND else all[r.value].at
  {
    hide Lost, Here, Events, PhandleAt, Phandle, ValuesOf, Rooted, Root, Nodes, WithFrom, Begins, LastCode;
    RootHere(s, strings);
    RootedEvents(s, strings);
    RootedNodes(s, strings);
    var all := Nodes(Root(s, strings));
    PhandlesHere(s, strings, Root(s, strings));
    assert Ats(all)[0..] == Ats(all);
    WithIsBy(s, strings, 0, all, phandle, 0);
  }

  /** The number at a reference, in the bytes. */
  lemma NumberBytes(s: Bytes, r: Ref)
    requires Inside(ValuesOf(s), r)
    ensures r.slot + 16 + r.off <= |s| && Number(ValuesOf(s), r) == U32(s[r.slot + 12 + r.off..r.slot + 16 + r.off])
  {
    hide U32, First, TagAt, Boundary, ValueAt;
    NotNothing(s, r.slot);
    ValueBytes(s, r.slot);
    Inner(s, r.slot + 12, r.slot + 12 + |ValueAt(s, r.slot)|, r.off, r.off + 4);
  }

  lemma NotNothing(s: Bytes, p: nat)
    requires p < |s| && ValuesOf(s)[p] != []
    ensures ValuesOf(s)[p] == ValueAt(s, p) && TagAt(s, p).0 == PROP
  {
  }

  /**
   A reference to a node of the overlay that is listed once, and not as a phandle, still leads to that
   node: looked up in the renumbered blob, the new number gives the offset that the old one gave.
   */
  lemma RefStillLeads(s0: Bytes, strings: Bytes, rs: seq<Ref>, s2: Bytes, delta: nat, k: nat)
    requires BlobRenumbered(s0, strings, rs, s2, delta) && Outside(rs, Phandles(Root(s0, strings)))
    requires k < |rs| && Alone(rs, k) && Inside(ValuesOf(s0), rs[k])
    requires var p := Number(ValuesOf(s0), rs[k]); p >= 1 && WithFrom(s0, strings, 0, p) >= 0
    ensures Inside(ValuesOf(s2), rs[k])
    ensures var p, q := Number(ValuesOf(s0), rs[k]), Number(ValuesOf(s2), rs[k]);
            q == p + delta && WithFrom(s2, strings, 0, q) == WithFrom(s0, strings, 0, p)
  {
    hide Renumbered, Number, Nodes, Phandle, NodeBy, Twin, Events, Rooted, Root, ValuesOf, WithFrom, Alone, Inside,
      Outside, Phandles, HasPhandle;
    var root, vals0, vals2 := Root(s0, strings), ValuesOf(s0), ValuesOf(s2);
    RefNumber(root, vals0, rs, vals2, delta, k);
    var p := Number(vals0, rs[k]);
    SameNodes(s0, strings, s2);
    LookUp(s0, strings, p);
    LookUp(s2, strings, p + delta);
    var at := NodeBy(Nodes(root), vals0, p, 0).value;
    NodeByIs(Nodes(root), vals0, p, at);
    PhandleMoved(root, vals0, rs, vals2, delta, at);
    SameNode(root, vals0, rs, vals2, delta, p, 0);
  }

  lemma NodeByIs(all: seq<Node>, vals: Values, p: nat, at: nat)
    requires NodeBy(all, vals, p, 0) == Some(at)
    ensures at < |all| && Phandle(all[at], vals) == p
  {
  }
}
