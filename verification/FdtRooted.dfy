/**
 All nodes of a block in order, and the largest phandle among them.
 */
module FdtRooted {
  import opened Basics
  import opened FdtFormat
  import opened FdtBlob
  import opened FdtNodes
  import opened FdtCheck
  import opened FdtTree
  import opened FdtProps
  import opened FdtEdit
  import opened FdtEditOps
  import opened FdtForest
  import opened FdtTwin
  import opened FdtInplace
  import opened FdtOverlay
  import opened FdtAdjust

  // ---- from node to node, whatever the depth

  /** The first node from off on, at any depth. */
  ghost function BeginFrom(s: Bytes, off: int): (r: int)
    ensures r >= 0 ==> off <= r < |s| && TagAt(s, r).0 == BEGIN_NODE && r < TagAt(s, r).1
    decreases |s| - off
  {
    TagStep(s, off);
    var (tag, next) := TagAt(s, off);
    if tag == BEGIN_NODE then off
    else if tag == END then (if next >= 0 || next == -ERR_TRUNCATED then -ERR_NOTFOUND else next)
    else BeginFrom(s, next)
  }

  /** All nodes from off on. */
  ghost function Begins(s: Bytes, off: int): seq<int>
    decreases |s| - off
  {
    var o := BeginFrom(s, off);
    if o < 0 then [] else [o] + Begins(s, TagAt(s, o).1)
  }

  /** What the walk over them ends with. */
  ghost function LastCode(s: Bytes, off: int): (r: int)
    ensures r < 0
    decreases |s| - off
  {
    var o := BeginFrom(s, off);
    if o < 0 then o else LastCode(s, TagAt(s, o).1)
  }

  lemma {:induction false} BeginAligned(s: Bytes, off: int)
    requires off % 4 == 0
    ensures BeginFrom(s, off) >= 0 ==> BeginFrom(s, off) % 4 == 0 && NodeAt(s, BeginFrom(s, off))
    ensures BeginFrom(s, off) >= 0 ==> CheckedNode(s, BeginFrom(s, off)) == TagAt(s, BeginFrom(s, off)).1
    decreases |s| - off
  {
    hide First, TagAt;
    TagStep(s, off);
    var (tag, next) := TagAt(s, off);
    CheckedFacts(s, off);
    if tag != END && tag != BEGIN_NODE {
      TagAligned(s, off);
      BeginAligned(s, next);
    }
  }

  /** The next node, without counting depths; a negative offset starts at the first one. */
  method NextAny(fdt: Blob, start: int) returns (offset: int)
    requires fdt.StructIn()
    ensures var s := fdt.Struct();
            offset == if start < 0 then BeginFrom(s, 0)
                      else if CheckedNode(s, start) < 0 then CheckedNode(s, start)
                      else BeginFrom(s, CheckedNode(s, start))
  {
    hide First, TagAt, CheckedNode;
    ghost var s := fdt.Struct();
    var next := 0;
    if start >= 0 {
      next := CheckNodeOffset(fdt, start);
      if next < 0 {
        return next;
      }
    }
    ghost var from := next;
    while true
      invariant next >= 0 && BeginFrom(s, from) == BeginFrom(s, next)
      decreases |s| - next
    {
      TagStep(s, next);
      offset := next;
      var tag;
      tag, next := fdt.SafeTag(offset);
      if tag == BEGIN_NODE {
        return;
      } else if tag == END {
        return if next >= 0 || next == -ERR_TRUNCATED then -ERR_NOTFOUND else next;
      }
    }
  }

  // ---- phandles

  /** A property's value, if it is a single number. */
  ghost function NumberAt(s: Bytes, strings: Bytes, node: int, name: Bytes): Option<nat> {
    var p := Found(s, strings, node, name);
    if p >= 0 && |ValueAt(s, p)| == 4 then Some(U32(ValueAt(s, p))) else None
  }

  /** The phandle of a node, 0 if it has none. */
  ghost function PhandleAt(s: Bytes, strings: Bytes, node: int): nat {
    if NumberAt(s, strings, node, PHANDLE).Some? then NumberAt(s, strings, node, PHANDLE).value
    else if NumberAt(s, strings, node, LINUX_PHANDLE).Some? then NumberAt(s, strings, node, LINUX_PHANDLE).value
    else 0
  }

  ghost predicate Finished(fdt: Blob)
    reads fdt
  {
    fdt.StructIn() && fdt.StringsIn() && fdt.magic == MAGIC && fdt.version >= 17 && fdt.totalSize < INT_MAX
  }

  lemma FoundTag(s: Bytes, strings: Bytes, node: int, name: Bytes)
    requires Found(s, strings, node, name) >= 0
    ensures TagAt(s, Found(s, strings, node, name)).0 == PROP
  {
    hide First, TagAt, CheckedNode;
    FoundFrom(s, strings, CheckedNode(s, node), name);
  }

  lemma {:induction false} FoundFrom(s: Bytes, strings: Bytes, off: int, name: Bytes)
    requires PropFrom(s, strings, off, name) >= 0
    ensures TagAt(s, PropFrom(s, strings, off, name)).0 == PROP
    decreases |s| - off
  {
    hide First, NamedAt;
    TagStep(s, off);
    var (tag, next) := TagAt(s, off);
    if tag == NOP || (tag == PROP && !NamedAt(s, strings, off, name)) {
      FoundFrom(s, strings, next, name);
    }
  }

  /** The search for a property of a node comes to a property whose size wraps around. */
  ghost predicate Lost(s: Bytes, strings: Bytes, node: int) {
    || Found(s, strings, node, PHANDLE) == ASTRAY
    || (NumberAt(s, strings, node, PHANDLE).None? && Found(s, strings, node, LINUX_PHANDLE) == ASTRAY)
  }

  method GetNumber(fdt: Blob, node: int, name: Bytes) returns (v: Option<nat>, astray: bool)
    requires Finished(fdt)
    ensures v == NumberAt(fdt.Struct(), fdt.Strings(), node, name)
    ensures astray == (Found(fdt.Struct(), fdt.Strings(), node, name) == ASTRAY)
  {
    hide First, TagAt, CheckedNode, Found, ValueAt, U32, Blob.Struct, Blob.Strings;
    var p := GetProperty(fdt, node, name);
    astray := p == ASTRAY;
    if p < 0 {
      return None, astray;
    }
    FoundTag(fdt.Struct(), fdt.Strings(), node, name);
    var len := ValueLength(fdt, p);
    if len != 4 {
      return None, false;
    }
    var n := NumberIn(fdt, p, 0);
    WholeValue(ValueAt(fdt.Struct(), p));
    return Some(n), false;
  }

  lemma WholeValue(v: Bytes)
    requires |v| == 4
    ensures v[0..4] == v
  {
  }

  /** A phandle as the events have it: the property phandle goes first, and only four bytes are a number. */
  lemma PhandleSeen(s: Bytes, strings: Bytes, node: nat)
    requires Events(s, strings).Some? && NodeAt(s, node) && Boundary(s, node)
    ensures var ev, k := Events(s, strings).value, Place(s, strings, node);
            var a, b := Lookup(ev, k, PHANDLE), Lookup(ev, k, LINUX_PHANDLE);
            PhandleAt(s, strings, node) ==
              if a.Some? && |a.value| == 4 then BigEndian(a.value)
              else if b.Some? && |b.value| == 4 then BigEndian(b.value) else 0
  {
    hide Events, Found, Lookup, U32, ValueAt, BigEndian, Boundary, Place;
    NumberSeen(s, strings, node, PHANDLE);
    NumberSeen(s, strings, node, LINUX_PHANDLE);
  }

  lemma NumberSeen(s: Bytes, strings: Bytes, node: nat, name: Bytes)
    requires Events(s, strings).Some? && NodeAt(s, node) && Boundary(s, node)
    ensures var v := Lookup(Events(s, strings).value, Place(s, strings, node), name);
            NumberAt(s, strings, node, name) == if v.Some? && |v.value| == 4 then Some(BigEndian(v.value)) else None
  {
    hide Events, First, TagAt, U32, ValueAt, BigEndian, CheckedNode, PropFrom, Place, Boundary, Found;
    PropertyPlace(s, strings, node, name);
    var p := Found(s, strings, node, name);
    if p >= 0 {
      FoundFacts(s, strings, node, name);
      FoundTag(s, strings, node, name);
      SlotEvent(s, strings, p);
      if |ValueAt(s, p)| == 4 {
        WordBytes(ValueAt(s, p));
      }
    }
  }

  method GetPhandle(fdt: Blob, node: int) returns (phandle: int)
    requires Finished(fdt)
    ensures phandle == if Lost(fdt.Struct(), fdt.Strings(), node) then ASTRAY
                       else PhandleAt(fdt.Struct(), fdt.Strings(), node)
    ensures phandle < LIMIT32
  {
    hide NumberAt, Found, Blob.Struct, Blob.Strings;
    NumberSmall(fdt.Struct(), fdt.Strings(), node, PHANDLE);
    NumberSmall(fdt.Struct(), fdt.Strings(), node, LINUX_PHANDLE);
    var v, astray := GetNumber(fdt, node, PHANDLE);
    if astray {
      return ASTRAY;
    }
    if v.None? {
      v, astray := GetNumber(fdt, node, LINUX_PHANDLE);
      if astray {
        return ASTRAY;
      }
      if v.None? {
        return 0;
      }
    }
    return v.value;
  }

  /** A walk over all nodes comes to the same tag. */
  lemma LostIsLost(s: Bytes, strings: Bytes, node: nat)
    requires NodeAt(s, node) && Lost(s, strings, node)
    ensures BeginFrom(s, CheckedNode(s, node)) == ASTRAY
  {
    hide NumberAt, CheckedNode, BeginFrom, PropFrom, TagAt;
    CheckedFacts(s, node);
    if Found(s, strings, node, PHANDLE) == ASTRAY {
      LostFrom(s, strings, CheckedNode(s, node), PHANDLE);
    } else {
      LostFrom(s, strings, CheckedNode(s, node), LINUX_PHANDLE);
    }
  }

  lemma {:induction false} LostFrom(s: Bytes, strings: Bytes, off: int, name: Bytes)
    requires PropFrom(s, strings, off, name) == ASTRAY && off >= 0
    ensures BeginFrom(s, off) == ASTRAY
    decreases |s| - off
  {
    hide First, TagAt, NamedAt;
    TagStep(s, off);
    var (tag, next) := TagAt(s, off);
    if tag == NOP || tag == PROP {
      LostFrom(s, strings, next, name);
    }
  }

  lemma NumberSmall(s: Bytes, strings: Bytes, node: int, name: Bytes)
    ensures NumberAt(s, strings, node, name).Some? ==> NumberAt(s, strings, node, name).value < LIMIT32
  {
    hide U32, Found, ValueAt;
  }

  /** max is the largest phandle of some nodes, or 0. */
  ghost predicate IsMax(s: Bytes, strings: Bytes, os: seq<int>, max: nat) {
    && (forall i | 0 <= i < |os| :: PhandleAt(s, strings, os[i]) <= max)
    && (max == 0 || exists i :: 0 <= i < |os| && PhandleAt(s, strings, os[i]) == max)
  }

  lemma MaxMore(s: Bytes, strings: Bytes, os: seq<int>, max: nat, o: int)
    requires IsMax(s, strings, os, max)
    ensures IsMax(s, strings, os + [o], if PhandleAt(s, strings, o) > max then PhandleAt(s, strings, o) else max)
  {
    hide PhandleAt;
    var all, v := os + [o], PhandleAt(s, strings, o);
    assert all[|os|] == o;
    if v <= max && max != 0 {
      var i :| 0 <= i < |os| && PhandleAt(s, strings, os[i]) == max;
      assert all[i] == os[i];
    }
  }

  /** The largest phandle of a blob; a walk that fails gives its error. */
  method MaxPhandle(fdt: Blob) returns (err: int, max: nat)
    requires Finished(fdt)
    ensures err == if LastCode(fdt.Struct(), 0) == -ERR_NOTFOUND then 0 else LastCode(fdt.Struct(), 0)
    ensures err == 0 ==> max < LIMIT32 && IsMax(fdt.Struct(), fdt.Strings(), Begins(fdt.Struct(), 0), max)
  {
    hide First, TagAt, CheckedNode, BeginFrom, PhandleAt, Lost, Blob.Struct, Blob.Strings, IsMax, Begins, LastCode;
    ghost var s, strings := fdt.Struct(), fdt.Strings();
    ghost var os: seq<int>, from := [], 0;
    assert [] + Begins(s, 0) == Begins(s, 0);
    max := 0;
    NoMax(s, strings);
    var offset := -1;
    while true
      invariant from >= 0 && from % 4 == 0 && max < LIMIT32 && IsMax(s, strings, os, max)
      invariant offset < 0 ==> from == 0
      invariant offset >= 0 ==> CheckedNode(s, offset) == from
      invariant Begins(s, 0) == os + Begins(s, from) && LastCode(s, 0) == LastCode(s, from)
      decreases |s| - from
    {
      BeginAligned(s, from);
      BeginOn(s, from);
      MoreBegins(s, os, from);
      offset := NextAny(fdt, offset);
      if offset < 0 {
        return if offset == -ERR_NOTFOUND then 0 else offset, max;
      }
      var value := GetPhandle(fdt, offset);
      if value == ASTRAY {
        LostIsLost(s, strings, offset);
        CheckedFacts(s, offset);
        MoreBegins(s, os, CheckedNode(s, offset));
        return ASTRAY, max;
      }
      MaxMore(s, strings, os, max, offset);
      if value > max {
        max := value;
      }
      CheckedFacts(s, offset);
      os, from := os + [offset], CheckedNode(s, offset);
    }
  }

  lemma MoreBegins(s: Bytes, os: seq<int>, off: int)
    ensures var o := BeginFrom(s, off);
            && os + Begins(s, off) == (if o < 0 then os else os + [o] + Begins(s, TagAt(s, o).1))
            && LastCode(s, off) == if o < 0 then o else LastCode(s, TagAt(s, o).1)
  {
    hide TagAt, BeginFrom;
    var o := BeginFrom(s, off);
    if o < 0 {
      assert os + [] == os;
    } else {
      assert os + ([o] + Begins(s, TagAt(s, o).1)) == os + [o] + Begins(s, TagAt(s, o).1);
    }
  }

  lemma NoMax(s: Bytes, strings: Bytes)
    ensures IsMax(s, strings, [], 0)
  {
  }

  lemma BeginOn(s: Bytes, off: int)
    ensures BeginFrom(s, off) >= 0 ==>
      off <= BeginFrom(s, off) < TagAt(s, BeginFrom(s, off)).1 && BeginFrom(s, off) < |s|
  {
  }

  /** The first node from off on that has a phandle. */
  ghost function WithFrom(s: Bytes, strings: Bytes, off: int, phandle: nat): int
    decreases |s| - off
  {
    var o := BeginFrom(s, off);
    if o < 0 then o
    else if Lost(s, strings, o) then ASTRAY
    else if PhandleAt(s, strings, o) == phandle then o
    else WithFrom(s, strings, TagAt(s, o).1, phandle)
  }

  /** The node that a phandle stands for. */
  method NodeOffsetByPhandle(fdt: Blob, phandle: nat) returns (r: int)
    requires Finished(fdt)
    ensures r == if phandle == 0 || phandle == NO_PHANDLE then -ERR_BADPHANDLE
                 else WithFrom(fdt.Struct(), fdt.Strings(), 0, phandle)
  {
    hide First, TagAt, CheckedNode, BeginFrom, PhandleAt, Lost, Blob.Struct, Blob.Strings;
    if phandle == 0 || phandle == NO_PHANDLE {
      return -ERR_BADPHANDLE;
    }
    ghost var s, strings := fdt.Struct(), fdt.Strings();
    ghost var from := 0;
    BeginAligned(s, 0);
    var offset := NextAny(fdt, -1);
    while offset >= 0
      invariant from >= 0 && from % 4 == 0 && offset == BeginFrom(s, from)
      invariant WithFrom(s, strings, 0, phandle) == WithFrom(s, strings, from, phandle)
      decreases |s| - from
    {
      BeginAligned(s, from);
      BeginOn(s, from);
      var value := GetPhandle(fdt, offset);
      if value == ASTRAY {
        return ASTRAY;
      }
      if value == phandle {
        return offset;
      }
      CheckedFacts(s, offset);
      from := CheckedNode(s, offset);
      offset := NextAny(fdt, offset);
    }
    return offset;
  }

  // ---- the nodes of a tree

  /** The nodes of a tree in order: the node itself, then those below its first k children. */
  ghost function NodesTo(n: Node, k: nat): (r: seq<Node>)
    requires k <= |n.kids|
    ensures |r| > 0
    decreases n, k
  {
    if k == 0 then [n] else NodesTo(n, k - 1) + Nodes(n.kids[k - 1])
  }

  ghost function Nodes(n: Node): (r: seq<Node>)
    ensures |r| > 0
    decreases n, |n.kids| + 1
  {
    NodesTo(n, |n.kids|)
  }

  ghost function Ats(ns: seq<Node>): (os: seq<int>)
    ensures |os| == |ns| && forall i | 0 <= i < |ns| :: os[i] == ns[i].at
  {
    seq(|ns|, i requires 0 <= i < |ns| => ns[i].at)
  }

  lemma AtsAppend(a: seq<Node>, b: seq<Node>)
    ensures Ats(a + b) == Ats(a) + Ats(b)
  {
  }

  /** A child is the next node, and without one the next node comes behind the parent. */
  lemma {:induction false} KidIsBegin(s: Bytes, off: int)
    ensures KidFrom(s, off, 0) >= 0 ==> BeginFrom(s, off) == KidFrom(s, off, 0)
    ensures KidFrom(s, off, 0) < 0 && CloseFrom(s, off, 0) >= 0 ==>
      BeginFrom(s, off) == BeginFrom(s, CloseFrom(s, off, 0))
    decreases |s| - off
  {
    hide First, TagAt;
    TagStep(s, off);
    var (tag, next) := TagAt(s, off);
    if tag != END && tag != END_NODE && tag != BEGIN_NODE {
      KidIsBegin(s, next);
    }
  }

  lemma SameBegins(s: Bytes, a: int, b: int)
    requires BeginFrom(s, a) == BeginFrom(s, b)
    ensures Begins(s, a) == Begins(s, b) && LastCode(s, a) == LastCode(s, b)
  {
  }

  /** Where the walk stands after the first k children. */
  ghost function Behind(s: Bytes, n: Node, k: nat): int
    requires k <= |n.kids|
  {
    if k == 0 then CheckedNode(s, n.at) else EndOf(s, n.kids[k - 1].at)
  }

  lemma BehindKid(s: Bytes, strings: Bytes, n: Node, k: nat)
    requires Here(s, strings, n) && k <= |n.kids|
    ensures KidFrom(s, Behind(s, n, k), 0) == if k < |n.kids| then n.kids[k].at else -ERR_NOTFOUND
    ensures CloseFrom(s, Behind(s, n, k), 0) == EndOf(s, n.at)
  {
    hide First, Scan, TagAt, Forest, CloseFrom, TreeAt, KidFrom;
    if k == 0 {
      FirstKid(s, strings, n);
    } else {
      KidHere(s, strings, n, k - 1);
      TreeParts(s, strings, n);
      SpanScan(s, n.at);
      ForestAt(s, strings, CheckedNode(s, n.at), k - 1);
      KidSkip(s, CheckedNode(s, n.kids[k - 1].at), 0);
    }
  }

  /** The nodes of a tree are the nodes that the walk comes by. */
  lemma {:induction false} NodesTold(s: Bytes, strings: Bytes, n: Node, k: nat)
    requires Here(s, strings, n) && k <= |n.kids|
    ensures Begins(s, n.at) == Ats(NodesTo(n, k)) + Begins(s, Behind(s, n, k))
    ensures LastCode(s, n.at) == LastCode(s, Behind(s, n, k))
    decreases n, k
  {
    hide First, TagAt, CloseFrom, KidFrom, Here, Begins, LastCode, NodeAt, CheckedNode, BeginFrom;
    if k == 0 {
      NodeFirst(s, strings, n);
    } else {
      NodesTold(s, strings, n, k - 1);
      BehindKid(s, strings, n, k - 1);
      KidIsBegin(s, Behind(s, n, k - 1));
      var kid := n.kids[k - 1];
      KidHere(s, strings, n, k - 1);
      AtItself(s, strings, kid);
      SameBegins(s, Behind(s, n, k - 1), kid.at);
      TreeTold(s, strings, kid);
      AtsAppend(NodesTo(n, k - 1), Nodes(kid));
      assert Ats(NodesTo(n, k - 1)) + (Ats(Nodes(kid)) + Begins(s, EndOf(s, kid.at))) ==
             Ats(NodesTo(n, k - 1)) + Ats(Nodes(kid)) + Begins(s, EndOf(s, kid.at));
    }
  }

  lemma {:induction false} TreeTold(s: Bytes, strings: Bytes, n: Node)
    requires Here(s, strings, n)
    ensures Begins(s, n.at) == Ats(Nodes(n)) + Begins(s, EndOf(s, n.at)) &&
      LastCode(s, n.at) == LastCode(s, EndOf(s, n.at))
    decreases n, |n.kids| + 1
  {
    hide First, TagAt, CloseFrom, KidFrom, Here, Begins, LastCode, NodeAt, CheckedNode, BeginFrom;
    HereGenuine(s, strings, n);
    NodesTold(s, strings, n, |n.kids|);
    BehindKid(s, strings, n, |n.kids|);
    KidIsBegin(s, Behind(s, n, |n.kids|));
    SameBegins(s, Behind(s, n, |n.kids|), EndOf(s, n.at));
  }

  lemma AtItself(s: Bytes, strings: Bytes, n: Node)
    requires Here(s, strings, n)
    ensures BeginFrom(s, n.at) == n.at
  {
  }

  lemma NodeFirst(s: Bytes, strings: Bytes, n: Node)
    requires Here(s, strings, n)
    ensures Begins(s, n.at) == Ats([n]) + Begins(s, CheckedNode(s, n.at)) &&
      LastCode(s, n.at) == LastCode(s, CheckedNode(s, n.at))
  {
    hide First, TagAt, CheckedNode, Here, BeginFrom;
    HereGenuine(s, strings, n);
    AtItself(s, strings, n);
    CheckedFacts(s, n.at);
    assert Ats([n]) == [n.at];
  }

  /** Every node of a tree stands in the block. */
  lemma {:induction false} NodesToHere(s: Bytes, strings: Bytes, n: Node, k: nat, i: nat)
    requires Here(s, strings, n) && k <= |n.kids| && i < |NodesTo(n, k)|
    ensures Here(s, strings, NodesTo(n, k)[i])
    decreases n, k
  {
    hide Here;
    if k > 0 {
      var m := |NodesTo(n, k - 1)|;
      if i < m {
        NodesToHere(s, strings, n, k - 1, i);
      } else {
        KidHere(s, strings, n, k - 1);
        NodesToHere(s, strings, n.kids[k - 1], |n.kids[k - 1].kids|, i - m);
      }
    }
  }

  // ---- blocks with one tree

  /** The block is one tree, from its first tag to the end tag. */
  ghost predicate Rooted(s: Bytes, strings: Bytes) {
    && Events(s, strings).Some? && NodeAt(s, 0) && EndOf(s, 0) >= 0 && TagAt(s, EndOf(s, 0)) == (END, EndOf(s, 0) + 4)
  }

  ghost function Root(s: Bytes, strings: Bytes): Node
    requires Rooted(s, strings)
  {
    TreeAt(s, strings, 0)
  }

  lemma RootHere(s: Bytes, strings: Bytes)
    requires Rooted(s, strings)
    ensures Here(s, strings, Root(s, strings)) && Root(s, strings).at == 0
  {
    hide First, TagAt, CloseFrom, Forest, Props, CheckedNode;
    assert s[..0] == [];
    ScanNone();
  }

  /** All nodes of such a block are nodes of the tree. */
  lemma RootedNodes(s: Bytes, strings: Bytes)
    requires Rooted(s, strings)
    ensures Begins(s, 0) == Ats(Nodes(Root(s, strings))) && LastCode(s, 0) == -ERR_NOTFOUND
  {
    hide First, CloseFrom, Here, Nodes, NodeAt, CheckedNode, Events, Root;
    RootHere(s, strings);
    TreeTold(s, strings, Root(s, strings));
    var all := Ats(Nodes(Root(s, strings)));
    assert all + [] == all;
  }

  /** The tokens before the end tag are a piece. */
  lemma {:induction false} WalkPiece(s: Bytes, off: nat) returns (e: nat)
    requires off % 4 == 0 && off <= |s| && Walk(s[off..]).Some?
    ensures off <= e <= |s| && Scan(s[off..e]) == Walk(s[off..]) && TagAt(s, e) == (END, e + 4)
    decreases |s| - off
  {
    hide First, Scan, Align4;
    if TagAt(s, off).0 == END {
      WalkEnds(s, off);
      assert s[off..off] == [];
      ScanNone();
      e := off;
    } else {
      TagFacts(s, off);
      var next := TagAt(s, off).1;
      WalkOn(s, off, next);
      e := WalkPiece(s, next);
      ScanCons(s, off, next, e);
    }
  }

  lemma WalkEnds(s: Bytes, off: nat)
    requires off % 4 == 0 && off <= |s| && Walk(s[off..]).Some? && TagAt(s, off).0 == END
    ensures Walk(s[off..]) == Some([]) && TagAt(s, off) == (END, off + 4)
  {
  }

  lemma WalkOn(s: Bytes, off: nat, next: nat)
    requires off % 4 == 0 && off <= |s| && Walk(s[off..]).Some? && TagAt(s, off).0 != END
    requires First(s[off..]).Lex? && next == off + Align4(First(s[off..]).size)
    ensures next <= |s| && Walk(s[next..]).Some? &&
      Walk(s[off..]).value == [First(s[off..]).token] + Walk(s[next..]).value
  {
    hide First, Align4;
    if next <= |s| {
      assert s[off..][next - off..] == s[next..];
    }
  }

  /** What the full check accepts is such a block, if the root is the first tag. */
  lemma SoundIsRooted(s: Bytes, strings: Bytes)
    requires Sound(s, strings) && NodeAt(s, 0)
    ensures Rooted(s, strings)
  {
    hide First, Scan, Walk, TagAt, CloseFrom, Closes, StaysOpen, Meaning;
    assert s[0..] == s;
    var e := WalkPiece(s, 0);
    CheckedFacts(s, 0);
    TagIsBegin(s, 0);
    var b := CheckedNode(s, 0);
    RootFirst(s, Walk(s).value, e);
    ScanFirst(s, 0, e);
    var rest := Scan(s[b..e]).value;
    assert Walk(s).value[1..] == rest;
    CloseTokens(s, b, 0);
    var r := CloseFrom(s, b, 0);
    if r < 0 {
      OpenNotClosed(rest, 0);
      assert false;
    }
    OneClose(s, b, r, e);
  }

  lemma RootFirst(s: Bytes, ts: seq<Token>, e: nat)
    requires NodeAt(s, 0) && OneRoot(ts) && e <= |s| && Scan(s[0..e]) == Some(ts)
    requires TagAt(s, e) == (END, e + 4)
    ensures 0 < e && ts != [] && Closes(ts[1..], 0)
  {
    hide First, Scan, Closes;
    TagIsBegin(s, 0);
    if e > 0 {
      ScanFirst(s, 0, e);
      assert ts[0].Begin?;
      RootHereFirst(ts);
    }
  }

  lemma RootHereFirst(ts: seq<Token>)
    requires ts != [] && ts[0].Begin? && OneRoot(ts)
    ensures Closes(ts[1..], 0)
  {
    hide Closes;
    FdtCheck.RootHere(ts);
  }

  lemma OneClose(s: Bytes, b: nat, r: nat, e: nat)
    requires b % 4 == 0 && b < r <= |s| && b <= e <= |s| && Scan(s[b..r]).Some? && Scan(s[b..e]).Some?
    requires Closes(Scan(s[b..r]).value, 0) && Closes(Scan(s[b..e]).value, 0)
    ensures r == e
  {
    hide First, Scan, Closes;
    if r < e {
      Longer(s, b, r, e);
    } else if e < r {
      Longer(s, b, e, r);
    }
  }

  lemma Longer(s: Bytes, b: nat, r: nat, e: nat)
    requires b <= r < e <= |s| && Scan(s[b..r]).Some? && Scan(s[b..e]).Some? && Closes(Scan(s[b..r]).value, 0)
    ensures !Closes(Scan(s[b..e]).value, 0)
  {
    hide First, Scan, Closes;
    assert s[b..e] == s[b..r] + s[r..e];
    ScanAppend(s[b..r], s[r..e]);
    ScanSome(s[r..e]);
    ClosesOnce(Scan(s[b..r]).value, Scan(s[r..e]).value, 0);
  }
}
