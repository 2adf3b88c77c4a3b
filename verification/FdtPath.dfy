/**
 Paths of nodes: the path text of a node, and the node a path leads to.
 */
module FdtPath {
  import opened Basics
  import opened FdtFormat
  import opened FdtBlob
  import opened FdtNodes
  import opened FdtTree

  const SLASH: Byte := 47

  // ---- from the root to a node

  /** Each node is the next one's parent, from the root on. */
  ghost predicate Line(s: Bytes, offs: seq<int>) {
    && |offs| > 0 && offs[0] == 0
    && (forall i | 0 <= i < |offs| :: NodeAt(s, offs[i]))
    && forall i | 0 <= i < |offs| - 1 :: Linked(s, offs, i)
  }

  ghost predicate Linked(s: Bytes, offs: seq<int>, i: nat) {
    i + 1 < |offs| && Child(s, offs[i], offs[i + 1])
  }

  ghost function Names(s: Bytes, offs: seq<int>): (ns: seq<Bytes>)
    requires forall i | 0 <= i < |offs| :: NodeAt(s, offs[i])
    ensures |ns| == |offs| && forall i | 0 <= i < |ns| :: ns[i] == NameAt(s, offs[i])
  {
    seq(|offs|, i requires 0 <= i < |offs| => NameAt(s, offs[i]))
  }

  /** A node lies in each of its ancestors. */
  lemma {:induction false} LineDeep(s: Bytes, offs: seq<int>, i: nat)
    requires Line(s, offs) && i < |offs| - 1
    ensures Deep(s, offs[i], offs[|offs| - 1], |offs| - 2 - i) && offs[i] < offs[|offs| - 1]
    decreases |offs| - i
  {
    hide Deep, NodeAt;
    assert Linked(s, offs, i);
    DeepAfter(s, offs[i], offs[i + 1], 0);
    if i + 1 < |offs| - 1 {
      LineDeep(s, offs, i + 1);
      DeepDown(s, offs[i], offs[i + 1], 0, offs[|offs| - 1], |offs| - 3 - i);
    }
  }

  lemma DeepAfter(s: Bytes, a: int, o: int, r: int)
    requires Deep(s, a, o, r)
    ensures 0 <= a < o <= |s| && NodeAt(s, a)
  {
    hide First, Scan, StaysOpen, TagAt;
    CheckedFacts(s, a);
  }

  // ---- walking towards a node

  ghost predicate NoBegin(ts: seq<Token>) {
    forall i | 0 <= i < |ts| :: !ts[i].Begin?
  }

  /** Without nodes being opened, the depth only falls. */
  lemma {:induction false} Falling(ts: seq<Token>, k: nat)
    requires NoBegin(ts) && k <= |ts|
    ensures Rise(ts[..k]) >= Rise(ts)
    decreases |ts| - k
  {
    if k == |ts| {
      assert ts[..k] == ts;
    } else {
      Falling(ts, k + 1);
      assert ts[..k + 1][..k] == ts[..k] && ts[..k + 1][k] == ts[k];
    }
  }

  lemma FallingOpen(ts: seq<Token>, d: int)
    requires NoBegin(ts) && d + Rise(ts) >= 0
    ensures StaysOpen(ts, d)
  {
    forall k | 0 <= k <= |ts| ensures d + Rise(ts[..k]) >= 0 {
      Falling(ts, k);
    }
  }

  /** The node t lies ahead of the node at o, not outside more than d of those open there. */
  ghost predicate Ahead(s: Bytes, o: int, d: int, t: int) {
    && NodeAt(s, o) && NodeAt(s, t) && o <= t <= |s|
    && (o < t ==>
          && CheckedNode(s, o) <= t && Scan(s[CheckedNode(s, o)..t]).Some?
          && StaysOpen(Scan(s[CheckedNode(s, o)..t]).value, d))
  }

  /** The next node on the walk is not beyond a node that lies ahead. */
  lemma {:induction false} NodeReach(s: Bytes, off: nat, d: nat, t: nat)
    requires off % 4 == 0 && off <= t <= |s| && Scan(s[off..t]).Some? && StaysOpen(Scan(s[off..t]).value, d) &&
      NodeAt(s, t)
    ensures var (o, d') := NodeFrom(s, off, d);
            && off <= o <= t && d' >= 1 && NodeAt(s, o)
            && Scan(s[off..o]).Some? && NoBegin(Scan(s[off..o]).value) && d' == d + 1 + Rise(Scan(s[off..o]).value)
            && Ahead(s, o, d', t)
    decreases t - off
  {
    hide First, Scan, StaysOpen, Rise, Align4, TagAt, CheckedNode;
    if off == t {
      CheckedFacts(s, t);
      TagIsBegin(s, t);
      TagKnown(s, t);
      NodeHere(s, off, d);
      assert s[off..t] == [];
      ScanNone();
      NoRise();
    } else {
      ScanFirst(s, off, t);
      TagKnown(s, off);
      var tok := First(s[off..]).token;
      var next := TagAt(s, off).1;
      var rest := Scan(s[next..t]).value;
      StaysOpenFront(tok, rest, d);
      OpenNow(rest, d + Level(tok));
      if tok.Begin? {
        NodeHere(s, off, d);
        assert s[off..off] == [];
        ScanNone();
        NoRise();
        CheckedFacts(s, off);
      } else {
        NodeReach(s, next, d + Level(tok), t);
        NodeOver(s, off, d);
        var o := NodeFrom(s, off, d).0;
        ScanCons(s, off, next, o);
        RiseFront(tok, Scan(s[next..o]).value);
      }
    }
  }

  lemma NodeHere(s: Bytes, off: nat, d: nat)
    requires TagAt(s, off).0 == BEGIN_NODE
    ensures NodeFrom(s, off, d) == (off, d + 1)
  {
  }

  lemma NodeOver(s: Bytes, off: nat, d: nat)
    requires off <= |s| && TagAt(s, off).0 != BEGIN_NODE && TagAt(s, off).0 != END
    requires d + Level(First(s[off..]).token) >= 0
    ensures NodeFrom(s, off, d) == NodeFrom(s, TagAt(s, off).1, d + Level(First(s[off..]).token))
  {
    TagKnown(s, off);
  }

  /** The line to the next node on the walk. */
  ghost function Onward(offs: seq<int>, o: int, d: int): seq<int>
    requires 0 <= d <= |offs|
  {
    offs[..d] + [o]
  }

  lemma LineStep(s: Bytes, offs: seq<int>, t: nat)
    requires Line(s, offs) && Ahead(s, offs[|offs| - 1], |offs| - 1, t) && offs[|offs| - 1] < t
    ensures var (o, d) := NextFrom(s, offs[|offs| - 1], |offs| - 1);
            && 1 <= d <= |offs| && offs[|offs| - 1] < o <= t && Line(s, Onward(offs, o, d)) && Ahead(s, o, d, t)
  {
    hide First, Scan, StaysOpen, Rise, CheckedNode, NameAt, NodeFrom;
    var last, depth := offs[|offs| - 1], |offs| - 1;
    CheckedFacts(s, last);
    var b := CheckedNode(s, last);
    NodeReach(s, b, depth, t);
    var (o, d) := NextFrom(s, last, depth);
    var rest := Scan(s[b..o]).value;
    Falling(rest, 0);
    assert rest[..0] == [];
    NoRise();
    var line := Onward(offs, o, d);
    if d == |offs| {
      FallingOpen(rest, 0);
      assert Deep(s, last, o, 0);
    } else {
      LineDeep(s, offs, d - 1);
      NodeTag(s, last);
      assert s[last..o] == s[last..b] + s[b..o];
      ScanAppend(s[last..b], s[b..o]);
      var tag := Begin(NameAt(s, last));
      RiseFront(tag, rest);
      FallingOpen(rest, |offs| - d);
      StaysOpenFront(tag, rest, |offs| - 1 - d);
      DeepOn(s, offs[d - 1], last, |offs| - 1 - d, o);
    }
    OnwardLine(s, offs, o, d);
  }

  lemma OnwardLine(s: Bytes, offs: seq<int>, o: int, d: int)
    requires Line(s, offs) && 1 <= d <= |offs| && NodeAt(s, o) && Child(s, offs[d - 1], o)
    ensures Line(s, Onward(offs, o, d))
  {
    hide Child, NodeAt;
    var line := Onward(offs, o, d);
    forall i | 0 <= i < |line| - 1 ensures Linked(s, line, i) {
      if i + 1 < d {
        assert Linked(s, offs, i);
      }
    }
  }

  // ---- path texts

  /** Each name with a slash behind it. */
  ghost function Text(ns: seq<Bytes>): Bytes {
    if ns == [] then [] else Text(ns[..|ns| - 1]) + ns[|ns| - 1] + [SLASH]
  }

  /** The path of a node: no slash at the end, unless it is the root's. */
  ghost function PathText(ns: seq<Bytes>): Bytes {
    var t := Text(ns);
    if |t| > 1 then t[..|t| - 1] else t
  }

  lemma {:induction false} TextGrows(ns: seq<Bytes>, k: nat)
    requires k <= |ns|
    ensures |Text(ns[..k])| <= |Text(ns)|
    decreases |ns| - k
  {
    if k == |ns| {
      assert ns[..k] == ns;
    } else {
      assert ns[..k + 1][..k] == ns[..k];
      TextGrows(ns, k + 1);
    }
  }

  /** Goes back over the last name of the text. */
  method PopName(buf: array<Byte>, p0: nat, ghost ns: seq<Bytes>) returns (p: nat)
    requires |ns| >= 2 && p0 <= buf.Length && buf[..p0] == Text(ns) && SLASH !in ns[|ns| - 1]
    ensures p <= p0 && buf[..p] == Text(ns[..|ns| - 1])
  {
    ghost var front, name := Text(ns[..|ns| - 1]), ns[|ns| - 1];
    ghost var k := |front|;
    assert Text(ns) == front + name + [SLASH];
    assert k > 0 && front[k - 1] == SLASH;
    assert buf[..p0][k - 1] == SLASH;
    assert forall m | k <= m < p0 - 1 :: buf[m] == buf[..p0][m] == name[m - k];
    assert forall m | k <= m < p0 - 1 :: buf[m] != SLASH;
    p := p0 - 1;
    while buf[p - 1] != SLASH
      invariant k <= p <= p0 - 1
      decreases p
    {
      p := p - 1;
    }
    assert buf[..k] == buf[..p0][..k] == front;
  }

  /** The names that fit into a buffer stand in it; at least one more would not fit. */
  ghost predicate Filled(b: Bytes, p: nat, ns: seq<Bytes>, k: nat) {
    && p <= |b| && k <= |ns| && b[..p] == Text(ns[..k])
    && (k < |ns| ==> |Text(ns[..k + 1])| > |b|)
  }

  /** Goes back to the part of the text shared with the next node's path. */
  method PopTo(buf: array<Byte>, p0: nat, pdepth0: nat, depth: nat, ghost ns: seq<Bytes>) returns (p: nat, pdepth: nat)
    requires Filled(buf[..], p0, ns, pdepth0) && (depth >= 1 || pdepth0 == 0) &&
      forall i | 0 <= i < |ns| :: SLASH !in ns[i]
    ensures pdepth == if pdepth0 > depth then depth else pdepth0
    ensures p <= buf.Length && buf[..p] == Text(ns[..pdepth])
  {
    hide Text;
    p, pdepth := p0, pdepth0;
    while pdepth > depth
      invariant p <= buf.Length && pdepth <= |ns| && buf[..p] == Text(ns[..pdepth])
      invariant pdepth == pdepth0 || depth <= pdepth < pdepth0
    {
      assert ns[..pdepth][..pdepth - 1] == ns[..pdepth - 1];
      p := PopName(buf, p, ns[..pdepth]);
      pdepth := pdepth - 1;
    }
  }

  /** Appends a name and a slash if they fit. */
  method PushName(fdt: Blob, offset: int, buf: array<Byte>, p0: nat, ghost front: Bytes) returns (p: nat, fits: bool)
    requires fdt.StructIn() && NodeAt(fdt.Struct(), offset) && buf != fdt.buf
    requires p0 <= buf.Length && buf[..p0] == front
    modifies buf
    ensures fits <==> p0 + |NameAt(fdt.Struct(), offset)| + 1 <= buf.Length
    ensures !fits ==> p == p0 && buf[..] == old(buf[..])
    ensures fits ==> p <= buf.Length && buf[..p] == front + NameAt(fdt.Struct(), offset) + [SLASH]
  {
    hide NodeAt, NameAt;
    ghost var s := fdt.Struct();
    var namelen := GetName(fdt, offset);
    ghost var name := NameAt(s, offset);
    fits := p0 + namelen + 1 <= buf.Length;
    p := p0;
    if fits {
      var at := fdt.offStruct + offset + 4;
      assert forall i | 0 <= i < namelen :: name[i] == s[offset + 4 + i] == fdt.buf[at + i];
      forall i | 0 <= i < namelen {
        buf[p0 + i] := fdt.buf[at + i];
      }
      p := p0 + namelen;
      buf[p] := SLASH;
      p := p + 1;
      assert forall i | 0 <= i < p0 :: buf[i] == old(buf[..p0])[i];
      assert buf[..p] == front + name + [SLASH];
    }
  }

  /** Takes the text from one node's path to the next one's, as far as it fits. */
  method Visit(fdt: Blob, offset: int, depth: nat, buf: array<Byte>, p0: nat, pdepth0: nat, ghost prev: seq<Bytes>,
      ghost ns: seq<Bytes>)
    returns (p: nat, pdepth: nat)
    requires fdt.StructIn() && NodeAt(fdt.Struct(), offset) && buf != fdt.buf
    requires |ns| == depth + 1 && ns[depth] == NameAt(fdt.Struct(), offset) && depth <= |prev| &&
      prev[..depth] == ns[..depth]
    requires Filled(buf[..], p0, prev, pdepth0) && forall i | 0 <= i < |prev| :: SLASH !in prev[i]
    requires depth >= 1 || pdepth0 == 0
    modifies buf
    ensures Filled(buf[..], p, ns, pdepth)
  {
    hide NodeAt, NameAt, Text;
    p, pdepth := PopTo(buf, p0, pdepth0, depth, prev);
    Fronts(prev, ns, depth);
    assert prev[..pdepth] == ns[..pdepth];
    if pdepth >= depth {
      var fits;
      TextSnoc(ns);
      p, fits := PushName(fdt, offset, buf, p, Text(ns[..depth]));
      assert ns[..depth + 1] == ns;
      if fits {
        pdepth := pdepth + 1;
      }
    } else {
      assert prev[..pdepth + 1] == ns[..pdepth + 1];
    }
  }

  lemma TextSnoc(ns: seq<Bytes>)
    requires |ns| > 0
    ensures Text(ns) == Text(ns[..|ns| - 1]) + ns[|ns| - 1] + [SLASH]
    ensures |Text(ns)| == |Text(ns[..|ns| - 1])| + |ns[|ns| - 1]| + 1
  {
  }

  /** A node of the tree whose root is the first token. */
  ghost predicate InTree(s: Bytes, o: int) {
    NodeAt(s, 0) && NodeAt(s, o) && o <= |s| && (o == 0 || exists k :: Deep(s, 0, o, k))
  }

  ghost predicate Slashless(s: Bytes) {
    forall o | InTree(s, o) :: SLASH !in NameAt(s, o)
  }

  lemma LineSlashless(s: Bytes, offs: seq<int>)
    requires Slashless(s) && Line(s, offs)
    ensures forall i | 0 <= i < |offs| :: SLASH !in Names(s, offs)[i]
  {
    hide NameAt, NodeAt, Deep;
    forall i | 0 <= i < |offs| ensures SLASH !in Names(s, offs)[i] {
      LineFront(s, offs, i + 1);
      if i > 0 {
        LineDeep(s, offs[..i + 1], 0);
        DeepAfter(s, 0, offs[i], i - 1);
      }
      NodeWithin(s, offs[0]);
      assert InTree(s, offs[i]);
    }
  }

  lemma NodeWithin(s: Bytes, o: int)
    requires NodeAt(s, o)
    ensures 0 <= o <= |s|
  {
    hide First, TagAt;
    CheckedFacts(s, o);
  }

  lemma LineFront(s: Bytes, offs: seq<int>, n: nat)
    requires Line(s, offs) && 0 < n <= |offs|
    ensures Line(s, offs[..n])
  {
    hide Child, NodeAt;
    forall i | 0 <= i < n - 1 ensures Linked(s, offs[..n], i) {
      assert Linked(s, offs, i);
    }
  }

  /** The path of a node of the tree, written into a buffer if it fits. */
  method GetPath(fdt: Blob, node: nat, buf: array<Byte>) returns (r: int, ghost offs: seq<int>)
    requires fdt.StructIn() && buf != fdt.buf && InTree(fdt.Struct(), node) && Slashless(fdt.Struct())
    modifies buf
    ensures Line(fdt.Struct(), offs) && offs[|offs| - 1] == node
    ensures var ns := Names(fdt.Struct(), offs); var path := PathText(ns);
            && r == (if buf.Length >= 2 && |Text(ns)| <= buf.Length then 0 else -ERR_NOSPACE)
            && (r == 0 ==> |path| < buf.Length && buf[..|path|] == path && buf[|path|] == 0)
  {
    hide NodeAt, NameAt, Text, Line, Ahead, InTree, Slashless, NextFrom, Filled, Names;
    ghost var s := fdt.Struct();
    offs := [0];
    WalkStart(s, node);
    if buf.Length < 2 {
      offs := LineTo(s, node);
      return -ERR_NOSPACE, offs;
    }
    var offset, depth := 0, 0;
    var p: nat, pdepth: nat := 0, 0;
    ghost var prev: seq<Bytes> := [];
    FilledNone(buf[..]);
    while true
      invariant depth >= 0 && |offs| == depth + 1 && Line(s, offs) && offs[depth] == offset &&
        Ahead(s, offset, depth, node)
      invariant depth <= |prev| && prev[..depth] == LineNames(s, offs)[..depth]
      invariant Filled(buf[..], p, prev, pdepth) && (forall i | 0 <= i < |prev| :: SLASH !in prev[i])
      invariant depth >= 1 || pdepth == 0
      decreases node - offset
    {
      ghost var ns := LineNames(s, offs);
      LineFacts(s, offs);
      p, pdepth := Visit(fdt, offset, depth, buf, p, pdepth, prev, ns);
      if offset == node {
        FilledFits(buf[..], p, ns, pdepth);
        if pdepth < depth + 1 {
          return -ERR_NOSPACE, offs;
        }
        if p > 1 {
          p := p - 1;
        }
        ghost var b := buf[..];
        buf[p] := 0;
        Terminated(b, p, ns, buf[..]);
        return 0, offs;
      }
      StepFacts(s, offs, node);
      offset, depth := NextNode(fdt, offset, depth);
      OnwardNames(s, offs, offset, depth);
      offs, prev := Onward(offs, offset, depth), ns;
    }
  }

  ghost function LineNames(s: Bytes, offs: seq<int>): (ns: seq<Bytes>)
    requires Line(s, offs)
    ensures |ns| == |offs|
  {
    Names(s, offs)
  }

  lemma WalkStart(s: Bytes, node: nat)
    requires InTree(s, node)
    ensures Line(s, [0]) && Ahead(s, 0, 0, node)
  {
    hide First, TagAt, Scan, StaysOpen;
    if node != 0 {
      var k :| Deep(s, 0, node, k);
    }
  }

  lemma FilledNone(b: Bytes)
    ensures Filled(b, 0, [], 0)
  {
  }

  lemma LineFacts(s: Bytes, offs: seq<int>)
    requires Line(s, offs) && Slashless(s)
    ensures var n := |offs| - 1; var ns := LineNames(s, offs);
            && |ns| == |offs| && NodeAt(s, offs[n]) && ns[n] == NameAt(s, offs[n])
            && forall i | 0 <= i < |ns| :: SLASH !in ns[i]
  {
    hide NodeAt, NameAt, Slashless, Linked;
    LineSlashless(s, offs);
  }

  lemma FilledFits(b: Bytes, p: nat, ns: seq<Bytes>, k: nat)
    requires Filled(b, p, ns, k)
    ensures k == |ns| <==> |Text(ns)| <= |b|
    ensures k <= |ns| && p <= |b| && (k == |ns| ==> b[..p] == Text(ns))
  {
    hide Text;
    if k == |ns| {
      assert ns[..k] == ns;
    } else {
      TextGrows(ns, k + 1);
    }
  }

  lemma Terminated(b: Bytes, p: nat, ns: seq<Bytes>, after: Bytes)
    requires ns != [] && p < |b| == |after| && after == b[p := 0] && |b| >= 2
    requires |Text(ns)| <= |b| && b[..|Text(ns)|] == Text(ns)
    requires p == if |Text(ns)| > 1 then |Text(ns)| - 1 else |Text(ns)|
    ensures var path := PathText(ns); |path| < |after| && after[..|path|] == path && after[|path|] == 0
  {
    TextSnoc(ns);
    var t := Text(ns);
    assert after[..p] == b[..p] == b[..|t|][..p];
  }

  lemma StepFacts(s: Bytes, offs: seq<int>, node: nat)
    requires |offs| > 0 && Line(s, offs) && Ahead(s, offs[|offs| - 1], |offs| - 1, node) && offs[|offs| - 1] != node
    ensures var (o, d) := NextFrom(s, offs[|offs| - 1], |offs| - 1);
            && 1 <= d <= |offs| && offs[|offs| - 1] < o <= node && Line(s, Onward(offs, o, d)) && Ahead(s, o, d, node)
  {
    LineStep(s, offs, node);
  }

  lemma OnwardNames(s: Bytes, offs: seq<int>, o: int, d: int)
    requires Line(s, offs) && 1 <= d <= |offs| && Line(s, Onward(offs, o, d))
    ensures LineNames(s, Onward(offs, o, d))[..d] == LineNames(s, offs)[..d]
  {
    hide NodeAt, NameAt;
  }

  /** Every node of the tree has a line. */
  lemma LineTo(s: Bytes, node: nat) returns (offs: seq<int>)
    requires InTree(s, node)
    ensures Line(s, offs) && offs[|offs| - 1] == node
  {
    hide Line, Ahead, InTree;
    WalkStart(s, node);
    offs := LineAhead(s, [0], node);
  }

  lemma {:induction false} LineAhead(s: Bytes, offs: seq<int>, node: nat) returns (line: seq<int>)
    requires |offs| > 0 && Line(s, offs) && Ahead(s, offs[|offs| - 1], |offs| - 1, node)
    ensures |line| > 0 && Line(s, line) && line[|line| - 1] == node
    decreases node - offs[|offs| - 1]
  {
    hide Line, Ahead, NextFrom;
    AheadFacts(s, offs[|offs| - 1], |offs| - 1, node);
    if offs[|offs| - 1] == node {
      line := offs;
    } else {
      StepFacts(s, offs, node);
      var (o, d) := NextFrom(s, offs[|offs| - 1], |offs| - 1);
      line := LineAhead(s, Onward(offs, o, d), node);
    }
  }

  lemma AheadFacts(s: Bytes, o: int, d: int, t: int)
    requires Ahead(s, o, d, t)
    ensures o <= t
  {
  }
}
