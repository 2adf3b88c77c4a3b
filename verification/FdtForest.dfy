/**
 The tree of nodes in a structure block: every node with its properties and its children, each
 named by its offset, and the walks of the library as walks of that tree.
 */
module FdtForest {
  import opened Basics
  import opened FdtFormat
  import opened FdtNodes
  import opened FdtTree
  import opened FdtProps

  /** A property: its name, and the offset of its tag. */
  datatype Prop = Prop(name: Bytes, slot: nat)

  datatype Node = Node(at: nat, name: Bytes, props: seq<Prop>, kids: seq<Node>)

  ghost function TokenName(t: Token, strings: Bytes): Bytes {
    if t.Property? && StringAt(strings, t.nameOff).Some? then StringAt(strings, t.nameOff).value else []
  }

  /** The properties from off on that are not behind another kind of tag. */
  ghost function Props(s: Bytes, strings: Bytes, off: int): seq<Prop>
    decreases |s| - off
  {
    var (tag, next) := TagAt(s, off);
    if tag == PROP then [Prop(TokenName(First(s[off..]).token, strings), off)] + Props(s, strings, next)
    else if tag == NOP then Props(s, strings, next)
    else []
  }

  /** The nodes from off on up to the tag that closes their parent, and the offset behind that. */
  ghost function Forest(s: Bytes, strings: Bytes, off: int): (r: (seq<Node>, int))
    ensures r.1 >= 0 ==> off < r.1
    decreases |s| - off
  {
    var (tag, next) := TagAt(s, off);
    if tag == END_NODE then ([], next)
    else if tag == BEGIN_NODE then
      var (kids, e) := Forest(s, strings, next);
      if e < 0 then ([], e)
      else
        var (more, f) := Forest(s, strings, e);
        ([Node(off, First(s[off..]).token.name, Props(s, strings, next), kids)] + more, f)
    else if tag == END then ([], -1)
    else Forest(s, strings, next)
  }

  /** The offset behind the node at an offset. */
  ghost function EndOf(s: Bytes, off: int): int {
    CloseFrom(s, CheckedNode(s, off), 0)
  }

  ghost function TreeAt(s: Bytes, strings: Bytes, off: int): Node
    requires NodeAt(s, off)
  {
    var b := CheckedNode(s, off);
    Node(off, NameAt(s, off), Props(s, strings, b), Forest(s, strings, b).0)
  }

  /** A node of the block with everything in it. */
  ghost predicate Here(s: Bytes, strings: Bytes, n: Node) {
    && NodeAt(s, n.at) && Boundary(s, n.at) && EndOf(s, n.at) >= 0 && n == TreeAt(s, strings, n.at)
  }

  // ---- nesting

  /** Closing one node more is closing one and then the others. */
  lemma {:induction false} CloseNest(s: Bytes, off: int, a: nat, d: nat)
    ensures var e := CloseFrom(s, off, a); CloseFrom(s, off, a + 1 + d) == if e < 0 then e else CloseFrom(s, e, d)
    decreases |s| - off
  {
    hide First, TagAt;
    TagStep(s, off);
    var (tag, next) := TagAt(s, off);
    if tag == END_NODE && a > 0 {
      CloseNest(s, next, a - 1, d);
    } else if tag != END && tag != END_NODE {
      CloseNest(s, next, if tag == BEGIN_NODE then a + 1 else a, d);
    }
  }

  /** The forest ends where the parent is closed. */
  lemma {:induction false} ForestEnd(s: Bytes, strings: Bytes, off: int)
    ensures var e, f := CloseFrom(s, off, 0), Forest(s, strings, off).1; if e < 0 then f < 0 else f == e
    decreases |s| - off
  {
    hide First, TagAt, Props;
    TagStep(s, off);
    var (tag, next) := TagAt(s, off);
    if tag == BEGIN_NODE {
      ForestEnd(s, strings, next);
      CloseNest(s, next, 0, 0);
      var e := Forest(s, strings, next).1;
      if e >= 0 {
        ForestEnd(s, strings, e);
      }
    } else if tag != END && tag != END_NODE {
      ForestEnd(s, strings, next);
    }
  }

  // ---- children

  /** The first child from off on; d nodes are open there within the parent. */
  ghost function KidFrom(s: Bytes, off: int, d: nat): int
    decreases |s| - off
  {
    var (tag, next) := TagAt(s, off);
    if tag == BEGIN_NODE then (if d == 0 then off else KidFrom(s, next, d + 1))
    else if tag == END_NODE then (if d == 0 then -ERR_NOTFOUND else KidFrom(s, next, d - 1))
    else if tag == END then (if next == ASTRAY then ASTRAY else -ERR_NOTFOUND)
    else KidFrom(s, next, d)
  }

  /** From within a node on, the next child comes behind that node. */
  lemma {:induction false} KidSkip(s: Bytes, off: int, a: nat)
    ensures var e := CloseFrom(s, off, a);
            KidFrom(s, off, a + 1) ==
              if e == ASTRAY then ASTRAY else if e < 0 then -ERR_NOTFOUND else KidFrom(s, e, 0)
    decreases |s| - off
  {
    hide First, TagAt;
    TagStep(s, off);
    var (tag, next) := TagAt(s, off);
    if tag == END_NODE && a > 0 {
      KidSkip(s, next, a - 1);
    } else if tag != END && tag != END_NODE {
      KidSkip(s, next, if tag == BEGIN_NODE then a + 1 else a);
    }
  }

  lemma {:induction false} SubSkip(s: Bytes, off: int, a: nat, given: Bytes)
    ensures var e := CloseFrom(s, off, a); SubFrom(s, off, a + 1, given) == if e < 0 then e else SubFrom(s, e, 0, given)
    decreases |s| - off
  {
    hide First, TagAt, MatchAt;
    TagStep(s, off);
    var (tag, next) := TagAt(s, off);
    if tag == END_NODE && a > 0 {
      SubSkip(s, next, a - 1, given);
    } else if tag != END && tag != END_NODE {
      SubSkip(s, next, if tag == BEGIN_NODE then a + 1 else a, given);
    }
  }

  /** A forest is its first tree and the forest behind it. */
  lemma {:induction false} ForestStep(s: Bytes, strings: Bytes, off: nat, given: Bytes)
    requires off % 4 == 0 && CloseFrom(s, off, 0) >= 0
    ensures var c, ks := KidFrom(s, off, 0), Forest(s, strings, off).0;
            && (c < 0 ==> c == -ERR_NOTFOUND && ks == [] && SubFrom(s, off, 0, given) == -ERR_NOTFOUND)
            && (c >= 0 ==>
                  && off <= c <= |s| && Scan(s[off..c]).Some? && NodeAt(s, c) && EndOf(s, c) > c
                  && CloseFrom(s, EndOf(s, c), 0) == CloseFrom(s, off, 0)
                  && ks == [TreeAt(s, strings, c)] + Forest(s, strings, EndOf(s, c)).0
                  && SubFrom(s, off, 0, given) ==
                       if Matches(NameAt(s, c), given) then c else SubFrom(s, EndOf(s, c), 0, given))
    decreases |s| - off
  {
    hide First, Scan, Align4, TagOf, Props, Matches, MatchAt;
    var (tag, next) := TagAt(s, off);
    TagFacts(s, off);
    if tag == BEGIN_NODE {
      CheckedFacts(s, off);
      assert s[off..off] == [];
      ScanNone();
      CloseNest(s, next, 0, 0);
      ForestEnd(s, strings, next);
      SubSkip(s, next, 0, given);
      MatchNamed(s, off, given);
      CloseAfter(s, next, 0);
    } else if tag != END_NODE {
      ForestStep(s, strings, next, given);
      var c := KidFrom(s, next, 0);
      if c >= 0 {
        ScanCons(s, off, next, c);
      }
    }
  }

  lemma CloseAfter(s: Bytes, off: nat, d: nat)
    requires off % 4 == 0 && CloseFrom(s, off, d) >= 0
    ensures off < CloseFrom(s, off, d) <= |s| && Scan(s[off..CloseFrom(s, off, d)]).Some?
    ensures CloseFrom(s, off, d) % 4 == 0
  {
    hide First, Scan, TagAt, Closes, CloseFrom;
    CloseTokens(s, off, d);
    ScanAligned(s[off..CloseFrom(s, off, d)]);
    assert |s[off..CloseFrom(s, off, d)]| == CloseFrom(s, off, d) - off;
  }

  /** The bytes of a node are a piece. */
  lemma SpanScan(s: Bytes, off: nat)
    requires NodeAt(s, off) && EndOf(s, off) >= 0
    ensures off % 4 == 0 && off < CheckedNode(s, off) < EndOf(s, off) <= |s|
    ensures CheckedNode(s, off) % 4 == 0 && EndOf(s, off) % 4 == 0
    ensures Scan(s[off..EndOf(s, off)]).Some? && Scan(s[off..CheckedNode(s, off)]).Some?
  {
    hide First, Scan, TagAt, CloseFrom;
    CheckedFacts(s, off);
    var b, e := CheckedNode(s, off), EndOf(s, off);
    CloseAfter(s, b, 0);
    TagIsBegin(s, off);
    ScanCons(s, off, b, e);
    assert s[b..b] == [];
    ScanNone();
    ScanCons(s, off, b, b);
  }

  /** What lies behind a place of a piece that starts at a boundary. */
  lemma BoundaryOn(s: Bytes, a: nat, b: nat)
    requires Boundary(s, a) && a <= b <= |s| && Scan(s[a..b]).Some?
    ensures Boundary(s, b)
  {
    hide First, Scan;
    BoundaryBetween(s, a, b);
  }

  lemma ScanJoin(s: Bytes, a: nat, b: nat, c: nat)
    requires a <= b <= c <= |s| && Scan(s[a..b]).Some? && Scan(s[b..c]).Some?
    ensures Scan(s[a..c]).Some?
  {
    hide First, Scan;
    assert s[a..c] == s[a..b] + s[b..c];
    ScanAppend(s[a..b], s[b..c]);
  }

  /** The trees of a forest stand in the block, and the forest goes on behind each of them. */
  lemma {:induction false} ForestAt(s: Bytes, strings: Bytes, off: nat, k: nat)
    requires off % 4 == 0 && CloseFrom(s, off, 0) >= 0 && k < |Forest(s, strings, off).0|
    ensures var ks := Forest(s, strings, off).0; var c := ks[k].at;
            && off <= c && NodeAt(s, c) && EndOf(s, c) > c && ks[k] == TreeAt(s, strings, c)
            && c <= |s| && Scan(s[off..c]).Some?
            && CloseFrom(s, EndOf(s, c), 0) == CloseFrom(s, off, 0)
            && Forest(s, strings, EndOf(s, c)).0 == ks[k + 1..]
    decreases k
  {
    hide First, Scan, TagAt, Forest, CloseFrom, TreeAt;
    ForestStep(s, strings, off, []);
    var c := KidFrom(s, off, 0);
    var ks := Forest(s, strings, off).0;
    TreeIsAt(s, strings, c);
    if k == 0 {
      assert ks[1..] == Forest(s, strings, EndOf(s, c)).0;
    } else {
      SpanScan(s, c);
      var e := EndOf(s, c);
      var more := Forest(s, strings, e).0;
      ForestAt(s, strings, e, k - 1);
      assert ks[k] == more[k - 1] && ks[k + 1..] == more[k..];
      ScanJoin(s, off, c, e);
      ScanJoin(s, off, e, ks[k].at);
    }
  }

  lemma TreeIsAt(s: Bytes, strings: Bytes, c: int)
    ensures c >= 0 && NodeAt(s, c) ==> TreeAt(s, strings, c).at == c
  {
  }

  /** A node's children, by the walk over them. */
  lemma KidHere(s: Bytes, strings: Bytes, n: Node, k: nat)
    requires Here(s, strings, n) && k < |n.kids|
    ensures Here(s, strings, n.kids[k])
    ensures n.at < CheckedNode(s, n.at) <= n.kids[k].at < EndOf(s, n.kids[k].at) <= EndOf(s, n.at)
    ensures k + 1 < |n.kids| ==> EndOf(s, n.kids[k].at) <= n.kids[k + 1].at
    ensures KidFrom(s, CheckedNode(s, n.kids[k].at), 1) == if k + 1 < |n.kids| then n.kids[k + 1].at else -ERR_NOTFOUND
  {
    hide First, Scan, TagAt, Forest, CloseFrom, TreeAt, KidFrom;
    TreeParts(s, strings, n);
    SpanScan(s, n.at);
    var b := CheckedNode(s, n.at);
    ForestAt(s, strings, b, k);
    var c := n.kids[k].at;
    SpanScan(s, c);
    BoundaryOn(s, n.at, b);
    BoundaryOn(s, b, c);
    TreeIsAt(s, strings, c);
    KidSkip(s, CheckedNode(s, c), 0);
    var e := EndOf(s, c);
    CloseAfter(s, e, 0);
    ForestStep(s, strings, e, []);
    var next := KidFrom(s, e, 0);
    TreeIsAt(s, strings, next);
    assert |n.kids[k + 1..]| == |n.kids| - k - 1;
    if k + 1 < |n.kids| {
      assert n.kids[k + 1] == n.kids[k + 1..][0];
    }
  }

  lemma FirstKid(s: Bytes, strings: Bytes, n: Node)
    requires Here(s, strings, n)
    ensures KidFrom(s, CheckedNode(s, n.at), 0) == if n.kids != [] then n.kids[0].at else -ERR_NOTFOUND
  {
    hide First, Scan, TagAt, Forest, CloseFrom, TreeAt, KidFrom;
    TreeParts(s, strings, n);
    SpanScan(s, n.at);
    ForestStep(s, strings, CheckedNode(s, n.at), []);
    TreeIsAt(s, strings, KidFrom(s, CheckedNode(s, n.at), 0));
  }

  lemma TreeParts(s: Bytes, strings: Bytes, n: Node)
    requires Here(s, strings, n)
    ensures n.kids == Forest(s, strings, CheckedNode(s, n.at)).0 && n.props == Props(s, strings, CheckedNode(s, n.at))
    ensures n.name == NameAt(s, n.at)
  {
  }

  /** The index of the first child that answers to a name. */
  ghost function FindKid(n: Node, name: Bytes, i: nat): (r: Option<nat>)
    requires i <= |n.kids|
    ensures r.Some? ==> i <= r.value < |n.kids|
    decreases |n.kids| - i
  {
    if i == |n.kids| then None
    else if Matches(n.kids[i].name, name) then Some(i)
    else FindKid(n, name, i + 1)
  }

  /** The search for a child by name, in the bytes and in the tree. */
  lemma {:induction false} FindKidFrom(s: Bytes, strings: Bytes, off: nat, n: Node, i: nat, given: Bytes)
    requires off % 4 == 0 && CloseFrom(s, off, 0) >= 0 && i <= |n.kids| && n.kids[i..] == Forest(s, strings, off).0
    ensures SubFrom(s, off, 0, given) ==
            if FindKid(n, given, i).None? then -ERR_NOTFOUND else n.kids[FindKid(n, given, i).value].at
    decreases |n.kids| - i
  {
    hide First, Scan, TagAt, Forest, CloseFrom, KidFrom, SubFrom, Matches, NameAt, Props, CheckedNode;
    ForestStep(s, strings, off, given);
    var c := KidFrom(s, off, 0);
    if c >= 0 {
      var e := EndOf(s, c);
      assert n.kids[i] == n.kids[i..][0] == TreeAt(s, strings, c);
      assert n.kids[i + 1..] == n.kids[i..][1..];
      SpanScan(s, c);
      FindKidFrom(s, strings, e, n, i + 1, given);
    } else {
      assert |n.kids[i..]| == 0;
    }
  }

  lemma FindKidHere(s: Bytes, strings: Bytes, n: Node, given: Bytes)
    requires Here(s, strings, n)
    ensures SubNode(s, n.at, given) ==
            if FindKid(n, given, 0).None? then -ERR_NOTFOUND else n.kids[FindKid(n, given, 0).value].at
  {
    hide First, Scan, TagAt, Forest, CloseFrom, SubFrom, TreeAt, FindKid;
    TreeParts(s, strings, n);
    SpanScan(s, n.at);
    assert n.kids[0..] == n.kids;
    FindKidFrom(s, strings, CheckedNode(s, n.at), n, 0, given);
  }

  // ---- properties

  /** Every property's name can be looked up. */
  ghost predicate Named(s: Bytes, strings: Bytes) {
    forall p: nat | Boundary(s, p) && TagAt(s, p).0 == PROP :: StringAt(strings, First(s[p..]).token.nameOff).Some?
  }

  /** The slot of a node's first property with a name, from the i-th on. */
  ghost function FindProp(n: Node, name: Bytes, i: nat): (r: Option<nat>)
    requires i <= |n.props|
    ensures r.Some? ==> exists j :: i <= j < |n.props| && n.props[j] == Prop(name, r.value)
    decreases |n.props| - i
  {
    if i == |n.props| then None
    else if n.props[i].name == name then Some(n.props[i].slot)
    else FindProp(n, name, i + 1)
  }

  /** The first of some properties, and the rest of them. */
  lemma {:induction false} PropsStep(s: Bytes, strings: Bytes, off: nat)
    requires off % 4 == 0 && Boundary(s, off) && CloseFrom(s, off, 0) >= 0
    ensures var q, ps := NextPropFrom(s, off), Props(s, strings, off);
            && (q < 0 ==> q == -ERR_NOTFOUND && ps == [])
            && (q >= 0 ==>
                  && off <= q < TagAt(s, q).1 && q % 4 == 0 && TagAt(s, q).1 % 4 == 0 && TagAt(s, q).0 == PROP &&
                    q < |s|
                  && Boundary(s, q) && Boundary(s, TagAt(s, q).1)
                  && CloseFrom(s, TagAt(s, q).1, 0) == CloseFrom(s, off, 0) &&
                    KidFrom(s, TagAt(s, q).1, 0) == KidFrom(s, off, 0)
                  && First(s[q..]).Lex? && First(s[q..]).token.Property?
                  && ps == [Prop(TokenName(First(s[q..]).token, strings), q)] + Props(s, strings, TagAt(s, q).1))
    decreases |s| - off
  {
    hide First, Scan, Align4, TagOf, TokenName, Boundary;
    var (tag, next) := TagAt(s, off);
    TagFacts(s, off);
    if tag == NOP || tag == PROP {
      CloseAfter(s, next, 0);
      StepOn(s, off);
    }
    if tag == NOP {
      PropsStep(s, strings, next);
    }
  }

  lemma StepOn(s: Bytes, off: nat)
    requires off % 4 == 0 && Boundary(s, off) && TagAt(s, off).0 != END && TagAt(s, off).1 <= |s|
    ensures Boundary(s, TagAt(s, off).1)
  {
    hide First, Scan, Align4;
    TagFacts(s, off);
    BoundaryStep(s, off);
  }

  /** The search for a property by name, in the bytes and in the tree. */
  lemma {:induction false} FindPropFrom(s: Bytes, strings: Bytes, off: nat, n: Node, i: nat, name: Bytes)
    requires off % 4 == 0 && Boundary(s, off) && CloseFrom(s, off, 0) >= 0 && Named(s, strings)
    requires i <= |n.props| && n.props[i..] == Props(s, strings, off)
    ensures PropFrom(s, strings, off, name) ==
            if FindProp(n, name, i).None? then -ERR_NOTFOUND else FindProp(n, name, i).value
    decreases |n.props| - i
  {
    hide First, Scan, Boundary, TagAt, Props, CloseFrom, KidFrom, NextPropFrom;
    PropsStep(s, strings, off);
    PropStep(s, strings, off, name);
    var q := NextPropFrom(s, off);
    if q >= 0 {
      assert n.props[i] == n.props[i..][0];
      assert n.props[i + 1..] == n.props[i..][1..];
      FindPropFrom(s, strings, TagAt(s, q).1, n, i + 1, name);
    } else {
      assert |n.props[i..]| == 0;
    }
  }

  lemma FindPropHere(s: Bytes, strings: Bytes, n: Node, name: Bytes)
    requires Here(s, strings, n) && Named(s, strings)
    ensures Found(s, strings, n.at, name) ==
            if FindProp(n, name, 0).None? then -ERR_NOTFOUND else FindProp(n, name, 0).value
  {
    hide First, Scan, TagAt, Forest, CloseFrom, TreeAt, FindProp, PropFrom, Named;
    TreeParts(s, strings, n);
    SpanScan(s, n.at);
    BoundaryOn(s, n.at, CheckedNode(s, n.at));
    assert n.props[0..] == n.props;
    FindPropFrom(s, strings, CheckedNode(s, n.at), n, 0, name);
  }

  /** The properties of a node are tags of the block, in order and before its first child. */
  lemma {:induction false} PropsAt(s: Bytes, strings: Bytes, off: nat, k: nat)
    requires off % 4 == 0 && Boundary(s, off) && CloseFrom(s, off, 0) >= 0 && k < |Props(s, strings, off)|
    ensures var ps := Props(s, strings, off); var q := ps[k].slot;
            && off <= q < |s| && q % 4 == 0 && Boundary(s, q) && TagAt(s, q).0 == PROP && First(s[q..]).Lex?
            && ps[k].name == TokenName(First(s[q..]).token, strings)
            && q < CloseFrom(s, off, 0) && (KidFrom(s, off, 0) >= 0 ==> q < KidFrom(s, off, 0))
            && (k > 0 ==> ps[k - 1].slot < q)
            && NextPropFrom(s, TagAt(s, q).1) == if k + 1 < |ps| then ps[k + 1].slot else -ERR_NOTFOUND
    decreases k
  {
    hide First, Scan, Boundary, TagAt, Props, CloseFrom, KidFrom, NextPropFrom, TokenName;
    PropsStep(s, strings, off);
    var q := NextPropFrom(s, off);
    var next := TagAt(s, q).1;
    var ps, rest := Props(s, strings, off), Props(s, strings, next);
    CloseAfter(s, next, 0);
    ForestStep(s, strings, next, []);
    PropsStep(s, strings, next);
    if k > 0 {
      PropsAt(s, strings, next, k - 1);
      assert ps[k] == rest[k - 1];
    }
  }
}
