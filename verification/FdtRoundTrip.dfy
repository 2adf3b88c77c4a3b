/**
 From a node to its path and back, and two blocks for which the way back leads elsewhere.
 */
module FdtRoundTrip {
  import opened Basics
  import opened FdtFormat
  import opened FdtBlob
  import opened FdtNodes
  import opened FdtTree
  import opened FdtPath
  import opened FdtLookup

  /** Siblings have different names, none that is another one's with a unit address, and none is empty. */
  ghost predicate WellNamed(s: Bytes) {
    && (forall p, c | Child(s, p, c) :: NameAt(s, c) != [])
    && forall p, r, c | Child(s, p, r) && Child(s, p, c) && r < c ::
         NameAt(s, r) != NameAt(s, c) && !(NameAt(s, c) + [64] <= NameAt(s, r))
  }

  lemma WellNamedLeadsBack(s: Bytes, offs: seq<int>)
    requires Line(s, offs) && WellNamed(s)
    ensures LeadsBack(s, offs)
  {
    hide NameAt, NodeAt, Child, Clear;
    forall j | 0 <= j < |offs| - 1 ensures ClearAt(s, offs, j) {
      assert Linked(s, offs, j);
      DistinctIsClear(s, offs[j], offs[j + 1]);
    }
    forall i | 1 <= i < |offs| ensures NameAt(s, offs[i]) != [] {
      assert Linked(s, offs, i - 1);
      assert Child(s, offs[i - 1], offs[i]);
    }
  }

  /** A path text holds no zero byte. */
  lemma {:induction false} TextHasNoZero(ns: seq<Bytes>)
    requires forall i | 0 <= i < |ns| :: IsName(ns[i])
    ensures IsName(Text(ns))
    decreases |ns|
  {
    if ns != [] {
      TextHasNoZero(ns[..|ns| - 1]);
    }
  }

  lemma PathEnds(b: Bytes, path: Bytes)
    requires IsName(path) && |path| < |b| && b[..|path|] == path && b[|path|] == 0
    ensures NulFrom(b, 0) == |path|
  {
    assert forall k | 0 <= k < |path| :: b[k] == path[k];
  }

  lemma LineFits(s: Bytes, offs: seq<int>)
    requires Line(s, offs) && Slashless(s)
    ensures forall i | 0 <= i < |offs| :: IsName(Names(s, offs)[i]) && SLASH !in NameAt(s, offs[i])
  {
    hide NameAt, NodeAt, IsName, Slashless, Linked;
    LineSlashless(s, offs);
    forall i | 0 <= i < |offs| ensures IsName(Names(s, offs)[i]) && SLASH !in NameAt(s, offs[i]) {
      NoZero(s, offs[i]);
      assert SLASH !in Names(s, offs)[i];
    }
  }

  /**
   The path of a node, followed from the root. If it fits into the buffer, it leads back to the node
   exactly if every node on the way has a name and no earlier sibling that answers to it.
   */
  method ThereAndBack(fdt: Blob, node: nat, buf: array<Byte>) returns (r: int, back: int, ghost offs: seq<int>)
    requires fdt.StructIn() && buf != fdt.buf && InTree(fdt.Struct(), node) && Slashless(fdt.Struct())
    requires NameAt(fdt.Struct(), 0) == []
    modifies buf
    ensures Line(fdt.Struct(), offs) && offs[|offs| - 1] == node
    ensures r == 0 <==> buf.Length >= 2 && |Text(Names(fdt.Struct(), offs))| <= buf.Length
    ensures r == 0 ==> (back == node <==> LeadsBack(fdt.Struct(), offs))
    ensures r == 0 && WellNamed(fdt.Struct()) ==> back == node
  {
    hide InTree, Slashless, NodeAt, NameAt, Linked, Text, Resolve, LeadsBack, WellNamed, Names;
    ghost var s := fdt.Struct();
    r, offs := GetPath(fdt, node, buf);
    back := -1;
    if r == 0 {
      ghost var path := PathText(Names(s, offs));
      LineFits(s, offs);
      PathStarts(s, offs);
      PathEnds(buf[..], path);
      PathLeadsBack(s, offs);
      back := PathOffset(fdt, buf[..NulFrom(buf[..], 0)]);
      if WellNamed(s) {
        WellNamedLeadsBack(s, offs);
      }
    }
  }

  lemma PathStarts(s: Bytes, offs: seq<int>)
    requires Line(s, offs) && forall i | 0 <= i < |offs| :: IsName(Names(s, offs)[i])
    ensures IsName(PathText(Names(s, offs))) && offs[0] == 0
  {
    TextHasNoZero(Names(s, offs));
  }

  // ---- two blocks

  /** A root with a node called x@1, and a node called x behind it. */
  const SHADOWED: Bytes :=
    [0, 0, 0, 1, 0, 0, 0, 0,
     0, 0, 0, 1, 120, 64, 49, 0, 0, 0, 0, 2,
     0, 0, 0, 1, 120, 0, 0, 0, 0, 0, 0, 2,
     0, 0, 0, 2, 0, 0, 0, 9]

  /** A root with a node that has no name. */
  const NAMELESS: Bytes :=
    [0, 0, 0, 1, 0, 0, 0, 0,
     0, 0, 0, 1, 0, 0, 0, 0, 0, 0, 0, 2,
     0, 0, 0, 2, 0, 0, 0, 9]

  lemma BeginAt(s: Bytes, off: nat, z: nat)
    requires off + 4 <= z < |s| && s[off] == s[off + 1] == s[off + 2] == s[z] == 0 && s[off + 3] == 1
    requires forall k | off + 4 <= k < z :: s[k] != 0
    ensures First(s[off..]) == Lex(Begin(s[off + 4..z]), z + 1 - off)
    ensures TagAt(s, off) == (BEGIN_NODE, Align4(z + 1))
  {
    FirstAt(s, off);
    assert s[off..off + 4] == [0, 0, 0, 1];
    assert NulFrom(s, off + 4) == z;
  }

  lemma FinishAt(s: Bytes, off: nat)
    requires off + 4 <= |s| && s[off] == s[off + 1] == s[off + 2] == 0 && s[off + 3] == 2
    ensures First(s[off..]) == Lex(Finish, 4) && TagAt(s, off) == (END_NODE, Align4(off + 4))
  {
    FirstAt(s, off);
    assert s[off..off + 4] == [0, 0, 0, 2];
  }

  /** A child right behind the root's tag. */
  lemma FirstChild(s: Bytes, c: nat)
    requires NodeAt(s, 0) && NodeAt(s, c) && CheckedNode(s, 0) == c <= |s|
    ensures Child(s, 0, c) && Line(s, [0, c])
  {
    hide First, TagAt;
    assert s[c..c] == [];
    ScanNone();
    StaysOpenNone(0);
    NoRise();
    assert Linked(s, [0, c], 0);
  }

  /** And one behind a first, empty one. */
  lemma SecondChild(s: Bytes, a: nat, f: nat, c: nat)
    requires NodeAt(s, 0) && NodeAt(s, a) && NodeAt(s, c) && CheckedNode(s, 0) == a && CheckedNode(s, a) == f
    requires TagAt(s, f) == (END_NODE, c) && c <= |s|
    ensures Child(s, 0, c) && Line(s, [0, c])
  {
    hide First;
    CheckedFacts(s, 0);
    CheckedFacts(s, a);
    assert s[c..c] == [];
    ScanNone();
    TagFacts(s, a);
    TagFacts(s, f);
    ScanCons(s, f, c, c);
    ScanCons(s, a, f, c);
    var t, u := First(s[a..]).token, First(s[f..]).token;
    StaysOpenFront(t, [u] + [], 0);
    StaysOpenFront(u, [], 1);
    StaysOpenNone(0);
    RiseFront(t, [u] + []);
    RiseFront(u, []);
    NoRise();
    assert Linked(s, [0, c], 0);
  }

  /** A second child whose name the first one answers to. */
  lemma Shadowed(s: Bytes, a: nat, f: nat, c: nat, name: Bytes)
    requires NodeAt(s, 0) && NodeAt(s, a) && NodeAt(s, c) && CheckedNode(s, 0) == a && CheckedNode(s, a) == f
    requires TagAt(s, f) == (END_NODE, c) && c <= |s| && a < c
    requires NameAt(s, 0) == [] && NameAt(s, c) == name && MatchAt(s, a, name) && name != [] && SLASH !in name
    ensures Line(s, [0, c]) && PathText(Names(s, [0, c])) == [SLASH] + name
    ensures Resolve(s, 0, [SLASH] + name, 0) == a && !LeadsBack(s, [0, c])
  {
    hide NameAt, NodeAt, MatchAt, SubNode, Resolve, LeadsBack, Line, PathText;
    SecondChild(s, a, f, c);
    NamesOfTwo(s, c);
    TwoNames(name);
    OneComponent(s, [SLASH] + name, name);
    FoundFirst(s, a, name);
    PathLeadsBack(s, [0, c]);
  }

  lemma NamesOfTwo(s: Bytes, c: nat)
    requires Line(s, [0, c]) && NodeAt(s, 0) && NodeAt(s, c)
    ensures Names(s, [0, c]) == [NameAt(s, 0), NameAt(s, c)]
    ensures forall i | 0 <= i < 2 :: NameAt(s, [0, c][i]) == if i == 0 then NameAt(s, 0) else NameAt(s, c)
  {
    hide NameAt, NodeAt, Linked;
  }

  lemma ShadowedTags()
    ensures var s := SHADOWED;
            && CheckedNode(s, 0) == 8 && CheckedNode(s, 8) == 16 && TagAt(s, 16) == (END_NODE, 20) &&
              CheckedNode(s, 20) >= 0
            && NameAt(s, 0) == [] && MatchAt(s, 8, [120]) && NameAt(s, 20) == [120]
  {
    hide First, TagAt;
    ShadowedRoot();
    ShadowedFirst();
    ShadowedClose();
    ShadowedSecond();
  }

  lemma ShadowedRoot()
    ensures First(SHADOWED[0..]) == Lex(Begin([]), 5) && TagAt(SHADOWED, 0) == (BEGIN_NODE, 8)
  {
    hide First, TagAt;
    BeginAt(SHADOWED, 0, 4);
    assert SHADOWED[4..4] == [];
  }

  lemma ShadowedFirst()
    ensures First(SHADOWED[8..]) == Lex(Begin([120, 64, 49]), 8) && TagAt(SHADOWED, 8) == (BEGIN_NODE, 16)
  {
    hide First, TagAt;
    FirstName();
    BeginAt(SHADOWED, 8, 15);
  }

  lemma FirstName()
    ensures SHADOWED[12..15] == [120, 64, 49] && forall k | 12 <= k < 15 :: SHADOWED[k] != 0
  {
    assert SHADOWED[12] == 120 && SHADOWED[13] == 64 && SHADOWED[14] == 49;
    assert SHADOWED[12..15] == [SHADOWED[12], SHADOWED[13], SHADOWED[14]];
  }

  lemma ShadowedClose()
    ensures TagAt(SHADOWED, 16) == (END_NODE, 20)
  {
    FinishAt(SHADOWED, 16);
  }

  lemma ShadowedSecond()
    ensures First(SHADOWED[20..]) == Lex(Begin([120]), 6) && TagAt(SHADOWED, 20) == (BEGIN_NODE, 28)
  {
    hide First;
    var s := SHADOWED;
    assert s[24] == 120;
    BeginAt(s, 20, 25);
    assert s[24..25] == [120];
  }

  /** The path of the node x is /x, and that leads to x@1. */
  lemma UnitAddressShadows()
    ensures Line(SHADOWED, [0, 20]) && PathText(Names(SHADOWED, [0, 20])) == [SLASH] + [120]
    ensures Resolve(SHADOWED, 0, [SLASH] + [120], 0) == 8 && !LeadsBack(SHADOWED, [0, 20])
  {
    hide CheckedNode, TagAt, NameAt, MatchAt, Line, PathText, Resolve, LeadsBack;
    ShadowedTags();
    Shadowed(SHADOWED, 8, 16, 20, [120]);
  }

  lemma TwoNames(name: Bytes)
    ensures PathText([[], name]) == [SLASH] + name
  {
    var root: seq<Bytes> := [[]];
    assert [[], name][..1] == root;
    assert root[..0] == [] && Text(root) == [] + [] + [SLASH];
    assert Text([[], name]) == [SLASH] + name + [SLASH];
  }

  lemma OneComponent(s: Bytes, path: Bytes, name: Bytes)
    requires path == [SLASH] + name && name != [] && SLASH !in name
    ensures Resolve(s, 0, path, 0) == SubNode(s, 0, name)
  {
    hide SubNode, SlashesEnd, NameEnd;
    assert path[1..1 + |name|] == name;
    ComponentAt(path, 0, name);
    var sub := SubNode(s, 0, name);
    if sub >= 0 {
      assert Resolve(s, sub, path, |path|) == sub;
    }
  }

  lemma FoundFirst(s: Bytes, a: nat, given: Bytes)
    requires NodeAt(s, 0) && CheckedNode(s, 0) == a && TagAt(s, a).0 == BEGIN_NODE && MatchAt(s, a, given)
    ensures SubNode(s, 0, given) == a
  {
  }

  /** A first child without a name. */
  lemma Lost(s: Bytes, c: nat)
    requires NodeAt(s, 0) && NodeAt(s, c) && CheckedNode(s, 0) == c && 0 < c <= |s| &&
      NameAt(s, 0) == NameAt(s, c) == []
    ensures Line(s, [0, c]) && PathText(Names(s, [0, c])) == [SLASH]
    ensures Resolve(s, 0, [SLASH], 0) == 0 && !LeadsBack(s, [0, c])
  {
    hide NameAt, NodeAt, Resolve, LeadsBack, Line, PathText;
    FirstChild(s, c);
    NamesOfTwo(s, c);
    TwoNames([]);
    OnlySlash(s, [SLASH]);
    PathLeadsBack(s, [0, c]);
  }

  lemma NamelessTags()
    ensures CheckedNode(NAMELESS, 0) == 8 && CheckedNode(NAMELESS, 8) >= 0 &&
      NameAt(NAMELESS, 0) == NameAt(NAMELESS, 8) == []
  {
    hide First, TagAt;
    NamelessRoot();
    NamelessFirst();
  }

  lemma NamelessRoot()
    ensures First(NAMELESS[0..]) == Lex(Begin([]), 5) && TagAt(NAMELESS, 0) == (BEGIN_NODE, 8)
  {
    hide First, TagAt;
    BeginAt(NAMELESS, 0, 4);
    assert NAMELESS[4..4] == [];
  }

  lemma NamelessFirst()
    ensures First(NAMELESS[8..]) == Lex(Begin([]), 5) && TagAt(NAMELESS, 8) == (BEGIN_NODE, 16)
  {
    hide First, TagAt;
    BeginAt(NAMELESS, 8, 12);
    assert NAMELESS[12..12] == [];
  }

  /** The path of the nameless node is that of the root. */
  lemma NamelessIsLost()
    ensures Line(NAMELESS, [0, 8]) && PathText(Names(NAMELESS, [0, 8])) == [SLASH]
    ensures Resolve(NAMELESS, 0, [SLASH], 0) == 0 && !LeadsBack(NAMELESS, [0, 8])
  {
    hide CheckedNode, NameAt, Line, PathText, Resolve, LeadsBack;
    NamelessTags();
    Lost(NAMELESS, 8);
  }
}
