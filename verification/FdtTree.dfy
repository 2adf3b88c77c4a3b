/**
 Which nodes of a structure block lie in which, and the search for a child by name.
 */
module FdtTree {
  import opened Basics
  import opened FdtFormat
  import opened FdtBlob
  import opened FdtNodes

  // ---- descendants

  lemma RiseWithin(a: seq<Token>, b: seq<Token>, k: nat)
    requires k <= |a| + |b|
    ensures Rise((a + b)[..k]) == if k <= |a| then Rise(a[..k]) else Rise(a) + Rise(b[..k - |a|])
  {
    if k <= |a| {
      assert (a + b)[..k] == a[..k];
    } else {
      assert (a + b)[..k] == a + b[..k - |a|];
      RiseAppend(a, b[..k - |a|]);
    }
  }

  lemma StaysOpenAppend(a: seq<Token>, b: seq<Token>, d: int)
    ensures StaysOpen(a + b, d) <==> StaysOpen(a, d) && StaysOpen(b, d + Rise(a))
  {
    hide Rise;
    assert a[..|a|] == a && b[..0] == [];
    NoRise();
    if StaysOpen(a, d) && StaysOpen(b, d + Rise(a)) {
      forall k | 0 <= k <= |a + b| ensures d + Rise((a + b)[..k]) >= 0 {
        RiseWithin(a, b, k);
      }
    }
    if StaysOpen(a + b, d) {
      forall k | 0 <= k <= |a| ensures d + Rise(a[..k]) >= 0 {
        RiseWithin(a, b, k);
      }
      forall k | 0 <= k <= |b| ensures d + Rise(a) + Rise(b[..k]) >= 0 {
        RiseWithin(a, b, |a| + k);
      }
    }
  }

  lemma NoRise()
    ensures Rise([]) == 0
  {
  }

  ghost predicate NodeAt(s: Bytes, off: int) {
    CheckedNode(s, off) >= 0
  }

  /** The name of the node at an offset. */
  ghost function NameAt(s: Bytes, off: int): Bytes
    requires NodeAt(s, off)
  {
    First(s[off..]).token.name
  }

  /** The place o lies within the node at a, inside r nodes further in. */
  ghost predicate Deep(s: Bytes, a: int, o: int, r: int) {
    && NodeAt(s, a) && CheckedNode(s, a) <= o <= |s|
    && Scan(s[CheckedNode(s, a)..o]).Some?
    && StaysOpen(Scan(s[CheckedNode(s, a)..o]).value, 0)
    && Rise(Scan(s[CheckedNode(s, a)..o]).value) == r
  }

  ghost predicate Child(s: Bytes, p: int, c: int) {
    Deep(s, p, c, 0) && NodeAt(s, c)
  }

  /** From a place within a node on over a piece that does not leave it. */
  lemma DeepOn(s: Bytes, a: int, o: int, r: int, e: int)
    requires Deep(s, a, o, r) && o <= e <= |s| && Scan(s[o..e]).Some?
    ensures StaysOpen(Scan(s[o..e]).value, r) <==> Deep(s, a, e, r + Rise(Scan(s[o..e]).value))
  {
    hide First, Scan, StaysOpen, CheckedNode, Rise;
    var b := CheckedNode(s, a);
    assert s[b..e] == s[b..o] + s[o..e];
    ScanAppend(s[b..o], s[o..e]);
    StaysOpenAppend(Scan(s[b..o]).value, Scan(s[o..e]).value, 0);
    RiseAppend(Scan(s[b..o]).value, Scan(s[o..e]).value);
  }

  /** The tokens of a node's tag. */
  lemma NodeTag(s: Bytes, off: int)
    requires NodeAt(s, off) && CheckedNode(s, off) <= |s|
    ensures off >= 0 && off % 4 == 0 && off < CheckedNode(s, off) && CheckedNode(s, off) % 4 == 0
    ensures Scan(s[off..CheckedNode(s, off)]) == Some([Begin(NameAt(s, off))])
  {
    hide First, TagAt;
    CheckedFacts(s, off);
    TagIsBegin(s, off);
    var next := CheckedNode(s, off);
    assert s[next..next] == [];
    ScanNone();
    ScanCons(s, off, next, next);
    assert [First(s[off..]).token] + [] == [First(s[off..]).token];
  }

  /** Within a node within a node. */
  lemma DeepDown(s: Bytes, a: int, b: int, r: int, c: int, q: int)
    requires Deep(s, a, b, r) && r >= 0 && Deep(s, b, c, q)
    ensures Deep(s, a, c, r + 1 + q)
  {
    hide First, Scan, StaysOpen, CheckedNode, Rise, NameAt;
    NodeTag(s, b);
    var e := CheckedNode(s, b);
    var t := Begin(NameAt(s, b));
    assert s[b..c] == s[b..e] + s[e..c];
    ScanAppend(s[b..e], s[e..c]);
    var rest := Scan(s[e..c]).value;
    StaysOpenFront(t, rest, r);
    OpenFurther(rest, 0, r + 1);
    RiseFront(t, rest);
    DeepOn(s, a, b, r, c);
  }

  lemma OpenFurther(ts: seq<Token>, d: int, e: int)
    requires StaysOpen(ts, d) && d <= e
    ensures StaysOpen(ts, e)
  {
  }

  // ---- the search for a child

  /** A node's name fits a name given: it is that name, or that name and a unit address. */
  predicate Matches(name: Bytes, given: Bytes) {
    && |given| <= |name| && name[..|given|] == given
    && (|given| == |name| || (name[|given|] == 64 && 64 !in given))
  }

  lemma MatchesExactly(name: Bytes, given: Bytes)
    ensures Matches(name, given) <==>
            name == given || (64 !in given && exists unit: Bytes :: name == given + [64] + unit)
  {
    if Matches(name, given) && name != given {
      assert name == given + [64] + name[|given| + 1..];
    }
    if 64 !in given && exists unit: Bytes :: name == given + [64] + unit {
      var unit: Bytes :| name == given + [64] + unit;
      assert name[..|given|] == given;
    }
  }

  ghost predicate MatchAt(s: Bytes, off: int, given: Bytes) {
    && 0 <= off <= |s| && First(s[off..]).Lex? && First(s[off..]).token.Begin?
    && Matches(First(s[off..]).token.name, given)
  }

  /** The first child from off on that fits; d nodes are open there within the parent. */
  ghost function SubFrom(s: Bytes, off: int, d: nat, given: Bytes): int
    decreases |s| - off
  {
    var (tag, next) := TagAt(s, off);
    if tag == BEGIN_NODE then (if d == 0 && MatchAt(s, off, given) then off else SubFrom(s, next, d + 1, given))
    else if tag == END_NODE then (if d == 0 then -ERR_NOTFOUND else SubFrom(s, next, d - 1, given))
    else if tag == END then (if next >= 0 then -ERR_NOTFOUND else next)
    else SubFrom(s, next, d, given)
  }

  ghost function SubNode(s: Bytes, parent: int, given: Bytes): int {
    if CheckedNode(s, parent) < 0 then CheckedNode(s, parent) else SubFrom(s, CheckedNode(s, parent), 0, given)
  }

  /** No token of a run opens a child that fits. */
  ghost predicate NoMatch(ts: seq<Token>, d: int, given: Bytes) {
    forall k | 0 <= k < |ts| :: ts[k].Begin? && d + Rise(ts[..k]) == 0 ==> !Matches(ts[k].name, given)
  }

  lemma NoMatchFront(t: Token, ts: seq<Token>, d: int, given: Bytes)
    ensures NoMatch([t] + ts, d, given) <==>
      (t.Begin? && d == 0 ==> !Matches(t.name, given)) && NoMatch(ts, d + Level(t), given)
  {
    hide Matches;
    var all := [t] + ts;
    forall k | 0 <= k < |ts| ensures all[k + 1] == ts[k] && Rise(all[..k + 1]) == Level(t) + Rise(ts[..k]) {
      assert all[..k + 1] == [t] + ts[..k];
      RiseFront(t, ts[..k]);
    }
    assert all[..0] == [] && Rise(all[..0]) == 0 && all[0] == t;
    if NoMatch(all, d, given) {
      forall k | 0 <= k < |ts| && ts[k].Begin? && d + Level(t) + Rise(ts[..k]) == 0
        ensures !Matches(ts[k].name, given)
      {
        assert all[k + 1].Begin? && d + Rise(all[..k + 1]) == 0;
      }
    }
    if (t.Begin? && d == 0 ==> !Matches(t.name, given)) && NoMatch(ts, d + Level(t), given) {
      forall k | 0 <= k < |all| && all[k].Begin? && d + Rise(all[..k]) == 0 ensures !Matches(all[k].name, given) {
        if k > 0 {
          var j := k - 1;
          assert all[j + 1] == ts[j];
        }
      }
    }
  }

  /** The search stops at a child that fits unless an earlier one does. */
  lemma {:induction false} SubReaches(s: Bytes, off: nat, d: nat, c: nat, given: Bytes)
    requires off % 4 == 0 && off <= c <= |s| && Scan(s[off..c]).Some? && TagAt(s, c).0 == BEGIN_NODE
    requires StaysOpen(Scan(s[off..c]).value, d) && d + Rise(Scan(s[off..c]).value) == 0
    ensures NoMatch(Scan(s[off..c]).value, d, given) && MatchAt(s, c, given) ==> SubFrom(s, off, d, given) == c
    ensures !NoMatch(Scan(s[off..c]).value, d, given) ==> off <= SubFrom(s, off, d, given) < c
    decreases c - off
  {
    hide First, Scan, StaysOpen, NoMatch, Matches, MatchAt, Align4, Rise;
    var ts := Scan(s[off..c]).value;
    if off == c {
      assert s[off..c] == [];
      ScanNone();
      NoMatchNone(d, given);
    } else {
      ScanFirst(s, off, c);
      TagKnown(s, off);
      var t := First(s[off..]).token;
      var next := TagAt(s, off).1;
      var rest := Scan(s[next..c]).value;
      StaysOpenFront(t, rest, d);
      OpenNow(rest, d + Level(t));
      NoMatchFront(t, rest, d, given);
      RiseFront(t, rest);
      MatchIs(s, off, given);
      SubReaches(s, next, d + Level(t), c, given);
    }
  }

  lemma NoMatchNone(d: int, given: Bytes)
    ensures NoMatch([], d, given) && Rise([]) == 0
  {
  }

  lemma OpenNow(ts: seq<Token>, d: int)
    requires StaysOpen(ts, d)
    ensures d >= 0
  {
    assert ts[..0] == [];
  }

  lemma TagKnown(s: Bytes, off: int)
    requires 0 <= off <= |s| && TagAt(s, off).0 != END
    ensures var t := First(s[off..]).token; var tag := TagAt(s, off).0;
            && First(s[off..]).Lex? && off < TagAt(s, off).1 && off < |s|
            && (tag == BEGIN_NODE <==> t.Begin?) && (tag == END_NODE <==> t.Finish?) && !t.End?
  {
  }

  lemma MatchIs(s: Bytes, off: nat, given: Bytes)
    requires off <= |s| && First(s[off..]).Lex?
    ensures var t := First(s[off..]).token; MatchAt(s, off, given) <==> t.Begin? && Matches(t.name, given)
  {
  }

  /** What the search finds is a child. */
  lemma {:induction false} SubIsInside(s: Bytes, off: nat, d: nat, given: Bytes)
    requires off % 4 == 0
    ensures var r := SubFrom(s, off, d, given);
            r >= 0 ==>
              && off <= r <= |s| && r % 4 == 0 && TagAt(s, r).0 == BEGIN_NODE && Scan(s[off..r]).Some?
              && StaysOpen(Scan(s[off..r]).value, d) && d + Rise(Scan(s[off..r]).value) == 0
    decreases |s| - off
  {
    hide First, Scan, StaysOpen, Matches, MatchAt, Align4, Rise;
    var r := SubFrom(s, off, d, given);
    var (tag, next) := TagAt(s, off);
    if r >= 0 && tag != END {
      TagFacts(s, off);
      var t := First(s[off..]).token;
      if tag == BEGIN_NODE && d == 0 && MatchAt(s, off, given) {
        assert s[off..r] == [];
        ScanNone();
        StaysOpenNone(d);
        NoMatchNone(0, given);
      } else {
        SubIsInside(s, next, d + Level(t), given);
        ScanCons(s, off, next, r);
        StaysOpenFront(t, Scan(s[next..r]).value, d);
        RiseFront(t, Scan(s[next..r]).value);
      }
    }
  }

  // ---- the method

  lemma {:induction false} NodesAreSubs(s: Bytes, off: int, d: nat, given: Bytes)
    ensures var (o, d') := NodeFrom(s, off, d);
            SubFrom(s, off, d, given) ==
              (if o < 0 then o
               else if d' < 0 then -ERR_NOTFOUND
               else if d' == 1 && MatchAt(s, o, given) then o
               else SubFrom(s, TagAt(s, o).1, d', given))
    decreases |s| - off
  {
    hide First, TagAt, MatchAt;
    TagStep(s, off);
    var (tag, next) := TagAt(s, off);
    if tag == END_NODE && d > 0 {
      NodesAreSubs(s, next, d - 1, given);
    } else if tag != END && tag != BEGIN_NODE && tag != END_NODE {
      NodesAreSubs(s, next, d, given);
    }
  }

  /** What is left of the search when the walk stands at a node. */
  ghost function SubLeft(s: Bytes, off: nat, d: nat, given: Bytes): int {
    if CheckedNode(s, off) < 0 then CheckedNode(s, off) else SubFrom(s, CheckedNode(s, off), d, given)
  }

  lemma SubStep(s: Bytes, off: nat, d: nat, given: Bytes)
    ensures var (o, d') := NextFrom(s, off, d);
            && SubLeft(s, off, d, given) ==
                 (if o < 0 then o
                  else if d' < 0 then -ERR_NOTFOUND
                  else if d' == 1 && MatchAt(s, o, given) then o
                  else SubLeft(s, o, d', given))
            && (o >= 0 && d' >= 0 ==> off < o && off < |s| && NodeAt(s, o))
  {
    hide First, TagAt, SubFrom, CheckedNode, MatchAt;
    CheckedFacts(s, off);
    if CheckedNode(s, off) >= 0 {
      NodesAreSubs(s, CheckedNode(s, off), d, given);
      NodesAreTags(s, CheckedNode(s, off), d);
      CheckedFacts(s, NextFrom(s, off, d).0);
    }
  }

  /** The length of a node's name. */
  method GetName(fdt: Blob, offset: int) returns (len: int)
    requires fdt.StructIn()
    ensures !NodeAt(fdt.Struct(), offset) ==> len == -ERR_BADOFFSET
    ensures NodeAt(fdt.Struct(), offset) ==>
      && offset >= 0 && len >= 0 && offset + 4 + len < fdt.sizeStruct && fdt.Struct()[offset + 4 + len] == 0
      && NameAt(fdt.Struct(), offset) == fdt.Struct()[offset + 4..offset + 4 + len]
  {
    hide U32;
    ghost var s := fdt.Struct();
    var next := CheckNodeOffset(fdt, offset);
    if next < 0 {
      return next;
    }
    FirstAt(s, offset);
    var end, found := fdt.SkipName(offset + 4);
    return end - 1 - (offset + 4);
  }

  /** Compares a node's name. */
  method NodeNameEq(fdt: Blob, offset: int, given: Bytes) returns (eq: bool)
    requires fdt.StructIn()
    ensures eq == (NodeAt(fdt.Struct(), offset) && Matches(NameAt(fdt.Struct(), offset), given))
  {
    hide First, TagAt;
    var olen := GetName(fdt, offset);
    if olen < |given| {
      return false;
    }
    ghost var s := fdt.Struct();
    ghost var name := NameAt(s, offset);
    var at := fdt.offStruct + offset + 4;
    Inner(fdt.buf[..], fdt.offStruct, fdt.offStruct + fdt.sizeStruct, offset + 4, offset + 4 + |given|);
    Inner(s, offset + 4, offset + 4 + olen, 0, |given|);
    if fdt.buf[at..at + |given|] != given {
      return false;
    }
    assert |given| < olen ==> fdt.buf[at + |given|] == s[offset + 4 + |given|] == name[|given|];
    assert fdt.buf[at + olen] == s[offset + 4 + olen];
    NoZero(s, offset);
    if fdt.buf[at + |given|] == 0 {
      return true;
    }
    return 64 !in given && fdt.buf[at + |given|] == 64;
  }

  lemma NoZero(s: Bytes, offset: int)
    requires NodeAt(s, offset)
    ensures IsName(NameAt(s, offset))
  {
    hide U32;
    FirstAt(s, offset);
  }

  method SubnodeOffset(fdt: Blob, parent: nat, given: Bytes) returns (r: int)
    requires fdt.StructIn()
    ensures r == SubNode(fdt.Struct(), parent, given)
  {
    hide First, TagAt, SubFrom, CheckedNode, MatchAt, NextFrom, Matches, NameAt, NodeAt;
    ghost var s := fdt.Struct();
    var offset, depth := parent, 0;
    while offset >= 0 && depth >= 0
      invariant offset >= 0 && depth >= 0 && depth != 1 ==>
        SubLeft(s, offset, depth, given) == SubNode(s, parent, given)
      invariant offset >= 0 && depth == 1 ==> NodeAt(s, offset)
      invariant offset >= 0 && depth == 1 ==>
          SubNode(s, parent, given) == if MatchAt(s, offset, given) then offset else SubLeft(s, offset, depth, given)
      invariant depth < 0 && offset >= 0 ==> SubNode(s, parent, given) == -ERR_NOTFOUND
      invariant offset < 0 ==> SubNode(s, parent, given) == offset
      decreases offset >= 0 && depth >= 0, |s| - offset
    {
      if depth == 1 {
        var eq := NodeNameEq(fdt, offset, given);
        MatchNamed(s, offset, given);
        if eq {
          return offset;
        }
      }
      SubStep(s, offset, depth, given);
      offset, depth := NextNode(fdt, offset, depth);
    }
    if offset >= 0 {
      return -ERR_NOTFOUND;
    }
    return offset;
  }

  lemma MatchNamed(s: Bytes, off: nat, given: Bytes)
    requires NodeAt(s, off)
    ensures MatchAt(s, off, given) <==> Matches(NameAt(s, off), given)
  {
  }
}
