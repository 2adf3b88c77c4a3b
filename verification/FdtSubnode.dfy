/**
 Adding a child to a node of a finished blob, and where children and the ends of properties are
 among the events that a reader sees.
 */
module FdtSubnode {
  import opened Basics
  import opened FdtFormat
  import opened FdtBlob
  import opened FdtNodes
  import opened FdtCheck
  import opened FdtSplice
  import opened FdtTree
  import opened FdtProps
  import opened FdtEdit
  import opened FdtKeep
  import opened FdtEditOps
  import opened FdtSet
  import opened FdtMerge

  // ---- children among the events

  lemma {:induction false} SubBehind(a: seq<Event>, b: seq<Event>, i: nat, d: nat, given: Bytes)
    ensures SubIn(a + b, |a| + i, d, given) ==
            (var j := SubIn(b, i, d, given); if j.None? then None else Some(|a| + j.value))
    decreases |b| - i
  {
    hide Matches;
    if i < |b| {
      assert (a + b)[|a| + i] == b[i];
      match b[i]
      case Open(_) => SubBehind(a, b, i + 1, d + 1, given);
      case Close => if d > 0 { SubBehind(a, b, i + 1, d - 1, given); }
      case Entry(_, _) => SubBehind(a, b, i + 1, d, given);
    }
  }

  /** What a single tag contributes to the search. */
  lemma TokenSub(s: Bytes, strings: Bytes, off: nat, given: Bytes)
    requires off <= |s| && TagAt(s, off).0 != END && MeaningOf(First(s[off..]).token, strings).Some?
    ensures var t := First(s[off..]).token; var one := MeaningOf(t, strings).value; var tag := TagAt(s, off).0;
            && (tag == NOP ==> one == [])
            && (tag == PROP ==> |one| == 1 && one[0].Entry?)
            && (tag == END_NODE ==> one == [Close])
            && (tag == BEGIN_NODE ==>
                  |one| == 1 && one[0].Open? && (MatchAt(s, off, given) <==> Matches(one[0].name, given)))
            && (tag == NOP || tag == PROP || tag == END_NODE || tag == BEGIN_NODE)
  {
    hide Matches;
  }

  lemma EndCode(s: Bytes, strings: Bytes, off: nat)
    requires off <= |s| && Events(s[off..], strings).Some? && TagAt(s, off).0 == END
    ensures TagAt(s, off).1 >= 0
  {
  }

  /** Where the search for a child ends up, in terms of the events. */
  lemma {:induction false} SubEvents(s: Bytes, strings: Bytes, off: nat, d: nat, given: Bytes)
    requires off % 4 == 0 && off <= |s| && Events(s[off..], strings).Some?
    ensures var p := SubFrom(s, off, d, given);
            p < 0 ==> p == -ERR_NOTFOUND && SubIn(Events(s[off..], strings).value, 0, d, given).None?
    ensures var p := SubFrom(s, off, d, given);
            p >= 0 ==>
              && off <= p <= |s| && p % 4 == 0 && Scan(s[off..p]).Some? && Events(s[p..], strings).Some?
              && TagAt(s, p).0 == BEGIN_NODE
              && Meaning(Scan(s[off..p]).value, strings).Some?
              && SubIn(Events(s[off..], strings).value, 0, d, given) ==
                Some(|Meaning(Scan(s[off..p]).value, strings).value|)
    decreases |s| - off
  {
    hide First, Scan, Meaning, Align4, MatchAt, MeaningOf, Walk, Events, Matches;
    var (tag, next) := TagAt(s, off);
    if tag == END {
      NoEvents(s, strings, off);
      EndCode(s, strings, off);
    } else {
      EventsFirst(s, strings, off);
      var t := First(s[off..]).token;
      var one, rest := MeaningOf(t, strings).value, Events(s[next..], strings).value;
      TokenSub(s, strings, off, given);
      if tag == BEGIN_NODE && d == 0 && MatchAt(s, off, given) {
        assert s[off..off] == [];
        ScanNone();
        MeaningNone(strings);
      } else if !(tag == END_NODE && d == 0) {
        var deeper := if tag == BEGIN_NODE then d + 1 else if tag == END_NODE then d - 1 else d;
        SubEvents(s, strings, next, deeper, given);
        SubBehind(one, rest, 0, deeper, given);
        var p := SubFrom(s, next, deeper, given);
        if p >= 0 {
          ScanCons(s, off, next, p);
          MeaningAppend([t], Scan(s[next..p]).value, strings);
          MeaningOne(t, strings);
        }
      }
    }
  }

  /** Where a child of a node is, in the bytes and in the events. */
  lemma SubPlace(s: Bytes, strings: Bytes, node: int, given: Bytes)
    requires Events(s, strings).Some? && CheckedNode(s, node) >= 0 && Boundary(s, node)
    ensures var n := Place(s, strings, node); var ev := Events(s, strings).value; var p := SubNode(s, node, given);
            && n < |ev| && ev[n].Open?
            && (p < 0 ==> p == -ERR_NOTFOUND && SubIn(ev, n + 1, 0, given).None?)
            && (p >= 0 ==>
                  && CheckedNode(s, node) <= p && Boundary(s, p) && CheckedNode(s, p) >= 0
                  && SubIn(ev, n + 1, 0, given) == Some(Place(s, strings, p)))
  {
    hide First, Scan, Meaning, Walk, Events, CheckedNode, TagAt, SubFrom, SubIn;
    NodeFirst(s, strings, node);
    var next := CheckedNode(s, node);
    SubEvents(s, strings, next, 0, given);
    EventsAt(s, strings, next);
    var x := Meaning(Scan(s[..next]).value, strings).value;
    SubBehind(x, Events(s[next..], strings).value, 0, 0, given);
    var p := SubNode(s, node, given);
    if p >= 0 {
      BoundaryBetween(s, next, p);
      MeaningAppend(Scan(s[..next]).value, Scan(s[next..p]).value, strings);
      Checked(s, p);
    }
  }

  lemma Checked(s: Bytes, p: int)
    requires p >= 0 && p % 4 == 0 && TagAt(s, p).0 == BEGIN_NODE
    ensures CheckedNode(s, p) >= 0
  {
    hide First, TagAt;
    TagStep(s, p);
  }

  // ---- the end of the properties

  /** The first tag from off on that is neither a property nor padding. */
  ghost function AfterProps(s: Bytes, off: int): int
    decreases |s| - off
  {
    var (tag, next) := TagAt(s, off);
    if tag == PROP || tag == NOP then AfterProps(s, next) else off
  }

  lemma {:induction false} EndBehind(a: seq<Event>, b: seq<Event>, i: nat)
    requires i <= |b|
    ensures EntriesEnd(a + b, |a| + i) == |a| + EntriesEnd(b, i)
    decreases |b| - i
  {
    if i < |b| {
      assert (a + b)[|a| + i] == b[i];
      if b[i].Entry? {
        EndBehind(a, b, i + 1);
      }
    }
  }

  lemma {:induction false} AfterEvents(s: Bytes, strings: Bytes, off: nat)
    requires off % 4 == 0 && off <= |s| && Events(s[off..], strings).Some?
    ensures var p := AfterProps(s, off);
            && off <= p <= |s| && p % 4 == 0 && Scan(s[off..p]).Some? && Level0(Scan(s[off..p]).value)
            && Meaning(Scan(s[off..p]).value, strings).Some?
            && EntriesEnd(Events(s[off..], strings).value, 0) == |Meaning(Scan(s[off..p]).value, strings).value|
    decreases |s| - off
  {
    hide First, Scan, Meaning, Align4, MatchAt, MeaningOf, Walk, Events, Matches, Level0;
    var (tag, next) := TagAt(s, off);
    assert s[off..off] == [];
    ScanNone();
    MeaningNone(strings);
    NoLevels();
    if tag == END {
      NoEvents(s, strings, off);
    } else {
      EventsFirst(s, strings, off);
      var t := First(s[off..]).token;
      var one, rest := MeaningOf(t, strings).value, Events(s[next..], strings).value;
      TokenSub(s, strings, off, []);
      if tag == PROP || tag == NOP {
        AfterEvents(s, strings, next);
        EndBehind(one, rest, 0);
        var p := AfterProps(s, next);
        ScanCons(s, off, next, p);
        MeaningAppend([t], Scan(s[next..p]).value, strings);
        MeaningOne(t, strings);
        LevelMore(s, off, Scan(s[next..p]).value);
      }
    }
  }

  lemma NoLevels()
    ensures Level0([])
  {
  }

  lemma LevelMore(s: Bytes, off: nat, ts: seq<Token>)
    requires off <= |s| && (TagAt(s, off).0 == PROP || TagAt(s, off).0 == NOP) && Level0(ts)
    ensures Level0([First(s[off..]).token] + ts)
  {
  }

  // ---- nodes in front of an edit

  /** A node whose name ends in front of all changes is still there, as the same event. */
  lemma StillThere(s: Bytes, strings: Bytes, node: nat, t: Bytes, more: Bytes)
    requires Events(s, strings).Some? && Events(t, more).Some? && Boundary(s, node) && CheckedNode(s, node) >= 0
    requires Extends(s, strings, CheckedNode(s, node), t, more)
    ensures Boundary(t, node) && CheckedNode(t, node) == CheckedNode(s, node)
    ensures Place(t, more, node) == Place(s, strings, node)
  {
    hide Scan, Meaning, Walk, Events, First;
    NodeFirst(s, strings, node);
    EventsAt(s, strings, node);
    EventsFirst(s, strings, node);
    var b := CheckedNode(s, node);
    assert t[..node] == t[..b][..node] && s[..node] == s[..b][..node];
    var m := more[|strings|..];
    assert more == strings + m;
    MeaningBefore(Scan(s[..node]).value, strings, m);
    SameFirst(s, node, t, b);
  }

  lemma SameFirst(s: Bytes, off: nat, t: Bytes, b: nat)
    requires off <= b <= |s| && b <= |t| && t[..b] == s[..b] && First(s[off..]).Lex? && off + First(s[off..]).size <= b
    ensures First(t[off..]) == First(s[off..])
  {
    hide First;
    var z := First(s[off..]).size;
    assert t[off..][..z] == t[..b][off..off + z] && s[off..][..z] == s[..b][off..off + z];
    FirstLocal(t[off..], s[off..]);
  }

  // ---- adding

  /** The bytes of a node that holds nothing. */
  function NodeBytes(name: Bytes): (w: Bytes)
    ensures |w| == 8 + Align4(|name| + 1)
  {
    Be32(BEGIN_NODE) + name + [0] + Padding(Align4(|name| + 1) - (|name| + 1)) + TagWord(END_NODE)
  }

  function Padding(n: nat): (w: Bytes)
    ensures |w| == n
  {
    seq(n, _ => 0)
  }

  lemma NodeTokens(name: Bytes)
    requires IsName(name)
    ensures Scan(NodeBytes(name)) == Some([Begin(name), Finish])
  {
    hide First, Scan, Align4, IsName, Be32;
    var pad := Padding(Align4(|name| + 1) - (|name| + 1));
    var a, b := Be32(BEGIN_NODE) + name + [0] + pad, TagWord(END_NODE);
    FirstBegin(name, pad);
    AlignShift(4, |name| + 1);
    ScanOne(a);
    FirstPlain(Finish, []);
    assert b + [] == b;
    FourAligned();
    ScanOne(b);
    ScanAppend(a, b);
    assert [Begin(name)] + [Finish] == [Begin(name), Finish];
  }

  lemma FourAligned()
    ensures Align4(4) == 4
  {
  }

  /** The block with an empty node put in. */
  lemma NodeAdded(s: Bytes, strings: Bytes, node: int, name: Bytes, t: Bytes)
    requires Events(s, strings).Some? && CheckedNode(s, node) >= 0 && Boundary(s, node) && IsName(name)
    requires var p := AfterProps(s, CheckedNode(s, node)); 0 <= p <= |s| && t == s[..p] + NodeBytes(name) + s[p..]
    ensures var p := AfterProps(s, CheckedNode(s, node)); var n := Place(s, strings, node);
            var ev := Events(s, strings).value;
            && n < |ev| && var m := EntriesEnd(ev, n + 1);
            && Events(t, strings) == Some(AddNode(ev, m, name))
            && Boundary(t, p) && CheckedNode(t, p) >= 0 && Place(t, strings, p) == m && CheckedNode(s, node) <= p
            && Extends(s, strings, CheckedNode(s, node), t, strings) && Extends(s, strings, p, t, strings)
  {
    hide First, Scan, Meaning, Walk, Events, CheckedNode, TagAt, AfterProps, Level0, NodeBytes, EntriesEnd;
    var b, w := CheckedNode(s, node), NodeBytes(name);
    var p := AfterProps(s, b);
    NodeFirst(s, strings, node);
    AfterPlace(s, strings, node);
    NodeTokens(name);
    NodeMeaning(name, strings);
    assert s[p..p] == [];
    ScanNone();
    MeaningNone(strings);
    assert strings + [] == strings;
    PieceReplaced(s, strings, p, p, w, []);
    var x, y := Meaning(Scan(s[..p]).value, strings).value, Events(s[p..], strings).value;
    assert x + [] == x;
    Halves(x, y);
    assert t[..p] == s[..p];
    assert t[..b] == t[..p][..b] && s[..b] == s[..p][..b];
    NewNode(s, p, w, t, name);
  }

  lemma NodeMeaning(name: Bytes, strings: Bytes)
    ensures Meaning([Begin(name), Finish], strings) == Some([Open(name), Close])
  {
    MeaningAppend([Begin(name)], [Finish], strings);
    MeaningOne(Begin(name), strings);
    MeaningOne(Finish, strings);
    assert [Begin(name)] + [Finish] == [Begin(name), Finish];
    assert [Open(name)] + [Close] == [Open(name), Close];
  }

  /** The place behind a node's properties. */
  lemma AfterPlace(s: Bytes, strings: Bytes, node: int)
    requires Events(s, strings).Some? && CheckedNode(s, node) >= 0 && Boundary(s, node)
    ensures var p := AfterProps(s, CheckedNode(s, node)); var n := Place(s, strings, node);
            var ev := Events(s, strings).value;
            && n < |ev| && CheckedNode(s, node) <= p <= |s| && p % 4 == 0 && Boundary(s, p)
            && Place(s, strings, p) == EntriesEnd(ev, n + 1)
            && Scan(s[CheckedNode(s, node)..p]).Some? && Level0(Scan(s[CheckedNode(s, node)..p]).value)
  {
    hide First, Scan, Meaning, Walk, Events, CheckedNode, TagAt, AfterProps, Level0, EntriesEnd;
    NodeFirst(s, strings, node);
    var b := CheckedNode(s, node);
    var p := AfterProps(s, b);
    AfterEvents(s, strings, b);
    EventsAt(s, strings, b);
    var x := Meaning(Scan(s[..b]).value, strings).value;
    EndBehind(x, Events(s[b..], strings).value, 0);
    BoundaryBetween(s, b, p);
    MeaningAppend(Scan(s[..b]).value, Scan(s[b..p]).value, strings);
  }

  lemma NewNode(s: Bytes, p: nat, w: Bytes, t: Bytes, name: Bytes)
    requires p <= |s| && p % 4 == 0 && Boundary(s, p) && t == s[..p] + w + s[p..]
    requires w == NodeBytes(name) && IsName(name)
    ensures Boundary(t, p) && CheckedNode(t, p) >= 0
  {
    hide Scan, Align4, Be32;
    assert t[..p] == s[..p];
    var pad := Padding(Align4(|name| + 1) - (|name| + 1)) + TagWord(END_NODE) + s[p..];
    assert t[p..] == Be32(BEGIN_NODE) + name + [0] + pad;
    FirstBegin(name, pad);
  }

  /** An accepted block is still accepted. */
  lemma SoundAdded(s: Bytes, strings: Bytes, node: int, name: Bytes, t: Bytes)
    requires Sound(s, strings) && CheckedNode(s, node) >= 0 && Boundary(s, node) && IsName(name)
    requires var p := AfterProps(s, CheckedNode(s, node)); 0 <= p <= |s| && t == s[..p] + NodeBytes(name) + s[p..]
    ensures Sound(t, strings)
  {
    hide Scan, Walk, Meaning, Events, Sound, Nested, After, Level0, IsNode, NodeBytes, AfterProps, CheckedNode, NoEnd;
    HasTokens(s, strings);
    NodeAdded(s, strings, node, name, t);
    SoundNested(s, strings);
    SoundNested(t, strings);
    AfterPlace(s, strings, node);
    BehindBegin(s, strings, node);
    NodeTokens(name);
    var b := CheckedNode(s, node);
    var p := AfterProps(s, b);
    BoundaryBetween(s, b, p);
    assert s[p..p] == [];
    ScanNone();
    TokensReplaced(s, p, p, NodeBytes(name));
    assert Scan(s[..p]).value + [] == Scan(s[..p]).value;
    NestedWith(Scan(s[..b]).value, Scan(s[b..p]).value, name, Walk(s[p..]).value);
  }

  /** To the checker a node among the children of another one makes no difference. */
  lemma NestedWith(x: seq<Token>, m: seq<Token>, name: Bytes, y: seq<Token>)
    requires x != [] && x[|x| - 1].Begin? && Level0(m) && Nested(x + m + y, 0, false)
    ensures Nested(x + m + [Begin(name), Finish] + y, 0, false)
  {
    hide Nested, After, Level0, IsNode, NoEnd;
    var w := [Begin(name), Finish];
    assert x + m + y == x + (m + y) && x + m + w + y == x + (m + (w + y));
    NestedAfter(x, m + y, 0, false);
    NestedAfter(x, m + (w + y), 0, false);
    var (d, done) := After(x, 0, false).value;
    assert x == x[..|x| - 1] + [x[|x| - 1]];
    AfterBegin(x[..|x| - 1], x[|x| - 1], 0, false);
    if d == 0 {
      RootOpened(x, 0);
      assert false;
    }
    NestedPlain(m, y, d);
    NestedPlain(m, w + y, d);
    EmptyNode(name);
    NestedNode(w, y, d);
  }

  lemma EmptyNode(name: Bytes)
    ensures IsNode([Begin(name), Finish]) && NoEnd([Begin(name), Finish])
  {
    ClosesNow(Finish);
    assert [Begin(name), Finish][1..] == [Finish];
  }

  /** The children of a node in front of which a new one goes. */
  method SkipProps(fdt: Blob, start: nat) returns (offset: nat)
    requires fdt.StructIn() && start <= fdt.sizeStruct && start % 4 == 0
    ensures offset == AfterProps(fdt.Struct(), start)
  {
    hide First, TagAt;
    ghost var s := fdt.Struct();
    offset := start;
    var tag, next := fdt.SafeTag(offset);
    while tag == PROP || tag == NOP
      invariant 0 <= offset && AfterProps(s, start) == AfterProps(s, offset) && (tag, next) == TagAt(s, offset)
      decreases |s| - offset
    {
      TagStep(s, offset);
      offset := next;
      tag, next := fdt.SafeTag(offset);
    }
  }

  /** Adds a child to a node, unless it has one that fits the name. */
  method AddSubnode(fdt: Blob, parent: nat, name: Bytes) returns (r: int)
    requires Readable(fdt) && Boundary(fdt.Struct(), parent) && CheckedNode(fdt.Struct(), parent) >= 0 && IsName(name)
    modifies fdt`sizeStruct, fdt`offStrings, fdt.buf
    ensures Readable(fdt) && SameFront(fdt) && fdt.Strings() == old(fdt.Strings())
    ensures r < 0 ==> Untouched(fdt)
    ensures r < 0 <==> old(SubNode(fdt.Struct(), parent, name) >= 0 || !RoomForNode(fdt, name))
    ensures r < 0 ==> r == if old(SubNode(fdt.Struct(), parent, name)) >= 0 then -ERR_EXISTS else -ERR_NOSPACE
    ensures r >= 0 ==> Boundary(fdt.Struct(), r) && CheckedNode(fdt.Struct(), r) >= 0
    ensures r >= 0 ==>
      var n, ev := old(Place(fdt.Struct(), fdt.Strings(), parent)), old(Seen(fdt));
      && n < |ev| && Seen(fdt) == AddNode(ev, EntriesEnd(ev, n + 1), name)
      && Place(fdt.Struct(), fdt.Strings(), r) == EntriesEnd(ev, n + 1)
    ensures Extends(old(fdt.Struct()), old(fdt.Strings()), old(CheckedNode(fdt.Struct(), parent)), fdt.Struct(),
                    fdt.Strings())
    ensures r >= 0 ==> Extends(old(fdt.Struct()), old(fdt.Strings()), r, fdt.Struct(), fdt.Strings())
    ensures r >= 0 ==> old(CheckedNode(fdt.Struct(), parent)) <= r
    ensures old(Sound(fdt.Struct(), fdt.Strings())) ==> Sound(fdt.Struct(), fdt.Strings())
  {
    hide First, Scan, Walk, Meaning, Events, TagAt, CheckedNode, Boundary, Place, Sound, NodeBytes, AfterProps,
      EntriesEnd, SubNode, Over, Replaced, Extends, Level0, Blob.Struct, Blob.Strings;
    ghost var s, strings := fdt.Struct(), fdt.Strings();
    SubPlace(s, strings, parent, name);
    ExtendsSelf(s, strings, parent);
    var offset := SubnodeOffset(fdt, parent, name);
    if offset >= 0 {
      return -ERR_EXISTS;
    }
    AfterPlace(s, strings, parent);
    NodeFirst(s, strings, parent);
    var tag, next := fdt.SafeTag(parent);
    NextIs(s, parent);
    offset := SkipProps(fdt, next);
    var w := NodeBytes(name);
    var err := SpliceStruct(fdt, offset, 0, |w|);
    if err != 0 {
      return err;
    }
    ghost var g := fdt.Struct();
    ReplacedSize(s, offset, 0, |w|, g);
    WriteStruct(fdt, offset, w);
    PutIn(s, offset, g, w);
    NodeAdded(s, strings, parent, name, fdt.Struct());
    if Sound(s, strings) {
      SoundAdded(s, strings, parent, name, fdt.Struct());
    }
    return offset;
  }

  const ERR_EXISTS: int := 2

  ghost predicate RoomForNode(fdt: Blob, name: Bytes)
    reads fdt
  {
    DataSize(fdt) + 8 + Align4(|name| + 1) <= fdt.totalSize
  }

  lemma NextIs(s: Bytes, node: int)
    requires CheckedNode(s, node) >= 0
    ensures TagAt(s, node).1 == CheckedNode(s, node)
  {
  }

  lemma PutIn(s: Bytes, off: nat, g: Bytes, w: Bytes)
    requires Replaced(s, off, 0, |w|, g)
    ensures off <= |s| && Over(g, off, w) == s[..off] + w + s[off..]
  {
    hide Over;
    OverOutside(g, off, w, 0, off);
    OverOutside(g, off, w, off + |w|, |g|);
    OverPart(g, off, w, 0, |w|);
    var f := Over(g, off, w);
    assert f == f[0..off] + f[off..off + |w|] + f[off + |w|..|g|];
    assert w[0..|w|] == w && g[0..off] == g[..off] && g[off + |w|..|g|] == g[off + |w|..];
  }
}
