/**
 The node an absolute path leads to, and when a node's path leads back to it.
 */
module FdtLookup {
  import opened FdtFormat
  import opened FdtBlob
  import opened FdtNodes
  import opened FdtTree
  import opened FdtPath

  // ---- reading a path

  function SlashesEnd(path: Bytes, i: nat): (j: nat)
    requires i <= |path|
    ensures i <= j <= |path| && (forall k | i <= k < j :: path[k] == SLASH) && (j < |path| ==> path[j] != SLASH)
    decreases |path| - i
  {
    if i < |path| && path[i] == SLASH then SlashesEnd(path, i + 1) else i
  }

  function NameEnd(path: Bytes, i: nat): (j: nat)
    requires i <= |path|
    ensures i <= j <= |path| && (forall k | i <= k < j :: path[k] != SLASH) && (j < |path| ==> path[j] == SLASH)
    decreases |path| - i
  {
    if i < |path| && path[i] != SLASH then NameEnd(path, i + 1) else i
  }

  /** Going down from off along the rest of a path. */
  ghost function Resolve(s: Bytes, off: int, path: Bytes, i: nat): int
    requires i <= |path|
    decreases |path| - i
  {
    var p := SlashesEnd(path, i);
    if p == |path| then off
    else
      var q := NameEnd(path, p);
      var sub := SubNode(s, off, path[p..q]);
      if sub < 0 then sub else Resolve(s, sub, path, q)
  }

  method PathOffset(fdt: Blob, path: Bytes) returns (offset: int)
    requires fdt.StructIn() && |path| > 0 && path[0] == SLASH
    ensures offset == Resolve(fdt.Struct(), 0, path, 0)
  {
    hide SubNode;
    ghost var s := fdt.Struct();
    var p: nat := 0;
    offset := 0;
    while p < |path|
      invariant 0 <= p <= |path| && offset >= 0
      invariant Resolve(s, 0, path, 0) == Resolve(s, offset, path, p)
    {
      ghost var start := p;
      while path[p] == SLASH
        invariant start <= p < |path| && SlashesEnd(path, start) == SlashesEnd(path, p)
        decreases |path| - p
      {
        p := p + 1;
        if p == |path| {
          return;
        }
      }
      var q := p;
      while q < |path| && path[q] != SLASH
        invariant p <= q <= |path| && NameEnd(path, p) == NameEnd(path, q)
      {
        q := q + 1;
      }
      offset := SubnodeOffset(fdt, offset, path[p..q]);
      if offset < 0 {
        return;
      }
      p := q;
    }
  }

  // ---- paths of names

  /** The names that leave a trace in a path. */
  ghost function Nonempty(ns: seq<Bytes>): (r: seq<Bytes>)
    ensures |r| <= |ns| && (|r| == |ns| <==> forall i | 0 <= i < |ns| :: ns[i] != []) && (|r| == |ns| ==> r == ns)
  {
    if ns == [] then [] else (if ns[0] == [] then [] else [ns[0]]) + Nonempty(ns[1..])
  }

  /** Going down by names. */
  ghost function Descend(s: Bytes, off: int, ns: seq<Bytes>): int
    decreases |ns|
  {
    if ns == [] then off
    else
      var sub := SubNode(s, off, ns[0]);
      if sub < 0 then sub else Descend(s, sub, ns[1..])
  }

  /** A slash and each name. */
  ghost function Tail(ns: seq<Bytes>): Bytes {
    if ns == [] then [] else [SLASH] + ns[0] + Tail(ns[1..])
  }

  lemma {:induction false} TailSnoc(ns: seq<Bytes>, n: Bytes)
    ensures Tail(ns + [n]) == Tail(ns) + ([SLASH] + n)
    decreases |ns|
  {
    if ns == [] {
      assert ns + [n] == [n] && [n][1..] == [];
      assert Tail([n]) == [SLASH] + n + [];
      assert [SLASH] + n + [] == [SLASH] + n;
    } else {
      assert (ns + [n])[1..] == ns[1..] + [n];
      TailSnoc(ns[1..], n);
      assert [SLASH] + ns[0] + (Tail(ns[1..]) + ([SLASH] + n)) == [SLASH] + ns[0] + Tail(ns[1..]) + ([SLASH] + n);
    }
  }

  /** The text of a path below a nameless root. */
  lemma {:induction false} TextIsTail(ns: seq<Bytes>)
    ensures Text([[]] + ns) == Tail(ns) + [SLASH]
    decreases |ns|
  {
    var all := [[]] + ns;
    if ns == [] {
      assert all[..0] == [] && all[0] == [];
      assert Text(all) == [] + [] + [SLASH];
      assert [] + [SLASH] == [SLASH];
    } else {
      var front, n := ns[..|ns| - 1], ns[|ns| - 1];
      assert all[..|all| - 1] == [[]] + front;
      assert ns == front + [n];
      TextIsTail(front);
      TailSnoc(front, n);
      assert Tail(front) + [SLASH] + n == Tail(front) + ([SLASH] + n);
    }
  }

  /** Reading the text back gives the names that are not empty. */
  lemma {:induction false} ResolveTail(s: Bytes, off: int, path: Bytes, i: nat, ns: seq<Bytes>)
    requires i <= |path| && path[i..] == Tail(ns) && forall k | 0 <= k < |ns| :: SLASH !in ns[k]
    ensures Resolve(s, off, path, i) == Descend(s, off, Nonempty(ns))
    decreases |ns|
  {
    hide SubNode, SlashesEnd, NameEnd;
    if ns != [] {
      var n := ns[0];
      var q := i + 1 + |n|;
      TailParts(path, i, n, Tail(ns[1..]));
      if n == [] {
        EmptyAt(s, off, path, i);
        ResolveTail(s, off, path, q, ns[1..]);
        assert [] + Nonempty(ns[1..]) == Nonempty(ns[1..]);
      } else {
        ComponentAt(path, i, n);
        assert ([n] + Nonempty(ns[1..]))[1..] == Nonempty(ns[1..]);
        var sub := SubNode(s, off, n);
        if sub >= 0 {
          ResolveTail(s, sub, path, q, ns[1..]);
        }
      }
    } else {
      assert i == |path|;
    }
  }

  /** Every path that starts with a slash is such a text. */
  lemma {:induction false} PathSplits(path: Bytes) returns (ns: seq<Bytes>)
    requires path == [] || path[0] == SLASH
    ensures path == Tail(ns) && forall k | 0 <= k < |ns| :: SLASH !in ns[k]
    decreases |path|
  {
    if path == [] {
      return [];
    }
    var q := NameEnd(path, 1);
    var more := PathSplits(path[q..]);
    ns := [path[1..q]] + more;
    assert ns[1..] == more;
    assert path == [SLASH] + path[1..q] + path[q..];
  }

  /** An empty component is skipped. */
  lemma EmptyAt(s: Bytes, off: int, path: Bytes, i: nat)
    requires i < |path| && path[i] == SLASH
    ensures Resolve(s, off, path, i) == Resolve(s, off, path, i + 1)
  {
    assert SlashesEnd(path, i) == SlashesEnd(path, i + 1);
  }

  lemma TailParts(path: Bytes, i: nat, n: Bytes, rest: Bytes)
    requires i <= |path| && path[i..] == [SLASH] + n + rest && (rest == [] || rest[0] == SLASH)
    ensures var q := i + 1 + |n|;
            && q <= |path| && path[i] == SLASH && path[i + 1..q] == n && path[q..] == rest &&
              (q < |path| ==> path[q] == SLASH)
  {
    var q := i + 1 + |n|;
    assert path[i] == path[i..][0];
    assert path[i + 1..q] == path[i..][1..1 + |n|];
    assert path[q..] == path[i..][1 + |n|..];
    if q < |path| {
      assert path[q] == path[q..][0];
    }
  }

  lemma ComponentAt(path: Bytes, i: nat, n: Bytes)
    requires n != [] && SLASH !in n && i + 1 + |n| <= |path| && path[i] == SLASH && path[i + 1..i + 1 + |n|] == n
    requires i + 1 + |n| < |path| ==> path[i + 1 + |n|] == SLASH
    ensures SlashesEnd(path, i) == i + 1 < NameEnd(path, i + 1) == i + 1 + |n|
  {
    forall k | i + 1 <= k < i + 1 + |n| ensures path[k] != SLASH {
      assert path[k] == n[k - i - 1];
    }
  }

  // ---- when a path leads back

  /** No earlier sibling answers to the node's name. */
  ghost predicate Clear(s: Bytes, p: int, c: int)
    requires Child(s, p, c)
  {
    NoMatch(Scan(s[CheckedNode(s, p)..c]).value, 0, NameAt(s, c))
  }

  ghost predicate ClearAt(s: Bytes, offs: seq<int>, i: nat) {
    Linked(s, offs, i) && Clear(s, offs[i], offs[i + 1])
  }

  /** What a descent arrives at lies within where it started, as deep as there were names. */
  lemma {:induction false} DescendInside(s: Bytes, off: int, ns: seq<Bytes>)
    requires NodeAt(s, off)
    ensures var r := Descend(s, off, ns); r >= 0 ==> if ns == [] then r == off else Deep(s, off, r, |ns| - 1)
    decreases |ns|
  {
    hide Deep, SubNode;
    if ns != [] {
      var sub := SubNode(s, off, ns[0]);
      if sub >= 0 {
        SubIsChild(s, off, ns[0]);
        DescendInside(s, sub, ns[1..]);
        var r := Descend(s, sub, ns[1..]);
        if r >= 0 && |ns| > 1 {
          DeepDown(s, off, sub, 0, r, |ns| - 2);
        }
      }
    }
  }

  /** A child found is a child. */
  lemma SubIsChild(s: Bytes, off: int, given: Bytes)
    requires NodeAt(s, off) && SubNode(s, off, given) >= 0
    ensures Child(s, off, SubNode(s, off, given))
  {
    hide First, Scan, StaysOpen, TagAt, SubFrom, Rise;
    CheckedFacts(s, off);
    SubIsInside(s, CheckedNode(s, off), 0, given);
    CheckedFacts(s, SubNode(s, off, given));
  }

  /** Searching for a child's own name finds it, or an earlier child. */
  lemma OwnName(s: Bytes, p: int, c: int)
    requires Child(s, p, c)
    ensures var r := SubNode(s, p, NameAt(s, c)); if Clear(s, p, c) then r == c else 0 <= r < c && Child(s, p, r)
  {
    hide First, Scan, StaysOpen, TagAt, SubFrom, Rise, NoMatch, Matches, MatchAt, NameAt;
    CheckedFacts(s, p);
    CheckedFacts(s, c);
    TagOfNode(s, c);
    MatchNamed(s, c, NameAt(s, c));
    MatchesItself(NameAt(s, c));
    SubReaches(s, CheckedNode(s, p), 0, c, NameAt(s, c));
    if !Clear(s, p, c) {
      SubIsChild(s, p, NameAt(s, c));
    }
  }

  lemma TagOfNode(s: Bytes, c: int)
    requires NodeAt(s, c)
    ensures TagAt(s, c).0 == BEGIN_NODE
  {
  }

  lemma MatchesItself(name: Bytes)
    ensures Matches(name, name)
  {
  }

  /** Nothing within an earlier sibling is at or beyond the later one. */
  lemma SiblingsApart(s: Bytes, p: int, r: int, c: int, x: int, k: int)
    requires Child(s, p, r) && Child(s, p, c) && r < c && Deep(s, r, x, k)
    ensures x < c
  {
    hide First, Scan, StaysOpen, TagAt, Rise, NameAt, CheckedNode;
    var b, e := CheckedNode(s, p), CheckedNode(s, r);
    assert s[b..c] == s[b..r] + s[r..c];
    ScanAppend(s[b..r], s[r..c]);
    CheckedFacts(s, r);
    ScanFirst(s, r, c);
    NodeTag(s, r);
    assert s[r..c] == s[r..e] + s[e..c];
    ScanAppend(s[r..e], s[e..c]);
    var tag := Begin(NameAt(s, r));
    RiseAppend(Scan(s[b..r]).value, Scan(s[r..c]).value);
    RiseFront(tag, Scan(s[e..c]).value);
    OpenAtEnd(Scan(s[e..c]).value, 0);
    if x >= c {
      assert s[e..x] == s[e..c] + s[c..x];
      ScanAppend(s[e..c], s[c..x]);
      StaysOpenAppend(Scan(s[e..c]).value, Scan(s[c..x]).value, 0);
    }
  }

  lemma OpenAtEnd(ts: seq<Token>, d: int)
    ensures StaysOpen(ts, d) ==> d + Rise(ts) >= 0
  {
    assert ts[..|ts|] == ts;
  }

  /** Going down from a node of the line by the names below it. */
  lemma {:induction false} DescendLine(s: Bytes, offs: seq<int>, i: nat)
    requires Line(s, offs) && i < |offs|
    ensures Descend(s, offs[i], Names(s, offs)[i + 1..]) == offs[|offs| - 1] <==>
            forall j | i <= j < |offs| - 1 :: ClearAt(s, offs, j)
    decreases |offs| - i
  {
    hide Deep, NodeAt, NameAt, Clear, SubNode;
    var ns, last := Names(s, offs), offs[|offs| - 1];
    if i + 1 < |offs| {
      var p, c := offs[i], offs[i + 1];
      assert Linked(s, offs, i);
      OwnName(s, p, c);
      assert ns[i + 1..][0] == NameAt(s, c) && ns[i + 1..][1..] == ns[i + 2..];
      var r := SubNode(s, p, NameAt(s, c));
      if Clear(s, p, c) {
        assert ClearAt(s, offs, i);
        DescendLine(s, offs, i + 1);
        DeepAfter(s, p, c, 0);
        assert Descend(s, p, ns[i + 1..]) == Descend(s, c, ns[i + 2..]);
      } else {
        assert !ClearAt(s, offs, i);
        var x := Descend(s, r, ns[i + 2..]);
        DescendInside(s, r, ns[i + 2..]);
        NotBeyond(s, p, r, c, x, |ns| - i - 3);
        if i + 2 < |offs| {
          LineDeep(s, offs, i + 1);
        }
      }
    }
  }

  lemma NotBeyond(s: Bytes, p: int, r: int, c: int, x: int, k: int)
    requires Child(s, p, r) && Child(s, p, c) && r < c
    requires x >= 0 ==> x == r || Deep(s, r, x, k)
    ensures x < c
  {
    hide Deep, NodeAt;
    DeepAfter(s, p, c, 0);
    if x >= 0 && x != r {
      SiblingsApart(s, p, r, c, x, k);
    }
  }

  /** Each node on the way has a name, and no earlier sibling that answers to it. */
  ghost predicate LeadsBack(s: Bytes, offs: seq<int>)
    requires Line(s, offs)
  {
    && (forall i | 1 <= i < |offs| :: NameAt(s, offs[i]) != [])
    && (forall j | 0 <= j < |offs| - 1 :: ClearAt(s, offs, j))
  }

  /** The path of a node below a nameless root: a slash and each name, or the slash alone. */
  lemma PathTextIs(ns: seq<Bytes>)
    requires ns != [] && ns[0] == []
    ensures PathText(ns) == if |ns| == 1 then [SLASH] else Tail(ns[1..])
    ensures |PathText(ns)| > 0 && PathText(ns)[0] == SLASH
  {
    hide Text, Tail;
    assert ns == [[]] + ns[1..];
    TextIsTail(ns[1..]);
    if |ns| > 1 {
      TailStarts(ns[1..]);
    } else {
      TailNone();
    }
  }

  lemma TailNone()
    ensures Tail([]) == []
  {
  }

  /**
   The path of a node leads back to it exactly if every node on the way has a name and no earlier
   sibling that answers to it.
   */
  lemma PathLeadsBack(s: Bytes, offs: seq<int>)
    requires Line(s, offs) && NameAt(s, 0) == []
    requires forall i | 0 <= i < |offs| :: SLASH !in NameAt(s, offs[i])
    ensures var path := PathText(Names(s, offs));
            && |path| > 0 && path[0] == SLASH
            && (Resolve(s, 0, path, 0) == offs[|offs| - 1] <==> LeadsBack(s, offs))
  {
    hide NodeAt, NameAt, ClearAt, Resolve, Descend, Linked, Nonempty, PathText, Tail;
    var ns := Names(s, offs);
    var below := ns[1..];
    PathTextIs(ns);
    DescendLine(s, offs, 0);
    DescendShort(s, offs);
    assert forall i | 0 <= i < |below| :: below[i] == NameAt(s, offs[i + 1]);
    var path := PathText(ns);
    if below == [] {
      OnlySlash(s, path);
    } else {
      assert path[0..] == path;
      ResolveTail(s, 0, path, 0, below);
    }
    assert (forall i | 1 <= i < |offs| :: NameAt(s, offs[i]) != []) <==> |Nonempty(below)| == |below| by {
      assert forall i | 1 <= i < |offs| :: NameAt(s, offs[i]) == below[i - 1];
    }
    DescendNone(s, 0);
  }

  /** A descent by fewer names than there are nodes on the way does not get there. */
  lemma DescendShort(s: Bytes, offs: seq<int>)
    requires Line(s, offs)
    ensures var below := Nonempty(Names(s, offs)[1..]);
            |below| < |offs| - 1 ==> Descend(s, 0, below) != offs[|offs| - 1]
  {
    hide NodeAt, NameAt, Descend, Nonempty, Deep;
    var below := Nonempty(Names(s, offs)[1..]);
    DescendInside(s, 0, below);
    if |below| < |offs| - 1 && Descend(s, 0, below) == offs[|offs| - 1] {
      LineDeep(s, offs, 0);
      if below != [] {
        DeepOnce(s, 0, offs[|offs| - 1], |below| - 1, |offs| - 2);
      }
    }
  }

  lemma DeepOnce(s: Bytes, a: int, o: int, r: int, q: int)
    requires Deep(s, a, o, r) && Deep(s, a, o, q)
    ensures r == q
  {
  }

  lemma DescendNone(s: Bytes, off: int)
    ensures Descend(s, off, []) == off
  {
  }

  lemma OnlySlash(s: Bytes, path: Bytes)
    requires path == [SLASH]
    ensures Resolve(s, 0, path, 0) == 0
  {
    assert SlashesEnd(path, 1) == 1;
  }

  lemma TailStarts(ns: seq<Bytes>)
    requires ns != []
    ensures |Tail(ns)| > 0 && Tail(ns)[0] == SLASH
  {
  }

  /** Distinct names among siblings, and no name with a unit address before the bare one, keep paths clear. */
  lemma DistinctIsClear(s: Bytes, p: int, c: int)
    requires Child(s, p, c)
    requires forall r | r < c && Child(s, p, r) ::
      NameAt(s, r) != NameAt(s, c) && !(NameAt(s, c) + [64] <= NameAt(s, r))
    ensures Clear(s, p, c)
  {
    hide Deep, NameAt, Clear, SubNode;
    OwnName(s, p, c);
    if !Clear(s, p, c) {
      var r := SubNode(s, p, NameAt(s, c));
      DeepAfter(s, p, c, 0);
      FoundMatches(s, p, NameAt(s, c));
      assert false;
    }
  }

  lemma FoundMatches(s: Bytes, off: int, given: Bytes)
    requires NodeAt(s, off) && SubNode(s, off, given) >= 0
    ensures NodeAt(s, SubNode(s, off, given))
    ensures var name := NameAt(s, SubNode(s, off, given)); name == given || given + [64] <= name
  {
    hide NameAt, SubFrom, CheckedNode, Matches;
    SubIsChild(s, off, given);
    var r := SubNode(s, off, given);
    SubMatches(s, CheckedNode(s, off), 0, given);
    MatchNamed(s, r, given);
    MatchesMeans(NameAt(s, r), given);
  }

  lemma MatchesMeans(name: Bytes, given: Bytes)
    requires Matches(name, given)
    ensures name == given || given + [64] <= name
  {
    if |name| == |given| {
      assert name[..|given|] == name;
    } else {
      assert name[..|given| + 1] == given + [64];
    }
  }

  lemma {:induction false} SubMatches(s: Bytes, off: int, d: nat, given: Bytes)
    requires SubFrom(s, off, d, given) >= 0
    ensures MatchAt(s, SubFrom(s, off, d, given), given)
    decreases |s| - off
  {
    hide First, MatchAt;
    var (tag, next) := TagAt(s, off);
    TagStep(s, off);
    if tag == BEGIN_NODE {
      if !(d == 0 && MatchAt(s, off, given)) {
        SubMatches(s, next, d + 1, given);
      }
    } else if tag == END_NODE {
      SubMatches(s, next, d - 1, given);
    } else if tag != END {
      SubMatches(s, next, d, given);
    }
  }
}
