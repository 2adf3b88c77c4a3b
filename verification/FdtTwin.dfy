/**
 Blocks that differ in the values of properties only, and what overwriting a part of a value does:
 it changes the value of one property and nothing else that can be read.
 */
module FdtTwin {
  import opened Basics
  import opened FdtFormat
  import opened FdtBlob
  import opened FdtNodes
  import opened FdtCheck
  import opened FdtTree
  import opened FdtProps
  import opened FdtEdit
  import opened FdtForest

  // ---- the same tags

  /** The same tag, with another value of the same length at most. */
  ghost predicate Like(t: Token, u: Token) {
    if t.Property? then u.Property? && u.nameOff == t.nameOff && |u.value| == |t.value| else t == u
  }

  /** From off on two blocks have the same tags at the same offsets. */
  ghost predicate Twin(s: Bytes, t: Bytes, off: int)
    decreases |s| - off
  {
    && |s| == |t| && TagAt(s, off) == TagAt(t, off)
    && (TagAt(s, off).0 != END ==>
          Like(First(s[off..]).token, First(t[off..]).token) && Twin(s, t, TagAt(s, off).1))
  }

  lemma {:induction false} TwinSelf(s: Bytes, off: int)
    ensures Twin(s, s, off)
    decreases |s| - off
  {
    hide First, TagAt;
    TagStep(s, off);
    if TagAt(s, off).0 != END {
      TwinSelf(s, TagAt(s, off).1);
    }
  }

  lemma {:induction false} TwinBack(s: Bytes, t: Bytes, off: int)
    requires Twin(s, t, off)
    ensures Twin(t, s, off)
    decreases |s| - off
  {
    hide First, TagAt;
    TagStep(s, off);
    if TagAt(s, off).0 != END {
      TwinBack(s, t, TagAt(s, off).1);
    }
  }

  lemma {:induction false} TwinTrans(s: Bytes, t: Bytes, u: Bytes, off: int)
    requires Twin(s, t, off) && Twin(t, u, off)
    ensures Twin(s, u, off)
    decreases |s| - off
  {
    hide First, TagAt;
    TagStep(s, off);
    if TagAt(s, off).0 != END {
      TwinTrans(s, t, u, TagAt(s, off).1);
    }
  }

  /** From a boundary of one to a boundary of the other. */
  lemma {:induction false} TwinOn(s: Bytes, t: Bytes, off: nat, q: nat)
    requires Twin(s, t, off) && off % 4 == 0 && off <= q <= |s| && Scan(s[off..q]).Some?
    ensures Scan(t[off..q]).Some? && Twin(s, t, q)
    decreases q - off
  {
    hide First, Scan, Align4, Like;
    if off == q {
      assert t[off..q] == [];
      ScanNone();
    } else {
      ScanFirst(s, off, q);
      TagKnown(s, off);
      var next := TagAt(s, off).1;
      TwinOn(s, t, next, q);
      ScanCons(t, off, next, q);
    }
  }

  lemma TwinBoundary(s: Bytes, t: Bytes, q: int)
    requires Twin(s, t, 0)
    ensures Boundary(s, q) <==> Boundary(t, q)
    ensures Boundary(s, q) ==> Twin(s, t, q)
  {
    hide First, Scan, TagAt;
    TwinBack(s, t, 0);
    if Boundary(s, q) {
      assert s[0..q] == s[..q] && t[0..q] == t[..q];
      TwinOn(s, t, 0, q);
    }
    if Boundary(t, q) {
      assert s[0..q] == s[..q] && t[0..q] == t[..q];
      TwinOn(t, s, 0, q);
    }
  }

  // ---- the same tree

  lemma {:induction false} TwinClose(s: Bytes, t: Bytes, off: int, d: nat)
    requires Twin(s, t, off)
    ensures CloseFrom(s, off, d) == CloseFrom(t, off, d)
    decreases |s| - off
  {
    hide First, TagAt, Like;
    TagStep(s, off);
    var (tag, next) := TagAt(s, off);
    if tag == END_NODE && d > 0 {
      TwinClose(s, t, next, d - 1);
    } else if tag != END && tag != END_NODE {
      TwinClose(s, t, next, if tag == BEGIN_NODE then d + 1 else d);
    }
  }

  lemma {:induction false} TwinProps(s: Bytes, t: Bytes, strings: Bytes, off: int)
    requires Twin(s, t, off)
    ensures Props(s, strings, off) == Props(t, strings, off)
    decreases |s| - off
  {
    hide First, StringAt;
    TagStep(s, off);
    var (tag, next) := TagAt(s, off);
    if tag == PROP || tag == NOP {
      TwinProps(s, t, strings, next);
    }
  }

  lemma {:induction false} TwinForest(s: Bytes, t: Bytes, strings: Bytes, off: nat)
    requires Twin(s, t, off) && off % 4 == 0
    ensures Forest(s, strings, off) == Forest(t, strings, off)
    decreases |s| - off
  {
    hide First, Align4, Props, Scan, CloseFrom;
    var (tag, next) := TagAt(s, off);
    if tag != END {
      TagFacts(s, off);
      if tag != END_NODE {
        TwinForest(s, t, strings, next);
      }
      if tag == BEGIN_NODE {
        TwinProps(s, t, strings, next);
        var e := Forest(s, strings, next).1;
        if e >= 0 {
          ForestEnd(s, strings, next);
          CloseAfter(s, next, 0);
          TwinOn(s, t, next, e);
          TwinForest(s, t, strings, e);
        }
      }
    }
  }

  /** The nodes of one are the nodes of the other. */
  lemma TwinHere(s: Bytes, t: Bytes, strings: Bytes, n: Node)
    requires Twin(s, t, 0) && Here(s, strings, n)
    ensures Here(t, strings, n) && EndOf(s, n.at) == EndOf(t, n.at) && CheckedNode(s, n.at) == CheckedNode(t, n.at)
  {
    hide First, Scan, Forest, Props, CloseFrom, Align4;
    TwinBoundary(s, t, n.at);
    CheckedFacts(s, n.at);
    SpanScan(s, n.at);
    var b := CheckedNode(s, n.at);
    TwinOn(s, t, n.at, b);
    TwinForest(s, t, strings, b);
    TwinProps(s, t, strings, b);
    TwinClose(s, t, b, 0);
    SameName(s, t, n.at);
  }

  lemma SameName(s: Bytes, t: Bytes, off: int)
    requires Twin(s, t, off) && NodeAt(s, off)
    ensures NodeAt(t, off) && NameAt(s, off) == NameAt(t, off)
  {
    hide First;
    TagIsBegin(s, off);
  }

  // ---- values

  /** The value of the property at an offset. */
  ghost function ValueAt(s: Bytes, p: int): Bytes {
    if TagAt(s, p).0 == PROP then First(s[p..]).token.value else []
  }

  /** The values of all properties, each at the offset of its tag. */
  ghost function ValuesOf(s: Bytes): (vals: seq<Bytes>)
    ensures |vals| == |s|
    ensures forall p | 0 <= p < |s| :: vals[p] == if Boundary(s, p) then ValueAt(s, p) else []
  {
    seq(|s|, p requires 0 <= p < |s| => if Boundary(s, p) then ValueAt(s, p) else [])
  }

  /** The value of a property takes the bytes behind its tag. */
  lemma ValueBytes(s: Bytes, p: int)
    requires TagAt(s, p).0 == PROP
    ensures 0 <= p && p + 12 + |ValueAt(s, p)| <= |s| && ValueAt(s, p) == s[p + 12..p + 12 + |ValueAt(s, p)|]
    ensures p % 4 == 0 ==> p + 12 + |ValueAt(s, p)| <= TagAt(s, p).1
    ensures |ValueAt(s, p)| == U32(s[p + 4..p + 8]) < LIMIT32
  {
    hide U32, First;
    PropertyTag(s, p);
    PropertyFields(s, p);
    if p % 4 == 0 {
      AlignShift(p, First(s[p..]).size);
    }
  }

  /** Boundaries follow each other. */
  lemma BoundarySplit(s: Bytes, a: int, b: int)
    requires Boundary(s, a) && Boundary(s, b) && a <= b
    ensures Scan(s[a..b]).Some? && a % 4 == 0
  {
    hide First, Scan;
    assert s[..b] == s[..a] + s[a..b];
    ScanAppend(s[..a], s[a..b]);
    ScanAligned(s[..a]);
    assert |s[..a]| == a;
  }

  /** What is the same from off on reads the same there. */
  lemma {:induction false} TwinBehind(s: Bytes, t: Bytes, off: nat)
    requires |s| == |t| && (off <= |s| ==> s[off..] == t[off..])
    ensures Twin(s, t, off)
    decreases |s| - off
  {
    hide First, Align4;
    TagStep(s, off);
    if TagAt(s, off).0 != END {
      var next := TagAt(s, off).1;
      if next <= |s| {
        assert s[next..] == s[off..][next - off..] && t[next..] == t[off..][next - off..];
      }
      TwinBehind(s, t, next);
    }
  }

  /** A token before the change reads as it did. */
  lemma Before(s: Bytes, t: Bytes, off: nat, p: nat)
    requires off % 4 == 0 && off < p <= |s| == |t| && s[..p] == t[..p] && Scan(s[off..p]).Some?
    ensures First(s[off..]) == First(t[off..]) && TagAt(s, off) == TagAt(t, off) && TagAt(s, off).0 != END
    ensures off < TagAt(s, off).1 <= p && TagAt(s, off).1 % 4 == 0 && Scan(s[TagAt(s, off).1..p]).Some?
  {
    hide First, Scan, Align4;
    ScanFirst(s, off, p);
    TagKnown(s, off);
    var f := First(s[off..]);
    assert s[off..][..f.size] == s[..p][off..off + f.size] && t[off..][..f.size] == t[..p][off..off + f.size];
    FirstLocal(t[off..], s[off..]);
  }

  /** The tag of the property whose value is changed. */
  lemma Changed(s: Bytes, p: nat, idx: nat, d: Bytes)
    requires p % 4 == 0 && TagAt(s, p).0 == PROP && idx + |d| <= |ValueAt(s, p)|
    ensures p + 12 + idx + |d| <= |s|
    ensures var t := Over(s, p + 12 + idx, d);
            && TagAt(t, p) == TagAt(s, p) && Like(First(s[p..]).token, First(t[p..]).token)
            && ValueAt(t, p) == Over(ValueAt(s, p), idx, d)
            && t[..p] == s[..p] && TagAt(s, p).1 > p
            && (TagAt(s, p).1 <= |s| ==> t[TagAt(s, p).1..] == s[TagAt(s, p).1..])
  {
    hide Over, U32, NulFrom, First;
    ValueBytes(s, p);
    PropertyTag(s, p);
    PropertyFields(s, p);
    var len, at := |ValueAt(s, p)|, p + 12 + idx;
    var t := Over(s, at, d);
    OverOutside(s, at, d, p, p + 4);
    OverOutside(s, at, d, p + 4, p + 8);
    OverOutside(s, at, d, p + 8, p + 12);
    OverOutside(s, at, d, 0, p);
    OverBlock(s, at, d, p + 12, p + 12 + len);
    FirstAt(t, p);
    var next := TagAt(s, p).1;
    if next <= |s| {
      OverOutside(s, at, d, next, |s|);
      assert t[next..] == t[next..|t|] && s[next..] == s[next..|s|];
    }
  }

  lemma {:induction false} TwinAhead(s: Bytes, t: Bytes, off: nat, p: nat)
    requires off % 4 == 0 && off <= p <= |s| == |t| && s[..p] == t[..p] && Scan(s[off..p]).Some? && Twin(s, t, p)
    ensures Twin(s, t, off)
    decreases p - off
  {
    hide First, Scan;
    if off < p {
      Before(s, t, off, p);
      LikeSelf(First(s[off..]).token);
      TwinAhead(s, t, TagAt(s, off).1, p);
    }
  }

  lemma LikeSelf(t: Token)
    ensures Like(t, t)
  {
  }

  /** Overwriting a part of a value leaves the same tags, and all other values. */
  lemma ValueWritten(s: Bytes, p: nat, idx: nat, d: Bytes)
    requires Boundary(s, p) && TagAt(s, p).0 == PROP && idx + |d| <= |ValueAt(s, p)|
    ensures p < |s| && p + 12 + idx + |d| <= |s|
    ensures var t := Over(s, p + 12 + idx, d);
            Twin(s, t, 0) && ValuesOf(t) == ValuesOf(s)[p := Over(ValueAt(s, p), idx, d)]
  {
    hide First, Scan, Over, TagAt, ValueAt, Twin;
    BoundarySplit(s, p, p);
    Changed(s, p, idx, d);
    var t := Over(s, p + 12 + idx, d);
    TwinThere(s, t, p);
    assert s[0..p] == s[..p];
    TwinAhead(s, t, 0, p);
    TagStep(s, p);
    forall q | 0 <= q < |s|
      ensures ValuesOf(t)[q] == ValuesOf(s)[p := Over(ValueAt(s, p), idx, d)][q]
    {
      TwinBoundary(s, t, q);
      if Boundary(s, q) && q != p {
        OtherValue(s, t, p, q);
      }
    }
  }

  lemma TwinThere(s: Bytes, t: Bytes, p: nat)
    requires |s| == |t| && TagAt(s, p) == TagAt(t, p) && TagAt(s, p).0 != END &&
      Like(First(s[p..]).token, First(t[p..]).token)
    requires TagAt(s, p).1 <= |s| ==> s[TagAt(s, p).1..] == t[TagAt(s, p).1..]
    ensures Twin(s, t, p)
  {
    hide First;
    TagStep(s, p);
    TwinBehind(s, t, TagAt(s, p).1);
  }

  lemma OtherValue(s: Bytes, t: Bytes, p: nat, q: nat)
    requires |s| == |t| && Boundary(s, p) && Boundary(s, q) && q != p && q < |s| && TagAt(s, p).0 == PROP
    requires t[..p] == s[..p] && TagAt(s, p).1 <= |s| ==> t[TagAt(s, p).1..] == s[TagAt(s, p).1..]
    requires t[..p] == s[..p]
    ensures ValueAt(t, q) == ValueAt(s, q)
  {
    hide First, Scan, Align4;
    if q < p {
      BoundarySplit(s, q, p);
      Before(s, t, q, p);
    } else {
      BoundarySplit(s, p, q);
      ScanFirst(s, p, q);
      var next := TagAt(s, p).1;
      assert s[q..] == s[next..][q - next..] && t[q..] == t[next..][q - next..];
    }
  }

  // ---- events

  /** The events with another value in the entry at j. */
  ghost function WithValue(ev: seq<Event>, j: nat, value: Bytes): seq<Event>
    requires j < |ev| && ev[j].Entry?
  {
    ev[j := Entry(ev[j].name, value)]
  }

  /** The event of a property. */
  lemma SlotEvent(s: Bytes, strings: Bytes, p: nat)
    requires Boundary(s, p) && TagAt(s, p).0 == PROP && Events(s, strings).Some?
    ensures var ev, j := Events(s, strings).value, Place(s, strings, p);
            && j < |ev| && ev[j].Entry? && ev[j].value == ValueAt(s, p)
            && StringAt(strings, First(s[p..]).token.nameOff) == Some(ev[j].name)
    ensures TagAt(s, p).1 <= |s| && Scan(s[p..TagAt(s, p).1]) == Some([First(s[p..]).token])
  {
    hide First, Scan, Walk, Meaning, Align4;
    BoundarySplit(s, p, p);
    EventsAt(s, strings, p);
    EventsFirst(s, strings, p);
    PropertyTag(s, p);
  }

  /** In the events, one entry has another value. */
  lemma EventWritten(s: Bytes, strings: Bytes, p: nat, idx: nat, d: Bytes)
    requires Boundary(s, p) && TagAt(s, p).0 == PROP && idx + |d| <= |ValueAt(s, p)| && Events(s, strings).Some?
    ensures p + 12 + idx + |d| <= |s|
    ensures var ev, j := Events(s, strings).value, Place(s, strings, p);
            && j < |ev| && ev[j].Entry?
            && Events(Over(s, p + 12 + idx, d), strings) == Some(WithValue(ev, j, Over(ValueAt(s, p), idx, d)))
  {
    hide First, Scan, Walk, Meaning, Align4, Over, Events, StringAt;
    BoundarySplit(s, p, p);
    SlotEvent(s, strings, p);
    Changed(s, p, idx, d);
    ValueWritten(s, p, idx, d);
    var t, next := Over(s, p + 12 + idx, d), TagAt(s, p).1;
    var w := t[p..next];
    assert t == t[..p] + w + t[next..];
    PieceIs(t, p);
    TwinBoundary(s, t, p);
    PropertyTag(t, p);
    var ev, j, u := Events(s, strings).value, Place(s, strings, p), First(t[p..]).token;
    MeaningOne(u, strings);
    MeaningOne(First(s[p..]).token, strings);
    assert strings + [] == strings;
    PieceReplaced(s, strings, p, next, w, []);
    EntryMeaning(First(s[p..]).token, u, strings, ev[j].name);
    var x, y := Meaning(Scan(s[..p]).value, strings).value, Events(s[next..], strings).value;
    OneReplaced(x, ev[j], Entry(ev[j].name, u.value), y);
  }

  lemma OneReplaced(x: seq<Event>, a: Event, b: Event, y: seq<Event>)
    ensures (x + [a] + y)[|x| := b] == x + [b] + y
  {
  }

  lemma PieceIs(t: Bytes, p: nat)
    requires p % 4 == 0 && TagAt(t, p).0 != END && TagAt(t, p).1 <= |t|
    ensures Scan(t[p..TagAt(t, p).1]) == Some([First(t[p..]).token])
  {
    hide First, Align4, Scan;
    TagFacts(t, p);
    var next := TagAt(t, p).1;
    assert t[next..next] == [];
    ScanNone();
    ScanCons(t, p, next, next);
    assert [First(t[p..]).token] + [] == [First(t[p..]).token];
  }

  lemma EntryMeaning(t: Token, u: Token, strings: Bytes, name: Bytes)
    requires t.Property? && Like(t, u) && StringAt(strings, t.nameOff) == Some(name)
    ensures MeaningOf(t, strings) == Some([Entry(name, t.value)]) &&
      MeaningOf(u, strings) == Some([Entry(name, u.value)])
  {
  }
}
