/**
 Walking from node to node of a structure block, and finding where a node ends.
 */
module FdtNodes {
  import opened Basics
  import opened FdtFormat
  import opened FdtBlob

  // ---- nesting of tokens

  function Level(t: Token): int {
    if t.Begin? then 1 else if t.Finish? then -1 else 0
  }

  /** How many more nodes a run of tokens opens than it closes. */
  ghost function Rise(ts: seq<Token>): int {
    if ts == [] then 0 else Rise(ts[..|ts| - 1]) + Level(ts[|ts| - 1])
  }

  lemma {:induction false} RiseAppend(a: seq<Token>, b: seq<Token>)
    ensures Rise(a + b) == Rise(a) + Rise(b)
    decreases |b|
  {
    if b == [] {
      assert a + b == a;
    } else {
      var c := b[..|b| - 1];
      assert (a + b)[..|a + b| - 1] == a + c;
      RiseAppend(a, c);
    }
  }

  lemma RiseFront(t: Token, ts: seq<Token>)
    ensures Rise([t] + ts) == Level(t) + Rise(ts)
  {
    RiseAppend([t], ts);
    assert [t][..0] == [];
  }

  /** Starting inside d open nodes and the node in question, the run never leaves that node. */
  ghost predicate StaysOpen(ts: seq<Token>, d: int) {
    forall k | 0 <= k <= |ts| :: d + Rise(ts[..k]) >= 0
  }

  /** The run leaves the node, and does so with its last token. */
  ghost predicate Closes(ts: seq<Token>, d: int) {
    |ts| > 0 && StaysOpen(ts[..|ts| - 1], d) && d + Rise(ts) == -1
  }

  /** The tokens of one node with all that is in it. */
  ghost predicate IsNode(ts: seq<Token>) {
    |ts| > 1 && ts[0].Begin? && Closes(ts[1..], 0)
  }

  /** A node of the structure block takes the bytes from off to end. */
  ghost predicate NodeSpan(s: Bytes, off: nat, end: nat) {
    off <= end <= |s| && Scan(s[off..end]).Some? && IsNode(Scan(s[off..end]).value)
  }

  lemma StaysOpenFront(t: Token, ts: seq<Token>, d: int)
    ensures StaysOpen([t] + ts, d) <==> d >= 0 && StaysOpen(ts, d + Level(t))
  {
    var all := [t] + ts;
    forall k | 0 <= k <= |ts| ensures all[..k + 1] == [t] + ts[..k] && Rise(all[..k + 1]) == Level(t) + Rise(ts[..k]) {
      RiseFront(t, ts[..k]);
    }
    assert all[..0] == [];
    if d >= 0 && StaysOpen(ts, d + Level(t)) {
      forall k | 0 <= k <= |all| ensures d + Rise(all[..k]) >= 0 {
        if k > 0 {
          RiseFront(t, ts[..k - 1]);
          assert all[..k] == [t] + ts[..k - 1];
        }
      }
    }
    if StaysOpen(all, d) {
      forall k | 0 <= k <= |ts| ensures d + Level(t) + Rise(ts[..k]) >= 0 {
        assert d + Rise(all[..k + 1]) >= 0;
      }
    }
  }

  lemma ClosesFront(t: Token, ts: seq<Token>, d: int)
    requires ts != []
    ensures Closes([t] + ts, d) <==> d >= 0 && Closes(ts, d + Level(t))
  {
    var all := [t] + ts;
    assert all[..|all| - 1] == [t] + ts[..|ts| - 1];
    StaysOpenFront(t, ts[..|ts| - 1], d);
    RiseFront(t, ts);
  }

  /** A run closes a node at one place only. */
  lemma ClosesOnce(a: seq<Token>, b: seq<Token>, d: int)
    requires Closes(a, d) && b != []
    ensures !StaysOpen(a + b, d) && !Closes(a + b, d)
  {
    assert (a + b)[..|a|] == a;
    assert (a + b)[..|a + b| - 1][..|a|] == a;
  }

  // ---- the search for a node's end

  /** The offset behind the tag that closes the d-th of the nodes open at off. */
  ghost function CloseFrom(s: Bytes, off: int, d: nat): int
    decreases |s| - off
  {
    var (tag, next) := TagAt(s, off);
    if tag == END then (if next >= 0 then -ERR_NOTFOUND else next)
    else if tag == END_NODE then (if d == 0 then next else CloseFrom(s, next, d - 1))
    else CloseFrom(s, next, if tag == BEGIN_NODE then d + 1 else d)
  }

  /** Splitting the first token off a piece. */
  lemma ScanFirst(s: Bytes, off: nat, e: nat)
    requires off < e <= |s| && off % 4 == 0 && Scan(s[off..e]).Some?
    ensures var f := First(s[off..]);
            var next := if f.Lex? then off + Align4(f.size) else off;
            && f.Lex? && !f.token.End? && off + 4 <= |s|
            && next <= e && next % 4 == 0 && TagAt(s, off) == (TagOf(f.token), next)
            && Scan(s[next..e]).Some? && Scan(s[off..e]).value == [f.token] + Scan(s[next..e]).value
  {
    hide First, Align4;
    var w := s[off..e];
    assert s[off..] == w + s[e..];
    FirstAppend(w, s[e..]);
    var n := Align4(First(w).size);
    assert w[n..] == s[off + n..e];
    AlignShift(off, First(w).size);
  }

  /** And putting it back. */
  lemma ScanCons(s: Bytes, off: nat, next: nat, e: nat)
    requires off % 4 == 0 && TagAt(s, off).0 != END && next == TagAt(s, off).1 <= e <= |s| && Scan(s[next..e]).Some?
    ensures First(s[off..]).Lex? && off < next &&
      Scan(s[off..e]) == Some([First(s[off..]).token] + Scan(s[next..e]).value)
  {
    hide First, Align4;
    var f := First(s[off..]);
    AlignShift(off, f.size);
    var piece := s[off..next];
    assert piece[..f.size] == s[off..][..f.size];
    FirstLocal(piece, s[off..]);
    ScanOne(piece);
    ScanAppend(piece, s[next..e]);
    assert s[off..e] == piece + s[next..e];
  }

  /** The search finds the place where the tokens close the node, or there is none. */
  lemma {:induction false} CloseTokens(s: Bytes, off: nat, d: nat)
    requires off % 4 == 0
    ensures var r := CloseFrom(s, off, d);
            && (r >= 0 ==> off < r <= |s| && Scan(s[off..r]).Some? && Closes(Scan(s[off..r]).value, d))
            && (r < 0 ==> forall e | off <= e <= |s| && Scan(s[off..e]).Some? :: StaysOpen(Scan(s[off..e]).value, d))
    decreases |s| - off
  {
    hide First, Scan, Closes, StaysOpen, TagOf, Align4;
    var r := CloseFrom(s, off, d);
    if TagAt(s, off).0 == END {
      NothingMore(s, off, d);
    } else {
      TagFacts(s, off);
      var next: nat := TagAt(s, off).1;
      var t := First(s[off..]).token;
      if t.Finish? && d == 0 {
        assert s[next..next] == [];
        ScanNone();
        ScanCons(s, off, next, next);
        assert [t] + [] == [t];
        ClosesNow(t);
      } else {
        CloseTokens(s, next, d + Level(t));
        if r >= 0 {
          ScanCons(s, off, next, r);
          ClosesSome(Scan(s[next..r]).value, d + Level(t));
          ClosesFront(t, Scan(s[next..r]).value, d);
        } else {
          forall e | off <= e <= |s| && Scan(s[off..e]).Some? ensures StaysOpen(Scan(s[off..e]).value, d) {
            if e == off {
              assert s[off..e] == [];
              ScanNone();
              StaysOpenNone(d);
            } else {
              ScanFirst(s, off, e);
              StaysOpenFront(t, Scan(s[next..e]).value, d);
            }
          }
        }
      }
    }
  }

  lemma TagFacts(s: Bytes, off: nat)
    requires TagAt(s, off).0 != END && off % 4 == 0
    ensures var (tag, next) := TagAt(s, off); var f := First(s[off..]);
            && f.Lex? && !f.token.End? && off < next && off + 4 <= |s| && next % 4 == 0 && next == off + Align4(f.size)
            && (tag == END_NODE <==> f.token.Finish?) && (tag == BEGIN_NODE <==> f.token.Begin?)
            && (f.token.Finish? ==> next == off + 4)
            && (tag == PROP <==> f.token.Property?) && (tag == NOP <==> f.token.Nop?)
  {
    AlignShift(off, First(s[off..]).size);
  }

  lemma ClosesNow(t: Token)
    requires t.Finish?
    ensures Closes([t], 0)
  {
    assert [t][..0] == [];
  }

  lemma ClosesSome(ts: seq<Token>, d: int)
    requires Closes(ts, d)
    ensures ts != []
  {
  }

  lemma ClosesOpen(ts: seq<Token>, d: int)
    requires Closes(ts, d)
    ensures d >= 0
  {
    assert ts[..|ts| - 1][..0] == [];
  }

  lemma StaysOpenNone(d: int)
    ensures StaysOpen([], d) <==> d >= 0
  {
    var none: seq<Token> := [];
    assert none[..0] == [];
  }

  lemma NothingMore(s: Bytes, off: nat, d: nat)
    requires off % 4 == 0 && TagAt(s, off).0 == END
    ensures CloseFrom(s, off, d) < 0
    ensures forall e | off <= e <= |s| && Scan(s[off..e]).Some? :: StaysOpen(Scan(s[off..e]).value, d)
  {
    hide First, StaysOpen, Scan;
    forall e | off <= e <= |s| && Scan(s[off..e]).Some? ensures StaysOpen(Scan(s[off..e]).value, d) {
      if e > off {
        ScanFirst(s, off, e);
        assert false;
      } else {
        assert s[off..e] == [];
        ScanNone();
        StaysOpenNone(d);
      }
    }
  }

  // ---- the methods

  /** The next node from off on, or the offset behind the tag that closes one node too many. */
  ghost function NodeFrom(s: Bytes, off: int, d: int): (int, int)
    decreases |s| - off
  {
    var (tag, next) := TagAt(s, off);
    if tag == BEGIN_NODE then (off, d + 1)
    else if tag == END_NODE then (if d - 1 < 0 then (next, d - 1) else NodeFrom(s, next, d - 1))
    else if tag == END then (if next >= 0 then -ERR_NOTFOUND else next, d)
    else NodeFrom(s, next, d)
  }

  ghost function CheckedNode(s: Bytes, off: int): int {
    if off < 0 || off % 4 != 0 || TagAt(s, off).0 != BEGIN_NODE then -ERR_BADOFFSET else TagAt(s, off).1
  }

  method CheckNodeOffset(fdt: Blob, offset: int) returns (r: int)
    requires fdt.StructIn()
    ensures r == CheckedNode(fdt.Struct(), offset)
  {
    if offset < 0 || offset % 4 != 0 {
      return -ERR_BADOFFSET;
    }
    var tag, next := fdt.SafeTag(offset);
    if tag != BEGIN_NODE {
      return -ERR_BADOFFSET;
    }
    return next;
  }

  /** A negative offset starts the walk at the first node. */
  ghost function NextFrom(s: Bytes, off: int, d: int): (int, int) {
    if off < 0 then NodeFrom(s, 0, d)
    else if CheckedNode(s, off) < 0 then (CheckedNode(s, off), d)
    else NodeFrom(s, CheckedNode(s, off), d)
  }

  method NextNode(fdt: Blob, start: int, depth0: int) returns (offset: int, depth: int)
    requires fdt.StructIn()
    ensures (offset, depth) == NextFrom(fdt.Struct(), start, depth0)
  {
    hide First, TagAt;
    ghost var s := fdt.Struct();
    depth := depth0;
    var next := 0;
    if start >= 0 {
      next := CheckNodeOffset(fdt, start);
      if next < 0 {
        return next, depth;
      }
    }
    while true
      invariant next >= 0 && NextFrom(s, start, depth0) == NodeFrom(s, next, depth)
      decreases |s| - next
    {
      TagStep(s, next);
      offset := next;
      var tag;
      tag, next := fdt.SafeTag(offset);
      if tag == BEGIN_NODE {
        depth := depth + 1;
        return;
      } else if tag == END_NODE {
        depth := depth - 1;
        if depth < 0 {
          return next, depth;
        }
      } else if tag == END {
        return if next >= 0 then -ERR_NOTFOUND else next, depth;
      }
    }
  }

  lemma TagStep(s: Bytes, off: int)
    ensures TagAt(s, off).0 != END ==> 0 <= off < TagAt(s, off).1 && off < |s|
  {
  }

  /** Going from node to node is going from tag to tag. */
  lemma {:induction false} NodesAreTags(s: Bytes, off: int, d: nat)
    ensures var (o, d') := NodeFrom(s, off, d);
            CloseFrom(s, off, d) == if o < 0 || d' < 0 then o else CloseFrom(s, TagAt(s, o).1, d')
    ensures var (o, d') := NodeFrom(s, off, d);
            o >= 0 && d' >= 0 ==> o >= off && TagAt(s, o).0 == BEGIN_NODE && (off % 4 == 0 ==> o % 4 == 0)
    decreases |s| - off
  {
    hide First, TagAt;
    TagStep(s, off);
    var (tag, next) := TagAt(s, off);
    if tag == END_NODE && d > 0 {
      TagAligned(s, off);
      NodesAreTags(s, next, d - 1);
    } else if tag != END && tag != BEGIN_NODE && tag != END_NODE {
      TagAligned(s, off);
      NodesAreTags(s, next, d);
    }
  }

  lemma TagAligned(s: Bytes, off: int)
    requires TagAt(s, off).0 != END
    ensures TagAt(s, off).1 % 4 == 0
  {
  }

  /** The offset behind a node: its span, when there is one, ends there. */
  method NodeEndOffset(fdt: Blob, off: int) returns (end: int)
    requires fdt.StructIn()
    ensures CheckedNode(fdt.Struct(), off) < 0 ==> end == if off < 0 then off else -ERR_BADOFFSET
    ensures CheckedNode(fdt.Struct(), off) >= 0 ==>
              if end >= 0 then NodeSpan(fdt.Struct(), off, end) else forall e :: !NodeSpan(fdt.Struct(), off, e)
    ensures CheckedNode(fdt.Struct(), off) >= 0 ==>
              (end == ASTRAY <==> CloseFrom(fdt.Struct(), CheckedNode(fdt.Struct(), off), 0) == ASTRAY)
  {
    hide First, TagAt, Scan, NodeSpan, CheckedNode, NextFrom;
    ghost var s := fdt.Struct();
    CheckedFacts(s, off);
    var depth := 0;
    end := off;
    while end >= 0 && depth >= 0
      invariant off < 0 ==> end == off
      invariant off >= 0 ==>
          if end >= 0 && depth >= 0 then EndFrom(s, end, depth) == EndFrom(s, off, 0) else end == EndFrom(s, off, 0)
      decreases end >= 0 && depth >= 0, |s| - end
    {
      NodeStep(s, end, depth);
      end, depth := NextNode(fdt, end, depth);
    }
    if CheckedNode(s, off) >= 0 {
      SpanIsClose(s, off, end);
    }
  }

  /** The end of the node at off, d nodes further out. */
  ghost function EndFrom(s: Bytes, off: nat, d: nat): int {
    if CheckedNode(s, off) < 0 then CheckedNode(s, off) else CloseFrom(s, CheckedNode(s, off), d)
  }

  lemma NodeStep(s: Bytes, off: nat, d: nat)
    ensures var (o, d') := NextFrom(s, off, d);
            && EndFrom(s, off, d) == (if o < 0 || d' < 0 then o else EndFrom(s, o, d'))
            && (o >= 0 && d' >= 0 ==> off < o && off < |s|)
  {
    hide First, TagAt, CloseFrom, CheckedNode;
    CheckedFacts(s, off);
    if CheckedNode(s, off) >= 0 {
      NodesAreTags(s, CheckedNode(s, off), d);
      CheckedFacts(s, NextFrom(s, off, d).0);
    }
  }

  lemma CheckedFacts(s: Bytes, off: int)
    ensures CheckedNode(s, off) < 0 ==> CheckedNode(s, off) == -ERR_BADOFFSET
    ensures CheckedNode(s, off) >= 0 ==> off % 4 == 0 && 0 <= off < CheckedNode(s, off) && off < |s|
    ensures CheckedNode(s, off) >= 0 ==> CheckedNode(s, off) % 4 == 0 && CheckedNode(s, off) == TagAt(s, off).1
    ensures off >= 0 && off % 4 == 0 && TagAt(s, off).0 == BEGIN_NODE ==> CheckedNode(s, off) >= 0
  {
    hide First;
    if CheckedNode(s, off) >= 0 {
      TagStep(s, off);
      TagAligned(s, off);
    }
  }

  lemma SpanIsClose(s: Bytes, off: nat, end: int)
    requires CheckedNode(s, off) >= 0 && end == CloseFrom(s, CheckedNode(s, off), 0)
    ensures if end >= 0 then NodeSpan(s, off, end) else forall e :: !NodeSpan(s, off, e)
  {
    hide First, Scan, Closes, StaysOpen, TagAt, CloseFrom;
    CheckedFacts(s, off);
    var next := CheckedNode(s, off);
    TagIsBegin(s, off);
    CloseTokens(s, next, 0);
    if end >= 0 {
      ScanCons(s, off, next, end);
      var inner := Scan(s[next..end]).value;
      ClosesSome(inner, 0);
      assert Scan(s[off..end]).value[1..] == inner;
    } else {
      forall e: nat ensures !NodeSpan(s, off, e) {
        if NodeSpan(s, off, e) {
          SpanNotEmpty(s, off, e);
          ScanFirst(s, off, e);
          var inner := Scan(s[next..e]).value;
          assert Scan(s[off..e]).value[1..] == inner;
          OpenNotClosed(inner, 0);
          assert false;
        }
      }
    }
  }

  lemma TagIsBegin(s: Bytes, off: nat)
    requires CheckedNode(s, off) >= 0
    ensures TagAt(s, off).0 != END && First(s[off..]).Lex? && First(s[off..]).token.Begin?
  {
  }

  lemma SpanNotEmpty(s: Bytes, off: nat, e: nat)
    requires NodeSpan(s, off, e)
    ensures off < e
  {
    var w := s[off..e];
    assert w == [] ==> Scan(w) == Some([]);
    assert |w| == e - off;
  }

  lemma OpenNotClosed(ts: seq<Token>, d: int)
    requires StaysOpen(ts, d)
    ensures !Closes(ts, d)
  {
    assert ts[..|ts|] == ts;
  }

  /** A node has one end. */
  lemma SpanUnique(s: Bytes, off: nat, e: nat, f: nat)
    requires off % 4 == 0 && NodeSpan(s, off, e) && NodeSpan(s, off, f)
    ensures e == f
  {
    if e < f {
      SpanShorter(s, off, e, f);
    } else if f < e {
      SpanShorter(s, off, f, e);
    }
  }

  lemma SpanShorter(s: Bytes, off: nat, e: nat, f: nat)
    requires off % 4 == 0 && NodeSpan(s, off, e) && e < f <= |s| && Scan(s[off..f]).Some?
    ensures !NodeSpan(s, off, f)
  {
    hide First, Scan, Closes;
    var a, b := s[off..e], s[e..f];
    assert s[off..f] == a + b;
    ScanAppend(a, b);
    ScanSome(b);
    var x, y := Scan(a).value, Scan(b).value;
    assert (x + y)[1..] == x[1..] + y;
    ClosesOnce(x[1..], y, 0);
  }

  lemma ScanSome(w: Bytes)
    requires Scan(w).Some? && w != []
    ensures Scan(w).value != []
  {
  }
}
