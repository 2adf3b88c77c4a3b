/**
 Edits keep a blob acceptable: what the full check demanded of it before, it finds afterwards.
 */
module FdtKeep {
  import opened Basics
  import opened FdtFormat
  import opened FdtNodes
  import opened FdtCheck

  // ---- the checker's automaton over runs in a row

  /** The checker's state behind a run, if it gets there. */
  ghost function After(ts: seq<Token>, depth: nat, done: bool): Option<(nat, bool)> {
    if ts == [] then Some((depth, done))
    else if done then None
    else match ts[0]
      case Begin(name) => if depth == 0 && name != [] then None else After(ts[1..], depth + 1, false)
      case Finish => if depth == 0 then None else After(ts[1..], depth - 1, depth == 1)
      case End => None
      case _ => After(ts[1..], depth, false)
  }

  lemma {:induction false} NestedAfter(x: seq<Token>, z: seq<Token>, depth: nat, done: bool)
    ensures Nested(x + z, depth, done) <==>
            var a := After(x, depth, done); a.Some? && Nested(z, a.value.0, a.value.1)
    decreases |x|
  {
    if x == [] {
      assert x + z == z;
    } else {
      assert (x + z)[1..] == x[1..] + z && (x + z)[0] == x[0];
      match x[0]
      case Begin(_) => NestedAfter(x[1..], z, depth + 1, false);
      case Finish =>
        if depth > 0 {
          NestedAfter(x[1..], z, depth - 1, depth == 1);
        }
      case End =>
      case _ => NestedAfter(x[1..], z, depth, false);
    }
  }

  /** Properties and padding. */
  ghost predicate Level0(ts: seq<Token>) {
    forall i | 0 <= i < |ts| :: ts[i].Nop? || ts[i].Property?
  }

  /** Properties and padding make no difference to the checker before the root is closed. */
  lemma {:induction false} NestedPlain(ts: seq<Token>, z: seq<Token>, depth: nat)
    requires Level0(ts)
    ensures Nested(ts + z, depth, false) <==> Nested(z, depth, false)
    decreases |ts|
  {
    if ts == [] {
      assert ts + z == z;
    } else {
      assert (ts + z)[1..] == ts[1..] + z && (ts + z)[0] == ts[0];
      NestedPlain(ts[1..], z, depth);
    }
  }

  /** Below the root the checker follows the level. */
  lemma NestedStep(ts: seq<Token>, z: seq<Token>, depth: nat)
    requires depth >= 2 && ts != [] && NoEnd(ts)
    ensures NoEnd(ts[1..])
    ensures depth + Level(ts[0]) >= 1 &&
      (Nested(ts + z, depth, false) <==> Nested(ts[1..] + z, depth + Level(ts[0]), false))
  {
    assert (ts + z)[1..] == ts[1..] + z && (ts + z)[0] == ts[0];
    assert ts[0] in ts;
  }

  /** Neither does the rest of a node that is closed again. */
  lemma {:induction false} NestedInner(ts: seq<Token>, z: seq<Token>, depth: nat, e: nat)
    requires depth >= 1 && Closes(ts, e) && NoEnd(ts)
    ensures Nested(ts + z, depth + e + 1, false) <==> Nested(z, depth, false)
    decreases |ts|
  {
    hide Closes, Nested, NoEnd;
    ClosesSome(ts, e);
    var t, rest := ts[0], ts[1..];
    assert ts == [t] + rest;
    NestedStep(ts, z, depth + e + 1);
    if t.Finish? && e == 0 {
      ClosesNow(t);
      if rest != [] {
        ClosesOnce([t], rest, 0);
        assert false;
      }
      assert rest + z == z;
    } else if rest == [] {
      assert [t] + rest == [t];
      ClosesNot(t, e);
      assert false;
    } else {
      ClosesFront(t, rest, e);
      ClosesOpen(rest, e + Level(t));
      NestedInner(rest, z, depth, e + Level(t));
    }
  }

  /** A whole node below another one. */
  lemma NestedNode(m: seq<Token>, z: seq<Token>, depth: nat)
    requires depth >= 1 && IsNode(m) && NoEnd(m)
    ensures Nested(m + z, depth, false) <==> Nested(z, depth, false)
  {
    hide Closes;
    var rest := m[1..];
    assert (m + z)[1..] == rest + z && (m + z)[0] == m[0];
    assert NoEnd(rest) by { assert forall u | u in rest :: u in m; }
    NestedInner(rest, z, depth, 0);
  }

  /** Once the root has been opened, no node is open only when the root is closed. */
  lemma {:induction false} RootOpened(x: seq<Token>, depth: nat)
    requires After(x, depth, false).Some? && After(x, depth, false).value.0 == 0
    requires depth >= 1 || exists i :: 0 <= i < |x| && x[i].Begin?
    ensures After(x, depth, false).value.1
    decreases |x|
  {
    if x != [] {
      var rest := x[1..];
      if depth == 0 && !x[0].Begin? {
        var i :| 0 <= i < |x| && x[i].Begin?;
        assert rest[i - 1].Begin?;
      }
      match x[0]
      case Begin(_) => RootOpened(rest, depth + 1);
      case Finish =>
        if depth > 1 {
          RootOpened(rest, depth - 1);
        } else if depth == 1 {
          assert rest == [];
        }
      case End =>
      case _ => RootOpened(rest, depth);
    }
  }

  lemma AfterBegin(x: seq<Token>, t: Token, depth: nat, done: bool)
    requires t.Begin? && After(x + [t], depth, done).Some?
    ensures !After(x + [t], depth, done).value.1
    decreases |x|
  {
    if x == [] {
      assert x + [t] == [t] && [t][1..] == [];
    } else {
      assert (x + [t])[1..] == x[1..] + [t] && (x + [t])[0] == x[0];
      match x[0]
      case Begin(_) => AfterBegin(x[1..], t, depth + 1, false);
      case Finish => AfterBegin(x[1..], t, depth - 1, depth == 1);
      case End =>
      case _ => AfterBegin(x[1..], t, depth, false);
    }
  }

  /** A place behind the opening of the root. */
  ghost predicate BelowRoot(s: Bytes, off: int) {
    Boundary(s, off) && exists i :: 0 <= i < |Scan(s[..off]).value| && Scan(s[..off]).value[i].Begin?
  }

  // ---- edits of a block

  /** The tokens of a block around a piece, and of the block with another piece in its place. */
  lemma TokensReplaced(s: Bytes, off: nat, end: nat, w: Bytes)
    requires Boundary(s, off) && off <= end <= |s| && Scan(s[off..end]).Some? && Scan(w).Some? && Walk(s).Some?
    ensures var x, m, y := Scan(s[..off]).value, Scan(s[off..end]).value, Walk(s[end..]);
            && y.Some? && Walk(s).value == x + m + y.value
            && Walk(s[..off] + w + s[end..]) == Some(x + Scan(w).value + y.value)
  {
    hide Scan, Walk;
    var a, b := s[..off], s[end..];
    BoundaryBetween(s, off, end);
    WalkAt(s, end);
    WalkAppend(w, b);
    WalkAppend(a, w + b);
    assert a + w + b == a + (w + b);
    var x, z, y := Scan(a).value, Scan(w).value, Walk(b).value;
    assert x + (z + y) == x + z + y;
  }

  lemma SoundNested(s: Bytes, strings: Bytes)
    ensures Sound(s, strings) <==> Events(s, strings).Some? && Nested(Walk(s).value, 0, false)
  {
    hide Walk, Meaning, OneRoot, Nested;
    if Walk(s).Some? {
      WalkNoEnd(s);
      NestedIsOneRoot(Walk(s).value);
    }
  }

  /** Properties and padding for properties and padding, or a property behind a node's name. */
  lemma SoundPlain(s: Bytes, strings: Bytes, off: nat, end: nat, w: Bytes, more: Bytes)
    requires Boundary(s, off) && off <= end <= |s| && Scan(s[off..end]).Some? && Scan(w).Some?
    requires Sound(s, strings) && Events(s[..off] + w + s[end..], strings + more).Some?
    requires Level0(Scan(s[off..end]).value) && Level0(Scan(w).value)
    requires Scan(s[off..end]).value != [] ||
      (Scan(s[..off]).value != [] && Scan(s[..off]).value[|Scan(s[..off]).value| - 1].Begin?)
    ensures Sound(s[..off] + w + s[end..], strings + more)
  {
    hide Scan, Walk, Meaning, Events, Sound, Nested, After, Level0;
    SoundNested(s, strings);
    SoundNested(s[..off] + w + s[end..], strings + more);
    HasTokens(s, strings);
    TokensReplaced(s, off, end, w);
    var x, m, y := Scan(s[..off]).value, Scan(s[off..end]).value, Walk(s[end..]).value;
    var z := Scan(w).value;
    assert x + m + y == x + (m + y) && x + z + y == x + (z + y);
    NestedAfter(x, m + y, 0, false);
    NestedAfter(x, z + y, 0, false);
    var (d, done) := After(x, 0, false).value;
    if m == [] {
      assert x == x[..|x| - 1] + [x[|x| - 1]];
      AfterBegin(x[..|x| - 1], x[|x| - 1], 0, false);
    } else {
      NotDone(m + y, d, done);
    }
    NestedPlain(m, y, d);
    NestedPlain(z, y, d);
  }

  lemma HasTokens(s: Bytes, strings: Bytes)
    requires Sound(s, strings)
    ensures Walk(s).Some? && Events(s, strings).Some?
  {
  }

  lemma NotDone(ts: seq<Token>, depth: nat, done: bool)
    requires Nested(ts, depth, done) && ts != []
    ensures !done
  {
  }

  /** A node below the root taken out, with or without padding in its place. */
  lemma SoundWithout(s: Bytes, strings: Bytes, off: nat, end: nat, k: nat)
    requires BelowRoot(s, off) && NodeSpan(s, off, end) && Sound(s, strings)
    requires Events(s[..off] + Nops(k) + s[end..], strings).Some?
    ensures Sound(s[..off] + Nops(k) + s[end..], strings)
  {
    hide Scan, Walk, Meaning, Events, Sound, Nested, After, Level0, IsNode, Nops;
    NopsPlain(k);
    SoundNested(s, strings);
    SoundNested(s[..off] + Nops(k) + s[end..], strings);
    HasTokens(s, strings);
    TokensReplaced(s, off, end, Nops(k));
    var x, m, y := Scan(s[..off]).value, Scan(s[off..end]).value, Walk(s[end..]).value;
    var z := Scan(Nops(k)).value;
    assert x + m + y == x + (m + y) && x + z + y == x + (z + y);
    NestedAfter(x, m + y, 0, false);
    NestedAfter(x, z + y, 0, false);
    var (d, done) := After(x, 0, false).value;
    NodeSome(m);
    NotDone(m + y, d, done);
    if d == 0 {
      RootOpened(x, 0);
      assert false;
    }
    WalkNoEnd(s);
    assert NoEnd(m) by { assert forall t | t in m :: t in x + m + y; }
    NestedNode(m, y, d);
    NestedPlain(z, y, d);
  }

  lemma NodeSome(m: seq<Token>)
    requires IsNode(m)
    ensures m != []
  {
  }

  lemma {:induction false} NopsPlain(k: nat)
    ensures Scan(Nops(k)).Some? && Level0(Scan(Nops(k)).value)
  {
    hide First, Scan, TagWord;
    if k == 0 {
      ScanNone();
    } else {
      NopsPlain(k - 1);
      FirstPlain(Nop, []);
      var w := TagWord(NOP);
      assert w + [] == w;
      ScanOne(w);
      ScanAppend(w, Nops(k - 1));
    }
  }
}
