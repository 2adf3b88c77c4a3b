/**
 Editing a finished blob in place: deleting and blanking out properties and nodes, and setting
 properties. Every edit is stated as a change to the list of events a reader of the blob sees.
 */
module FdtEdit {
  import opened Basics
  import opened FdtFormat
  import opened FdtProps

  // ---- replacing pieces

  /** The events before and after a token boundary. */
  lemma EventsAt(s: Bytes, strings: Bytes, off: nat)
    requires Boundary(s, off) && Events(s, strings).Some?
    ensures var x := Meaning(Scan(s[..off]).value, strings); var y := Events(s[off..], strings);
            x.Some? && y.Some? && Events(s, strings).value == x.value + y.value
  {
    hide Scan, Walk, Meaning;
    assert s == s[..off] + s[off..];
    EventsAppend(s[..off], s[off..], strings);
  }

  /** A piece of the block replaced by another, with strings added at the end. */
  lemma PieceReplaced(s: Bytes, strings: Bytes, off: nat, end: nat, w: Bytes, more: Bytes)
    requires Boundary(s, off) && off <= end <= |s| && Scan(s[off..end]).Some? && Events(s, strings).Some?
    requires Scan(w).Some? && Meaning(Scan(w).value, strings + more).Some?
    ensures var x := Meaning(Scan(s[..off]).value, strings); var m := Meaning(Scan(s[off..end]).value, strings);
            var y := Events(s[end..], strings);
            && x.Some? && m.Some? && y.Some?
            && Events(s, strings).value == x.value + m.value + y.value
            && Events(s[..off] + w + s[end..], strings + more) ==
                 Some(x.value + Meaning(Scan(w).value, strings + more).value + y.value)
  {
    hide Scan, Walk, Meaning;
    var a, b := s[..off], s[end..];
    EventsAt(s, strings, off);
    BoundaryBetween(s, off, end);
    EventsAt(s, strings, end);
    MeaningAppend(Scan(a).value, Scan(s[off..end]).value, strings);
    MeaningBefore(Scan(a).value, strings, more);
    MeaningBefore(Walk(b).value, strings, more);
    EventsAppend(w, b, strings + more);
    EventsAppend(a, w + b, strings + more);
    assert a + w + b == a + (w + b);
    var x, y := Meaning(Scan(a).value, strings).value, Events(b, strings).value;
    var m' := Meaning(Scan(w).value, strings + more).value;
    WalkAppend(w, b);
    assert x + (m' + y) == x + m' + y;
  }

  /** Nothing, or as many words of padding, in place of a piece. */
  lemma PieceDropped(s: Bytes, strings: Bytes, off: nat, end: nat, k: nat)
    requires Boundary(s, off) && off <= end <= |s| && Scan(s[off..end]).Some? && Events(s, strings).Some?
    ensures var x := Meaning(Scan(s[..off]).value, strings); var m := Meaning(Scan(s[off..end]).value, strings);
            var y := Events(s[end..], strings);
            && x.Some? && m.Some? && y.Some?
            && Events(s, strings).value == x.value + m.value + y.value
            && Events(s[..off] + Nops(k) + s[end..], strings) == Some(x.value + y.value)
  {
    hide Scan, Walk, Meaning, Nops, Events;
    NopsMeanNothing(k, strings);
    assert strings + [] == strings;
    PieceReplaced(s, strings, off, end, Nops(k), []);
    var x := Meaning(Scan(s[..off]).value, strings).value;
    assert x + [] == x;
  }

  // ---- edits of the events

  /** How many events precede a token boundary. */
  ghost function Place(s: Bytes, strings: Bytes, off: int): nat
    requires Boundary(s, off) && Events(s, strings).Some?
  {
    EventsAt(s, strings, off);
    |Meaning(Scan(s[..off]).value, strings).value|
  }

  /** The value of a property of the node that opens at event n. */
  ghost function Lookup(ev: seq<Event>, n: nat, name: Bytes): Option<Bytes> {
    var j := FindEntry(ev, n + 1, name);
    if j.None? then None else Some(ev[j.value].value)
  }

  /** The node at n without its property of a name. */
  ghost function CutEntry(ev: seq<Event>, n: nat, name: Bytes): seq<Event> {
    var j := FindEntry(ev, n + 1, name);
    if j.None? then ev else ev[..j.value] + ev[j.value + 1..]
  }

  /** The node at n with a property set: in place, or else as the node's first. */
  ghost function SetEntry(ev: seq<Event>, n: nat, name: Bytes, value: Bytes): seq<Event>
    requires n < |ev|
  {
    var j := FindEntry(ev, n + 1, name);
    if j.None? then ev[..n + 1] + [Entry(name, value)] + ev[n + 1..] else ev[j.value := Entry(name, value)]
  }

  /** The event behind the one that closes the d-th node open at i. */
  ghost function CloseOf(ev: seq<Event>, i: nat, d: nat): (r: nat)
    requires i <= |ev|
    ensures i <= r <= |ev|
    decreases |ev| - i
  {
    if i == |ev| then i
    else match ev[i]
      case Open(_) => CloseOf(ev, i + 1, d + 1)
      case Close => if d == 0 then i + 1 else CloseOf(ev, i + 1, d - 1)
      case Entry(_, _) => CloseOf(ev, i + 1, d)
  }

  /** The tree without the node that opens at n. */
  ghost function CutNode(ev: seq<Event>, n: nat): seq<Event>
    requires n < |ev|
  {
    ev[..n] + ev[CloseOf(ev, n + 1, 0)..]
  }

  /** Reading a property that was set, and reading others. */
  lemma LookupSet(ev: seq<Event>, n: nat, name: Bytes, value: Bytes, other: Bytes)
    requires n < |ev| && ev[n].Open?
    ensures Lookup(SetEntry(ev, n, name, value), n, name) == Some(value)
    ensures other != name ==> Lookup(SetEntry(ev, n, name, value), n, other) == Lookup(ev, n, other)
  {
    var j := FindEntry(ev, n + 1, name);
    var out := SetEntry(ev, n, name, value);
    if j.None? {
      var a, b := ev[..n + 1] + [Entry(name, value)], ev[n + 1..];
      assert ev == ev[..n + 1] + b && out == a + b;
      assert out[n + 1] == Entry(name, value);
      if other != name {
        FindBehind(a, b, 0, other);
        FindBehind(ev[..n + 1], b, 0, other);
        assert FindEntry(out, n + 1, other) == FindEntry(out, n + 2, other);
      }
    } else {
      FindOver(ev, n + 1, j.value, name, value, other);
    }
  }

  /** Reading after a property has been removed: others as before, and the next one of that name if there is one. */
  lemma LookupCut(ev: seq<Event>, n: nat, name: Bytes, other: Bytes)
    requires n < |ev|
    ensures other != name ==> Lookup(CutEntry(ev, n, name), n, other) == Lookup(ev, n, other)
    ensures var j := FindEntry(ev, n + 1, name);
            Lookup(CutEntry(ev, n, name), n, name) == if j.None? then None else Lookup(ev, j.value, name)
  {
    hide FindEntry;
    if FindEntry(ev, n + 1, name).Some? {
      FindCut(ev, n + 1, FindEntry(ev, n + 1, name).value, name, other);
      FindCut(ev, n + 1, FindEntry(ev, n + 1, name).value, name, name);
    }
  }

  lemma {:induction false} FindCut(ev: seq<Event>, i: nat, j: nat, name: Bytes, other: Bytes)
    requires i <= j < |ev| && FindEntry(ev, i, name) == Some(j)
    ensures var out := ev[..j] + ev[j + 1..];
            var was, now := FindEntry(ev, if other == name then j + 1 else i, other), FindEntry(out, i, other);
            && was.Some? == now.Some?
            && (was.Some? ==> was.value != j && now.value == if was.value < j then was.value else was.value - 1)
            && (was.Some? ==> ev[was.value] == out[now.value])
    decreases j - i
  {
    var out := ev[..j] + ev[j + 1..];
    if i < j {
      FindCut(ev, i + 1, j, name, other);
    } else {
      assert ev == ev[..j + 1] + ev[j + 1..];
      FindBehind(ev[..j + 1], ev[j + 1..], 0, other);
      FindBehind(ev[..j], ev[j + 1..], 0, other);
    }
  }

  lemma {:induction false} FindOver(ev: seq<Event>, i: nat, j: nat, name: Bytes, value: Bytes, other: Bytes)
    requires i <= j < |ev| && FindEntry(ev, i, name) == Some(j)
    ensures var out := ev[j := Entry(name, value)];
            && FindEntry(out, i, name) == Some(j)
            && (other != name ==> FindEntry(out, i, other) == FindEntry(ev, i, other)
                                  && (FindEntry(ev, i, other).Some? ==> FindEntry(ev, i, other).value != j))
    decreases j - i
  {
    var out := ev[j := Entry(name, value)];
    if i < j {
      FindOver(ev, i + 1, j, name, value, other);
    } else if other != name {
      assert FindEntry(ev, j, other) == FindEntry(ev, j + 1, other) &&
        FindEntry(out, j, other) == FindEntry(out, j + 1, other);
      FindTail(ev, out, j + 1, other);
    }
  }

  /** A search depends on what lies ahead only. */
  lemma FindTail(a: seq<Event>, b: seq<Event>, i: nat, name: Bytes)
    requires |a| == |b| && i <= |a| && a[i..] == b[i..]
    ensures FindEntry(a, i, name) == FindEntry(b, i, name)
  {
    hide FindEntry;
    assert a == a[..i] + a[i..] && b == b[..i] + b[i..];
    FindBehind(a[..i], a[i..], 0, name);
    FindBehind(b[..i], b[i..], 0, name);
  }
}
