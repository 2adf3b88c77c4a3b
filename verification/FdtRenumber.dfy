/**
 The renumbering of an overlay for a base tree, from blob to blob.
 */
module FdtRenumber {
  import opened Basics
  import opened FdtFormat
  import opened FdtBlob
  import opened FdtNodes
  import opened FdtTree
  import opened FdtProps
  import opened FdtEditOps
  import opened FdtPath
  import opened FdtLookup
  import opened FdtRoundTrip
  import opened FdtForest
  import opened FdtTwin
  import opened FdtOverlay
  import opened FdtAdjust
  import opened FdtRooted
  import opened FdtPhandle
  import opened FdtFixups

  // ---- what a reader sees

  /** The same events but for values, which have the same lengths. */
  ghost predicate Resembles(a: seq<Event>, b: seq<Event>) {
    |a| == |b| && forall i | 0 <= i < |a| :: ResemblesOne(a[i], b[i])
  }

  ghost predicate ResemblesOne(a: Event, b: Event) {
    if a.Entry? then b.Entry? && b.name == a.name && |b.value| == |a.value| else a == b
  }

  lemma {:induction false} TwinEvents(s: Bytes, t: Bytes, strings: Bytes, off: nat)
    requires off % 4 == 0 && off <= |s| == |t| && Twin(s, t, off)
    requires Events(s[off..], strings).Some? && Events(t[off..], strings).Some?
    ensures Resembles(Events(s[off..], strings).value, Events(t[off..], strings).value)
    decreases |s| - off
  {
    hide First, Align4, Scan, Walk, Meaning, Events;
    if TagAt(s, off).0 == END {
      NoEvents(s, strings, off);
      NoEvents(t, strings, off);
    } else {
      EventsFirst(s, strings, off);
      EventsFirst(t, strings, off);
      TwinEvents(s, t, strings, TagAt(s, off).1);
      OneResembles(First(s[off..]).token, First(t[off..]).token, strings);
    }
  }

  lemma OneResembles(t: Token, u: Token, strings: Bytes)
    requires Like(t, u) && MeaningOf(t, strings).Some? && MeaningOf(u, strings).Some?
    ensures Resembles(MeaningOf(t, strings).value, MeaningOf(u, strings).value)
  {
  }

  lemma SeenResembles(s: Bytes, t: Bytes, strings: Bytes)
    requires Twin(s, t, 0) && Events(s, strings).Some? && Events(t, strings).Some?
    ensures Resembles(Events(s, strings).value, Events(t, strings).value)
  {
    hide Twin, Events;
    TwinSize(s, t, 0);
    assert s[0..] == s && t[0..] == t;
    TwinEvents(s, t, strings, 0);
  }

  lemma TwinSize(s: Bytes, t: Bytes, off: int)
    requires Twin(s, t, off)
    ensures |s| == |t|
  {
  }

  // ---- the local fixups

  ghost predicate Says(b: Bytes, text: string) {
    |b| == |text| && forall i | 0 <= i < |b| :: b[i] == text[i] as int
  }

  lemma NamesSpelled()
    ensures Says(PHANDLE, "phandle") && Says(LINUX_PHANDLE, "linux,phandle")
    ensures Says([SLASH] + LOCAL_FIXUPS, "/__local_fixups__")
  {
  }

  /** The local fixups of an overlay, if it has any. */
  ghost function Fixups(root: Node): Option<Node> {
    var k := FindKid(root, LOCAL_FIXUPS, 0);
    if k.None? then None else Some(root.kids[k.value])
  }

  /** The references listed, none without fixups. */
  ghost function Listed(root: Node, vals: Values): Option<seq<Ref>> {
    if Fixups(root).None? then Some([]) else Refs(root, Fixups(root).value, vals)
  }

  /** What the first of the listed references that does not fit leads to. */
  ghost function ListedCode(root: Node, vals: Values): int {
    if Fixups(root).None? then 0 else Code(root, Fixups(root).value, vals)
  }

  /** There is no failure exactly if references are listed. */
  lemma ListedCoded(root: Node, vals: Values)
    ensures ListedCode(root, vals) == 0 <==> Listed(root, vals).Some?
  {
    hide FindKid, CodeTo, RefsTo;
    if Fixups(root).Some? {
      Coded(root, Fixups(root).value, vals, |Fixups(root).value.kids|);
    }
  }

  /** No fixup is about the fixups. */
  ghost predicate Plain(root: Node) {
    Fixups(root).Some? ==> Apart(root, Fixups(root).value, Slots(Fixups(root).value))
  }

  /** Without a phandle among the fixups, moving up the phandles does not change what they list. */
  lemma ListedBefore(root: Node, vals: Values, delta: nat)
    requires Fixups(root).Some? ==> Phandles(root) !! Slots(Fixups(root).value)
    ensures Listed(root, Shifted(vals, Phandles(root), delta)) == Listed(root, vals)
  {
    hide Refs, Slots, Phandles, FindKid;
    if Fixups(root).Some? {
      var fix := Fixups(root).value;
      ShiftedSame(vals, Phandles(root), delta, Slots(fix));
      RefsSameAll(root, fix, vals, Shifted(vals, Phandles(root), delta), Slots(fix));
    }
  }

  /** What the bytes of the fixups list: none without fixups, nothing if one does not fit, else every number's. */
  ghost predicate Listing(s: Bytes, root: Node, rs: Option<seq<Ref>>) {
    if Fixups(root).None? then rs == Some([])
    else
      var fix := Fixups(root).value;
      && (rs.Some? <==> AllFitAt(s, root, fix))
      && (rs.Some? ==>
            && (forall r :: r in rs.value <==> exists x :: ListsAt(s, root, fix, x, r))
            && exists sites :: SitedAt(s, root, fix, sites, rs.value))
  }

  lemma ListedIs(s: Bytes, strings: Bytes, root: Node)
    requires Here(s, strings, root)
    ensures Listing(s, root, Listed(root, ValuesOf(s)))
  {
    hide Here, ValuesOf, Refs, AllFitAt, ListsAt, SitedAt, FindKid;
    if Fixups(root).Some? {
      var fix := Fixups(root).value;
      KidHere(s, strings, root, FindKid(root, LOCAL_FIXUPS, 0).value);
      FitsExactly(s, strings, root, fix);
      if Refs(root, fix, ValuesOf(s)).Some? {
        var sites := ListedExactly(s, strings, root, fix);
      }
    }
  }

  /** The number that a reference stands for in the bytes, 0 outside of them. */
  ghost function Word(s: Bytes, r: Ref): nat {
    if r.slot + 16 + r.off <= |s| then U32(s[r.slot + 12 + r.off..r.slot + 16 + r.off]) else 0
  }

  lemma WordIs(s: Bytes, r: Ref)
    requires Inside(ValuesOf(s), r)
    ensures Word(s, r) == Number(ValuesOf(s), r)
  {
    hide U32, ValuesOf, Number, Inside;
    NumberBytes(s, r);
  }

  /** Among references that are listed once each, one that no other overlaps is alone. */
  lemma AloneAt(s: Bytes, tree: Node, fix: Node, sites: seq<Site>, rs: seq<Ref>, x: Site, r: Ref) returns (k: nat)
    requires SitedAt(s, tree, fix, sites, rs) && ListsAt(s, tree, fix, x, r)
    requires forall y, q | ListsAt(s, tree, fix, y, q) :: y == x || Misses(q, r)
    ensures k < |rs| && rs[k] == r && Alone(rs, k)
  {
    hide ListsAt, Misses;
    k :| k < |sites| && sites[k] == x;
    OneReference(s, tree, fix, x, r, rs[k]);
    forall j | 0 <= j < |rs| && j != k ensures Misses(rs[j], r) {
      assert ListsAt(s, tree, fix, sites[j], rs[j]);
      assert sites[j] != x;
    }
  }

  lemma OutsideAt(s: Bytes, tree: Node, fix: Node, sites: seq<Site>, rs: seq<Ref>, f: set<nat>)
    requires SitedAt(s, tree, fix, sites, rs)
    requires forall y, q | ListsAt(s, tree, fix, y, q) :: q.slot !in f
    ensures Outside(rs, f)
  {
    hide ListsAt;
  }

  lemma InsideBefore(root: Node, vals: Values, rs: seq<Ref>, vals2: Values, delta: nat, k: nat)
    requires Renumbered(root, vals, rs, vals2, delta) && k < |rs|
    ensures Inside(vals, rs[k])
  {
    hide AddAll, Phandles, Up, AllMovable;
    assert Inside(Shifted(vals, Phandles(root), delta), rs[k]);
  }

  /**
   A word of the overlay that one number of the fixups lists, that no other number's word overlaps, and
   that is the phandle of a node: in the renumbered blob it is greater by delta and leads to the same node.
   */
  lemma WordStillLeads(s0: Bytes, strings: Bytes, rs: seq<Ref>, s2: Bytes, delta: nat, x: Site, r: Ref)
    requires BlobRenumbered(s0, strings, rs, s2, delta) && Fixups(Root(s0, strings)).Some?
    requires var root, vals := Root(s0, strings), ValuesOf(s0);
             && Listed(root, Shifted(vals, Phandles(root), delta)) == Some(rs)
             && Phandles(root) !! Slots(Fixups(root).value)
             && ListsAt(s0, root, Fixups(root).value, x, r)
             && forall y, q | ListsAt(s0, root, Fixups(root).value, y, q) ::
                  q.slot !in Phandles(root) && (y == x || Misses(q, r))
    requires Word(s0, r) >= 1 && WithFrom(s0, strings, 0, Word(s0, r)) >= 0
    ensures Word(s2, r) == Word(s0, r) + delta
    ensures WithFrom(s2, strings, 0, Word(s2, r)) == WithFrom(s0, strings, 0, Word(s0, r))
  {
    hide Here, Events, Twin, ValuesOf, Phandles, Slots, Shifted, ListsAt, SitedAt, WithFrom, Word, Number, Rooted, Root,
      FindKid, Refs, Misses, Alone, Inside, Outside, Renumbered;
    var root, vals := Root(s0, strings), ValuesOf(s0);
    var fix := Fixups(root).value;
    ListedBefore(root, vals, delta);
    RootHere(s0, strings);
    KidHere(s0, strings, root, FindKid(root, LOCAL_FIXUPS, 0).value);
    var sites := ListedExactly(s0, strings, root, fix);
    var k := AloneAt(s0, root, fix, sites, rs, x, r);
    OutsideAt(s0, root, fix, sites, rs, Phandles(root));
    InsideBefore(root, vals, rs, ValuesOf(s2), delta, k);
    WordIs(s0, r);
    RefStillLeads(s0, strings, rs, s2, delta, k);
    WordIs(s2, r);
  }

  /** Where the local fixups are. */
  method FindFixups(fdto: Blob, ghost root: Node) returns (fixups: int)
    requires Sees(fdto, root) && root.at == 0
    ensures fixups == if Fixups(root).None? then -ERR_NOTFOUND else Fixups(root).value.at
    ensures Fixups(root).Some? ==> Sees(fdto, Fixups(root).value)
  {
    hide First, TagAt, Here, Events, FindKid, SubNode, Resolve, KidFrom, CheckedNode, Blob.Struct, Blob.Strings, Sees;
    SeesFacts(fdto, root);
    var path := [SLASH] + LOCAL_FIXUPS;
    OneComponent(fdto.Struct(), path, LOCAL_FIXUPS);
    FindKidHere(fdto.Struct(), fdto.Strings(), root, LOCAL_FIXUPS);
    if FindKid(root, LOCAL_FIXUPS, 0).Some? {
      SeesKid(fdto, root, FindKid(root, LOCAL_FIXUPS, 0).value);
    }
    fixups := PathOffset(fdto, path);
  }

  /** Adds to the references that the local fixups list, if there are any. */
  method UpdateReferences(fdto: Blob, delta: nat, ghost root: Node) returns (err: int)
    requires Sees(fdto, root) && Readable(fdto) && root.at == 0 && Plain(root)
    modifies fdto.buf
    ensures Kept(fdto, old(fdto.Struct()), old(fdto.Strings()), old(FrontOf(fdto))) && Readable(fdto)
    ensures err == 0 <==> old(Listed(root, Vals(fdto))).Some?
    ensures err == 0 ==> Applied(fdto, old(Vals(fdto)), old(Listed(root, Vals(fdto))).value, delta, {})
    ensures err == old(ListedCode(root, Vals(fdto)))
  {
    hide First, TagAt, Here, Events, Twin, ValuesOf, AddAll, AllInside, Refs, Apart, Slots, FindKid, Code,
      Blob.Struct, Blob.Strings, Kept, Sees, Outside;
    KeptSelf(fdto);
    var fixups := FindFixups(fdto, root);
    if fixups < 0 {
      AppliedNone(fdto, delta, {});
      return if fixups == -ERR_NOTFOUND then 0 else fixups;
    }
    ghost var fix := Fixups(root).value;
    BothAre(fdto, root, fix);
    err := UpdateNode(fdto, 0, fixups, delta, root, fix, Slots(fix));
    if err == 0 {
      OutsideNone(old(Listed(root, Vals(fdto))).value);
    }
  }

  lemma BothAre(fdt: Blob, tn: Node, fn: Node)
    requires Sees(fdt, tn) && Sees(fdt, fn)
    ensures Both(fdt, tn, fn)
  {
  }

  lemma OutsideNone(rs: seq<Ref>)
    ensures Outside(rs, {})
  {
  }

  // ---- the whole

  /**
   The phandles of an overlay move up by the largest phandle of the base, and the listed references
   with them. Everything else of the overlay, and all of the base, stays as it is. The references are
   those that the fixups list when the phandles have moved, which is what mid is.
   */
  method Renumber(fdto: Blob, fdt: Blob) returns (err: int, delta: nat, ghost mid: Bytes)
    requires fdto.buf != fdt.buf && Finished(fdt)
    requires Readable(fdto) && Rooted(fdto.Struct(), fdto.Strings()) && Plain(Root(fdto.Struct(), fdto.Strings()))
    modifies fdto.buf
    ensures LastCode(fdt.Struct(), 0) != -ERR_NOTFOUND ==> err == LastCode(fdt.Struct(), 0) && Untouched(fdto)
    ensures Readable(fdto) && fdto.Strings() == old(fdto.Strings()) && SameFront(fdto)
    ensures Resembles(old(Seen(fdto)), Seen(fdto))
    ensures LastCode(fdt.Struct(), 0) == -ERR_NOTFOUND ==>
      var root, vals := old(Root(fdto.Struct(), fdto.Strings())), old(Vals(fdto));
      var rs := Listed(root, Shifted(vals, Phandles(root), delta));
      && IsMax(fdt.Struct(), fdt.Strings(), Begins(fdt.Struct(), 0), delta)
      && (err == 0 <==> AllMovable(vals, Phandles(root), delta) && rs.Some?)
      && (err == 0 ==> BlobRenumbered(old(fdto.Struct()), old(fdto.Strings()), rs.value, fdto.Struct(), delta))
      && (if AllMovable(vals, Phandles(root), delta) then
            && err == ListedCode(root, Shifted(vals, Phandles(root), delta))
            && ValuesOf(mid) == Shifted(vals, Phandles(root), delta) && Listing(mid, root, rs)
          else err != 0 && err != OVERRUN)
  {
    hide First, TagAt, Here, Events, Twin, ValuesOf, AddAll, AllInside, Listed, Slots, Phandles, Shifted, AllMovable,
      ListedCode, Blob.Struct, Blob.Strings, Kept, Sees, Outside, Plain, Root, Rooted, IsMax, Begins, LastCode,
        Resembles,
      Fixups, Applied, Listing;
    ghost var s, strings, front, vals := fdto.Struct(), fdto.Strings(), FrontOf(fdto), Vals(fdto);
    ghost var root := Root(s, strings);
    RootHere(s, strings);
    SeesRoot(fdto);
    KeptSelf(fdto);
    KeptSeen(fdto, s, strings, front);
    mid := s;
    err, delta := MaxPhandle(fdt);
    if err != 0 {
      return;
    }
    err := AdjustNode(fdto, 0, delta, root);
    KeptFacts(fdto, s, strings, front);
    KeptSeen(fdto, s, strings, front);
    if err != 0 {
      return;
    }
    mid := fdto.Struct();
    TwinHere(s, mid, strings, root);
    ListedIs(mid, strings, root);
    err := UpdateReferences(fdto, delta, root);
    KeptOn(fdto, s, mid, strings, front);
    KeptFacts(fdto, s, strings, front);
    KeptSeen(fdto, s, strings, front);
    if err == 0 {
      IsRenumbered(fdto, s, strings, Listed(root, Shifted(vals, Phandles(root), delta)).value, delta);
    }
  }

  lemma SeesRoot(fdt: Blob)
    requires Readable(fdt) && Rooted(fdt.Struct(), fdt.Strings())
    ensures Sees(fdt, Root(fdt.Struct(), fdt.Strings()))
  {
    hide Rooted, Root, Events, Here;
    RootHere(fdt.Struct(), fdt.Strings());
  }

  lemma KeptSeen(fdt: Blob, s: Bytes, strings: Bytes, front: Bytes)
    requires Kept(fdt, s, strings, front) && Events(s, strings).Some?
    ensures Readable(fdt) && Resembles(Events(s, strings).value, Seen(fdt))
  {
    hide Events, Twin, Resembles;
    SeenResembles(s, fdt.Struct(), strings);
  }

  lemma IsRenumbered(fdt: Blob, s: Bytes, strings: Bytes, rs: seq<Ref>, delta: nat)
    requires Readable(fdt) && fdt.Strings() == strings && Rooted(s, strings) && Twin(s, fdt.Struct(), 0)
    requires var root := Root(s, strings);
             && AllMovable(ValuesOf(s), Phandles(root), delta)
             && Applied(fdt, Shifted(ValuesOf(s), Phandles(root), delta), rs, delta, {})
    ensures BlobRenumbered(s, strings, rs, fdt.Struct(), delta)
  {
    hide Events, Twin, Rooted, Root, ValuesOf, Phandles, AddAll, AllInside, AllMovable, Shifted;
  }
}
