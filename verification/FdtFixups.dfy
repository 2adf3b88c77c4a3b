/**
 The local fixups of an overlay, read from the bytes. They are a tree like the overlay's: each of its
 properties lists, as 32-bit numbers, the offsets of the references in the property of that name in the
 overlay's node of that path.
 */
module FdtFixups {
  import opened Basics
  import opened FdtFormat
  import opened FdtNodes
  import opened FdtTree
  import opened FdtLookup
  import opened FdtForest
  import opened FdtTwin
  import opened FdtOverlay
  import opened FdtPhandle

  /** The j-th number of the i-th property of the fixup node that the child indices lead to. */
  datatype Site = Site(way: seq<nat>, i: nat, j: nat)

  ghost function Reached(n: Node, way: seq<nat>): Option<Node> {
    if way == [] then Some(n)
    else if way[0] < |n.kids| then Reached(n.kids[way[0]], way[1..])
    else None
  }

  /** The overlay's node for that fixup node. */
  ghost function Matched(tree: Node, fix: Node, way: seq<nat>): Option<Node> {
    if way == [] then Some(tree)
    else if way[0] >= |fix.kids| || FindKid(tree, fix.kids[way[0]].name, 0).None? then None
    else Matched(tree.kids[FindKid(tree, fix.kids[way[0]].name, 0).value], fix.kids[way[0]], way[1..])
  }

  ghost function NamesOn(fix: Node, way: seq<nat>): seq<Bytes> {
    if way == [] || way[0] >= |fix.kids| then []
    else [fix.kids[way[0]].name] + NamesOn(fix.kids[way[0]], way[1..])
  }

  /** It is the node that a search for the names on the way ends at. */
  lemma {:induction false} MatchedByPath(s: Bytes, strings: Bytes, tree: Node, fix: Node, way: seq<nat>)
    requires Here(s, strings, tree) && Reached(fix, way).Some?
    ensures Descend(s, tree.at, NamesOn(fix, way)) ==
            if Matched(tree, fix, way).None? then -ERR_NOTFOUND else Matched(tree, fix, way).value.at
    ensures Matched(tree, fix, way).Some? ==> Here(s, strings, Matched(tree, fix, way).value)
    decreases |way|
  {
    hide Here, SubNode, FindKid;
    if way != [] {
      var kid := fix.kids[way[0]];
      FindKidHere(s, strings, tree, kid.name);
      var t := FindKid(tree, kid.name, 0);
      assert NamesOn(fix, way)[1..] == NamesOn(kid, way[1..]);
      if t.Some? {
        KidHere(s, strings, tree, t.value);
        MatchedByPath(s, strings, tree.kids[t.value], kid, way[1..]);
      }
    }
  }

  lemma {:induction false} ReachedHere(s: Bytes, strings: Bytes, fix: Node, way: seq<nat>)
    requires Here(s, strings, fix) && Reached(fix, way).Some?
    ensures Here(s, strings, Reached(fix, way).value)
    decreases |way|
  {
    hide Here;
    if way != [] {
      KidHere(s, strings, fix, way[0]);
      ReachedHere(s, strings, fix.kids[way[0]], way[1..]);
    }
  }

  // ---- what a number lists

  /** A number among the fixups, and the reference it lists, by the values of the properties. */
  ghost predicate Lists(tree: Node, fix: Node, vals: Values, x: Site, r: Ref) {
    var fn, tn := Reached(fix, x.way), Matched(tree, fix, x.way);
    && fn.Some? && tn.Some? && x.i < |fn.value.props|
    && FindProp(tn.value, fn.value.props[x.i].name, 0) == Some(r.slot)
    && Inside(vals, Ref(fn.value.props[x.i].slot, 4 * x.j))
    && r.off == Number(vals, Ref(fn.value.props[x.i].slot, 4 * x.j))
  }

  /** The same by the bytes: the property at q has its length at q + 4 and its value from q + 12 on. */
  ghost predicate ListsAt(s: Bytes, tree: Node, fix: Node, x: Site, r: Ref) {
    var fn, tn := Reached(fix, x.way), Matched(tree, fix, x.way);
    && fn.Some? && tn.Some? && x.i < |fn.value.props|
    && FindProp(tn.value, fn.value.props[x.i].name, 0) == Some(r.slot)
    && var q := fn.value.props[x.i].slot;
    && q + 16 + 4 * x.j <= |s| && 4 * x.j + 4 <= U32(s[q + 4..q + 8])
    && r.off == U32(s[q + 12 + 4 * x.j..q + 16 + 4 * x.j])
  }

  lemma ListsBytes(s: Bytes, strings: Bytes, tree: Node, fix: Node, x: Site, r: Ref)
    requires Here(s, strings, fix)
    ensures Lists(tree, fix, ValuesOf(s), x, r) <==> ListsAt(s, tree, fix, x, r)
  {
    hide Here, U32, Number, Matched, Reached, FindProp, ValuesOf;
    var fn := Reached(fix, x.way);
    if fn.Some? && x.i < |fn.value.props| {
      ReachedHere(s, strings, fix, x.way);
      var q := fn.value.props[x.i].slot;
      OwnSlotsHere(s, strings, fn.value);
      assert q in OwnSlots(fn.value);
      LengthBytes(s, q);
      if Inside(ValuesOf(s), Ref(q, 4 * x.j)) {
        NumberBytes(s, Ref(q, 4 * x.j));
      }
    }
  }

  lemma LengthBytes(s: Bytes, q: nat)
    requires q < |s| && Boundary(s, q) && TagAt(s, q).0 == PROP
    ensures q + 12 <= |s| && |ValuesOf(s)| == |s| && |ValuesOf(s)[q]| == U32(s[q + 4..q + 8])
    ensures q + 12 + |ValuesOf(s)[q]| <= |s|
  {
    hide U32, First, TagAt, Boundary, ValueAt;
    ValueBytes(s, q);
  }

  // ---- all that is listed

  ghost predicate Within(x: Site, i: nat, k: nat) {
    if x.way == [] then x.i < i else x.way[0] < k
  }

  ghost predicate Once(sites: seq<Site>) {
    forall a, b | 0 <= a < b < |sites| :: sites[a] != sites[b]
  }

  ghost predicate EachLists(tree: Node, fix: Node, vals: Values, sites: seq<Site>, rs: seq<Ref>) {
    |sites| == |rs| && forall m | 0 <= m < |rs| :: Lists(tree, fix, vals, sites[m], rs[m])
  }

  ghost predicate AllWithin(sites: seq<Site>, i: nat, k: nat) {
    forall m | 0 <= m < |sites| :: Within(sites[m], i, k)
  }

  ghost predicate Complete(tree: Node, fix: Node, vals: Values, sites: seq<Site>, i: nat, k: nat) {
    forall x, r | Lists(tree, fix, vals, x, r) && Within(x, i, k) :: x in sites
  }

  /** The references listed by a node's first i properties and below its first k children, each with its number. */
  ghost predicate Sited(tree: Node, fix: Node, vals: Values, sites: seq<Site>, rs: seq<Ref>, i: nat, k: nat) {
    && EachLists(tree, fix, vals, sites, rs) && AllWithin(sites, i, k) && Once(sites)
    && Complete(tree, fix, vals, sites, i, k)
  }

  lemma {:induction false} ListIs(v: Bytes, slot: nat, size: nat, k: nat)
    requires 4 * k <= |v| && ListTo(v, slot, size, k).Some?
    ensures var rs := ListTo(v, slot, size, k).value;
            |rs| == k && forall j | 0 <= j < k :: rs[j] == Ref(slot, U32(v[4 * j..4 * j + 4]))
    decreases k
  {
    hide U32;
    if k > 0 {
      ListIs(v, slot, size, k - 1);
    }
  }

  ghost function OwnSites(i: nat, n: nat): (r: seq<Site>)
    ensures |r| == n && forall j | 0 <= j < n :: r[j] == Site([], i, j)
  {
    seq(n, j requires 0 <= j < n => Site([], i, j))
  }

  /** The numbers of one property. */
  lemma PropSites(tree: Node, fix: Node, vals: Values, i: nat)
    requires i < |fix.props| && PropRefs(tree, fix, vals, i).Some?
    ensures var q := fix.props[i].slot; q < |vals| && |vals[q]| % 4 == 0
    ensures EachLists(tree, fix, vals, OwnSites(i, |vals[fix.props[i].slot]| / 4), PropRefs(tree, fix, vals, i).value)
  {
    hide U32, FindProp;
    var q, t := fix.props[i].slot, FindProp(tree, fix.props[i].name, 0);
    ListIs(vals[q], t.value, |vals[t.value]|, |vals[q]| / 4);
  }

  lemma PropComplete(tree: Node, fix: Node, vals: Values, i: nat, x: Site, r: Ref)
    requires i < |fix.props| && PropRefs(tree, fix, vals, i).Some? && Lists(tree, fix, vals, x, r)
    requires x.way == [] && x.i == i
    ensures x in OwnSites(i, |vals[fix.props[i].slot]| / 4)
  {
    hide U32, FindProp, Number;
    var n := |vals[fix.props[i].slot]| / 4;
    assert x == OwnSites(i, n)[x.j];
  }

  lemma {:induction false} PropsSites(tree: Node, fix: Node, vals: Values, i: nat) returns (sites: seq<Site>)
    requires i <= |fix.props| && PropRefsTo(tree, fix, vals, i).Some?
    ensures Sited(tree, fix, vals, sites, PropRefsTo(tree, fix, vals, i).value, i, 0)
    decreases i
  {
    hide PropRefs, Lists;
    if i == 0 {
      sites := [];
    } else {
      var front := PropsSites(tree, fix, vals, i - 1);
      PropSites(tree, fix, vals, i - 1);
      var own := OwnSites(i - 1, |vals[fix.props[i - 1].slot]| / 4);
      sites := front + own;
      forall x, r | Lists(tree, fix, vals, x, r) && Within(x, i, 0)
        ensures x in sites
      {
        if x.i == i - 1 {
          PropComplete(tree, fix, vals, i - 1, x, r);
        }
      }
    }
  }

  /** Seen from the parent of the k-th child. */
  ghost function Below(k: nat, sites: seq<Site>): (r: seq<Site>)
    ensures |r| == |sites| && forall m | 0 <= m < |r| :: r[m] == Site([k] + sites[m].way, sites[m].i, sites[m].j)
  {
    seq(|sites|, m requires 0 <= m < |sites| => Site([k] + sites[m].way, sites[m].i, sites[m].j))
  }

  lemma ListsBelow(tree: Node, fix: Node, vals: Values, k: nat, t: nat, x: Site, r: Ref)
    requires k < |fix.kids| && FindKid(tree, fix.kids[k].name, 0) == Some(t)
    ensures Lists(tree, fix, vals, Site([k] + x.way, x.i, x.j), r) <==> Lists(tree.kids[t], fix.kids[k], vals, x, r)
  {
    hide FindProp, FindKid, Number;
    var way := [k] + x.way;
    assert way[1..] == x.way;
  }

  lemma BelowOnce(k: nat, sites: seq<Site>)
    requires Once(sites)
    ensures Once(Below(k, sites))
  {
    forall a, b | 0 <= a < b < |sites| ensures Below(k, sites)[a] != Below(k, sites)[b] {
      var x, y := Below(k, sites)[a], Below(k, sites)[b];
      assert x.way[1..] == sites[a].way && y.way[1..] == sites[b].way;
    }
  }

  /** What a child's fixups list. */
  lemma KidSites(tree: Node, fix: Node, vals: Values, k: nat, t: nat, sites: seq<Site>, rs: seq<Ref>)
    requires k < |fix.kids| && FindKid(tree, fix.kids[k].name, 0) == Some(t)
    requires var kid := fix.kids[k]; Sited(tree.kids[t], kid, vals, sites, rs, |kid.props|, |kid.kids|)
    ensures EachLists(tree, fix, vals, Below(k, sites), rs) && Once(Below(k, sites))
    ensures forall x, r | Lists(tree, fix, vals, x, r) && x.way != [] && x.way[0] == k :: x in Below(k, sites)
  {
    hide Lists, FindKid;
    BelowOnce(k, sites);
    forall m | 0 <= m < |rs| ensures Lists(tree, fix, vals, Below(k, sites)[m], rs[m]) {
      ListsBelow(tree, fix, vals, k, t, sites[m], rs[m]);
    }
    forall x, r | Lists(tree, fix, vals, x, r) && x.way != [] && x.way[0] == k
      ensures x in Below(k, sites)
    {
      var y := Site(x.way[1..], x.i, x.j);
      assert x.way == [k] + y.way;
      ListsBelow(tree, fix, vals, k, t, y, r);
      ListsWithin(tree.kids[t], fix.kids[k], vals, y, r);
      var m :| 0 <= m < |sites| && sites[m] == y;
      assert Below(k, sites)[m] == x;
    }
  }

  lemma ListsWithin(tree: Node, fix: Node, vals: Values, x: Site, r: Ref)
    requires Lists(tree, fix, vals, x, r)
    ensures Within(x, |fix.props|, |fix.kids|)
  {
  }

  lemma SitedMore(tree: Node, fix: Node, vals: Values, a: seq<Site>, ra: seq<Ref>, b: seq<Site>, rb: seq<Ref>, k: nat)
    requires Sited(tree, fix, vals, a, ra, |fix.props|, k) && EachLists(tree, fix, vals, b, rb) && Once(b)
    requires forall m | 0 <= m < |b| :: b[m].way != [] && b[m].way[0] == k
    requires forall x, r | Lists(tree, fix, vals, x, r) && x.way != [] && x.way[0] == k :: x in b
    ensures Sited(tree, fix, vals, a + b, ra + rb, |fix.props|, k + 1)
  {
    hide Lists;
    forall x, r | Lists(tree, fix, vals, x, r) && Within(x, |fix.props|, k + 1)
      ensures x in a + b
    {
      assert Within(x, |fix.props|, k) || (x.way != [] && x.way[0] == k);
    }
  }

  lemma {:induction false} RefsSites(tree: Node, fix: Node, vals: Values, k: nat) returns (sites: seq<Site>)
    requires k <= |fix.kids| && RefsTo(tree, fix, vals, k).Some?
    ensures Sited(tree, fix, vals, sites, RefsTo(tree, fix, vals, k).value, |fix.props|, k)
    decreases fix, k
  {
    hide PropRefsTo, FindKid, Sited, EachLists;
    if k == 0 {
      sites := PropsSites(tree, fix, vals, |fix.props|);
    } else {
      var front := RefsSites(tree, fix, vals, k - 1);
      var kid, t := fix.kids[k - 1], FindKid(tree, fix.kids[k - 1].name, 0).value;
      var own := RefsSites(tree.kids[t], kid, vals, |kid.kids|);
      var rs := Refs(tree.kids[t], kid, vals).value;
      KidSites(tree, fix, vals, k - 1, t, own, rs);
      SitedMore(tree, fix, vals, front, RefsTo(tree, fix, vals, k - 1).value, Below(k - 1, own), rs, k - 1);
      sites := front + Below(k - 1, own);
    }
  }

  /** References and the numbers in the bytes that list them: every number of the fixups, once and in order. */
  ghost predicate SitedAt(s: Bytes, tree: Node, fix: Node, sites: seq<Site>, rs: seq<Ref>) {
    && |sites| == |rs| && Once(sites)
    && (forall m | 0 <= m < |rs| :: ListsAt(s, tree, fix, sites[m], rs[m]))
    && forall x, r | ListsAt(s, tree, fix, x, r) :: x in sites
  }

  /** What is listed is what the bytes of the fixups say, with nothing missing and nothing added. */
  lemma ListedExactly(s: Bytes, strings: Bytes, tree: Node, fix: Node) returns (sites: seq<Site>)
    requires Here(s, strings, fix) && Refs(tree, fix, ValuesOf(s)).Some?
    ensures SitedAt(s, tree, fix, sites, Refs(tree, fix, ValuesOf(s)).value)
    ensures forall r :: r in Refs(tree, fix, ValuesOf(s)).value <==> exists x :: ListsAt(s, tree, fix, x, r)
  {
    hide Here, Lists, ListsAt, RefsTo;
    var vals := ValuesOf(s);
    var rs := Refs(tree, fix, vals).value;
    sites := RefsSites(tree, fix, vals, |fix.kids|);
    forall m | 0 <= m < |rs| ensures ListsAt(s, tree, fix, sites[m], rs[m]) {
      ListsBytes(s, strings, tree, fix, sites[m], rs[m]);
    }
    forall x, r | ListsAt(s, tree, fix, x, r) ensures x in sites && r in rs {
      ListsBytes(s, strings, tree, fix, x, r);
      ListsWithin(tree, fix, vals, x, r);
      var m :| 0 <= m < |sites| && sites[m] == x;
      OneReference(s, tree, fix, x, r, rs[m]);
    }
  }

  lemma OneReference(s: Bytes, tree: Node, fix: Node, x: Site, r: Ref, q: Ref)
    requires ListsAt(s, tree, fix, x, r) && ListsAt(s, tree, fix, x, q)
    ensures r == q
  {
  }

  // ---- fixups that cannot be applied

  /** A property of the fixups with whole numbers, all of them offsets of a number in the property of that name. */
  ghost predicate PropFits(tn: Node, fn: Node, vals: Values, i: nat)
    requires i < |fn.props|
  {
    var q, t := fn.props[i].slot, FindProp(tn, fn.props[i].name, 0);
    && q < |vals| && |vals[q]| % 4 == 0 && t.Some? && t.value < |vals|
    && NumbersFit(vals, q, |vals[t.value]|)
  }

  ghost predicate NumbersFit(vals: Values, q: nat, size: nat) {
    forall j: nat :: NumberFits(vals, q, j, size)
  }

  ghost predicate NumberFits(vals: Values, q: nat, j: nat, size: nat) {
    Inside(vals, Ref(q, 4 * j)) ==> Number(vals, Ref(q, 4 * j)) + 4 <= size
  }

  /** The same by the bytes. */
  ghost predicate FitsAt(s: Bytes, tn: Node, fn: Node, i: nat)
    requires i < |fn.props|
  {
    var q, t := fn.props[i].slot, FindProp(tn, fn.props[i].name, 0);
    && t.Some? && t.value + 12 <= |s| && q + 12 <= |s| && U32(s[q + 4..q + 8]) % 4 == 0
    && OffsetsFit(s, q, U32(s[t.value + 4..t.value + 8]))
  }

  ghost predicate OffsetsFit(s: Bytes, q: nat, size: nat)
    requires q + 12 <= |s|
  {
    forall j: nat :: OffsetFits(s, q, j, size)
  }

  ghost predicate OffsetFits(s: Bytes, q: nat, j: nat, size: nat)
    requires q + 12 <= |s|
  {
    q + 16 + 4 * j <= |s| && 4 * j + 4 <= U32(s[q + 4..q + 8]) ==> U32(s[q + 12 + 4 * j..q + 16 + 4 * j]) + 4 <= size
  }

  lemma {:induction false} ListFits(vals: Values, q: nat, slot: nat, size: nat, k: nat)
    requires q < |vals| && 4 * k <= |vals[q]|
    ensures ListTo(vals[q], slot, size, k).Some? <==> forall j: nat | j < k :: NumberFits(vals, q, j, size)
    decreases k
  {
    hide U32;
    if k > 0 {
      ListFits(vals, q, slot, size, k - 1);
      assert NumberFits(vals, q, k - 1, size) <==> OffsetAt(vals[q], k - 1) + 4 <= size;
    }
  }

  lemma PropFitsIs(tree: Node, fix: Node, vals: Values, i: nat)
    requires i < |fix.props|
    ensures PropRefs(tree, fix, vals, i).Some? <==> PropFits(tree, fix, vals, i)
  {
    hide U32, FindProp, Number, ListTo;
    var q, t := fix.props[i].slot, FindProp(tree, fix.props[i].name, 0);
    if q < |vals| && |vals[q]| % 4 == 0 && t.Some? && t.value < |vals| {
      var n, size := |vals[q]| / 4, |vals[t.value]|;
      ListFits(vals, q, t.value, size, n);
      forall j: nat | j >= n ensures NumberFits(vals, q, j, size) {
      }
    }
  }

  lemma {:induction false} PropsFit(tree: Node, fix: Node, vals: Values, i: nat)
    requires i <= |fix.props|
    ensures PropRefsTo(tree, fix, vals, i).Some? <==> forall m | 0 <= m < i :: PropFits(tree, fix, vals, m)
    decreases i
  {
    hide PropRefs, PropFits;
    if i > 0 {
      PropsFit(tree, fix, vals, i - 1);
      PropFitsIs(tree, fix, vals, i - 1);
    }
  }

  ghost predicate WayFits(tree: Node, fix: Node, vals: Values, way: seq<nat>)
    requires Reached(fix, way).Some?
  {
    var fn, tn := Reached(fix, way).value, Matched(tree, fix, way);
    tn.Some? && forall i | 0 <= i < |fn.props| :: PropFits(tn.value, fn, vals, i)
  }

  ghost predicate FitTo(tree: Node, fix: Node, vals: Values, k: nat) {
    forall way | Reached(fix, way).Some? && (way == [] || way[0] < k) :: WayFits(tree, fix, vals, way)
  }

  lemma FitBelow(tree: Node, fix: Node, vals: Values, k: nat, way: seq<nat>)
    requires k < |fix.kids| && way != [] && way[0] == k && Reached(fix, way).Some?
    ensures Reached(fix.kids[k], way[1..]).Some?
    ensures var t := FindKid(tree, fix.kids[k].name, 0);
            WayFits(tree, fix, vals, way) <==> t.Some? && WayFits(tree.kids[t.value], fix.kids[k], vals, way[1..])
  {
    hide FindKid, PropFits;
  }

  lemma KidFits(tree: Node, fix: Node, vals: Values, k: nat)
    requires k < |fix.kids|
    ensures var t := FindKid(tree, fix.kids[k].name, 0);
            FitTo(tree, fix, vals, k + 1) <==>
              FitTo(tree, fix, vals, k) && t.Some? && FitTo(tree.kids[t.value], fix.kids[k], vals, |fix.kids[k].kids|)
  {
    hide FindKid, WayFits;
    var kid, t := fix.kids[k], FindKid(tree, fix.kids[k].name, 0);
    if FitTo(tree, fix, vals, k + 1) {
      ReachKid(fix, k, []);
      FitBelow(tree, fix, vals, k, [k] + []);
      forall way | Reached(kid, way).Some? ensures WayFits(tree.kids[t.value], kid, vals, way) {
        ReachKid(fix, k, way);
        FitBelow(tree, fix, vals, k, [k] + way);
      }
    } else if FitTo(tree, fix, vals, k) && t.Some? {
      var way :| Reached(fix, way).Some? && (way == [] || way[0] < k + 1) && !WayFits(tree, fix, vals, way);
      FitBelow(tree, fix, vals, k, way);
      ReachWithin(kid, way[1..]);
    }
  }

  lemma ReachKid(fix: Node, k: nat, way: seq<nat>)
    requires k < |fix.kids| && Reached(fix.kids[k], way).Some?
    ensures var w := [k] + way; Reached(fix, w).Some? && w[0] == k && w[1..] == way
  {
    assert ([k] + way)[1..] == way;
  }

  lemma ReachWithin(fix: Node, way: seq<nat>)
    requires Reached(fix, way).Some?
    ensures way == [] || way[0] < |fix.kids|
  {
  }

  lemma {:induction false} RefsFit(tree: Node, fix: Node, vals: Values, k: nat)
    requires k <= |fix.kids|
    ensures RefsTo(tree, fix, vals, k).Some? <==> FitTo(tree, fix, vals, k)
    decreases fix, k
  {
    hide FindKid, FitTo, PropRefsTo;
    if k == 0 {
      PropsFit(tree, fix, vals, |fix.props|);
      OwnFit(tree, fix, vals);
    } else {
      RefsFit(tree, fix, vals, k - 1);
      KidFits(tree, fix, vals, k - 1);
      var kid, t := fix.kids[k - 1], FindKid(tree, fix.kids[k - 1].name, 0);
      if t.Some? {
        RefsFit(tree.kids[t.value], kid, vals, |kid.kids|);
      }
    }
  }

  lemma OwnFit(tree: Node, fix: Node, vals: Values)
    ensures FitTo(tree, fix, vals, 0) <==> forall i | 0 <= i < |fix.props| :: PropFits(tree, fix, vals, i)
  {
    hide PropFits;
    assert Reached(fix, []) == Some(fix) && Matched(tree, fix, []) == Some(tree);
    assert WayFits(tree, fix, vals, []) <==> forall i | 0 <= i < |fix.props| :: PropFits(tree, fix, vals, i);
  }

  lemma NumbersBytes(s: Bytes, q: nat, size: nat)
    requires q < |s| && Boundary(s, q) && TagAt(s, q).0 == PROP
    ensures q + 12 <= |s| && (NumbersFit(ValuesOf(s), q, size) <==> OffsetsFit(s, q, size))
  {
    hide U32, First, TagAt, Boundary, ValuesOf, Number;
    LengthBytes(s, q);
    forall j: nat ensures NumberFits(ValuesOf(s), q, j, size) <==> OffsetFits(s, q, j, size) {
      if Inside(ValuesOf(s), Ref(q, 4 * j)) {
        NumberBytes(s, Ref(q, 4 * j));
      }
    }
  }

  lemma FitsBytes(s: Bytes, strings: Bytes, tn: Node, fn: Node, i: nat)
    requires Here(s, strings, tn) && Here(s, strings, fn) && i < |fn.props|
    ensures PropFits(tn, fn, ValuesOf(s), i) <==> FitsAt(s, tn, fn, i)
  {
    hide Here, U32, FindProp, ValuesOf, NumbersFit, OffsetsFit, Boundary, TagAt;
    var q, t := fn.props[i].slot, FindProp(tn, fn.props[i].name, 0);
    OwnSlotsHere(s, strings, fn);
    assert q in OwnSlots(fn);
    LengthBytes(s, q);
    if t.Some? {
      OwnSlotsHere(s, strings, tn);
      assert t.value in OwnSlots(tn);
      LengthBytes(s, t.value);
      NumbersBytes(s, q, |ValuesOf(s)[t.value]|);
    }
  }

  /** Every fixup node has a node of its path, and each of its properties fits. */
  ghost predicate AllFitAt(s: Bytes, tree: Node, fix: Node) {
    forall way | Reached(fix, way).Some? ::
      && Matched(tree, fix, way).Some?
      && forall i | 0 <= i < |Reached(fix, way).value.props| ::
           FitsAt(s, Matched(tree, fix, way).value, Reached(fix, way).value, i)
  }

  lemma WayFitsBytes(s: Bytes, strings: Bytes, tree: Node, fix: Node, way: seq<nat>)
    requires Here(s, strings, tree) && Here(s, strings, fix) && Reached(fix, way).Some?
    ensures var fn, tn := Reached(fix, way).value, Matched(tree, fix, way);
            WayFits(tree, fix, ValuesOf(s), way) <==>
              tn.Some? && forall i | 0 <= i < |fn.props| :: FitsAt(s, tn.value, fn, i)
  {
    hide Here, PropFits, FitsAt, Matched, Reached;
    var fn, tn := Reached(fix, way).value, Matched(tree, fix, way);
    if tn.Some? {
      ReachedHere(s, strings, fix, way);
      MatchedByPath(s, strings, tree, fix, way);
      forall i | 0 <= i < |fn.props| ensures PropFits(tn.value, fn, ValuesOf(s), i) <==> FitsAt(s, tn.value, fn, i) {
        FitsBytes(s, strings, tn.value, fn, i);
      }
    }
  }

  /** References are listed exactly if everything fits by the bytes. */
  lemma FitsExactly(s: Bytes, strings: Bytes, tree: Node, fix: Node)
    requires Here(s, strings, tree) && Here(s, strings, fix)
    ensures Refs(tree, fix, ValuesOf(s)).Some? <==> AllFitAt(s, tree, fix)
  {
    hide Here, WayFits, FitsAt, Matched, Reached, RefsTo;
    RefsFit(tree, fix, ValuesOf(s), |fix.kids|);
    forall way | Reached(fix, way).Some?
      ensures way == [] || way[0] < |fix.kids|
      ensures var fn, tn := Reached(fix, way).value, Matched(tree, fix, way);
              WayFits(tree, fix, ValuesOf(s), way) <==>
                tn.Some? && forall i | 0 <= i < |fn.props| :: FitsAt(s, tn.value, fn, i)
    {
      ReachWithin(fix, way);
      WayFitsBytes(s, strings, tree, fix, way);
    }
  }
}
