/**
 Merging what one node holds into another one, as a function of the two trees, and the edits of a
 reader's events that it is made of.
 */
module FdtMerge {
  import opened Basics
  import opened FdtFormat
  import opened FdtTree
  import opened FdtProps
  import opened FdtEdit

  /** What a node holds, in order. */
  datatype Item = Setting(name: Bytes, value: Bytes) | Sub(name: Bytes, items: seq<Item>)

  ghost function FlatOne(t: Item): (ev: seq<Event>)
    ensures |ev| >= 1
    decreases t
  {
    match t
    case Setting(name, value) => [Entry(name, value)]
    case Sub(name, items) => [Open(name)] + Flat(items) + [Close]
  }

  ghost function Flat(items: seq<Item>): seq<Event>
    decreases items
  {
    if items == [] then [] else FlatOne(items[0]) + Flat(items[1..])
  }

  /** A node among what comes before and behind it. */
  ghost function Framed(x: seq<Event>, name: Bytes, items: seq<Item>, y: seq<Event>): (ev: seq<Event>)
    ensures |x| < |ev| && ev[..|x|] == x
  {
    x + [Open(name)] + Flat(items) + [Close] + y
  }

  lemma {:induction false} FlatAppend(a: seq<Item>, b: seq<Item>)
    ensures Flat(a + b) == Flat(a) + Flat(b)
    decreases a
  {
    if a == [] {
      assert a + b == b;
    } else {
      assert (a + b)[0] == a[0] && (a + b)[1..] == a[1..] + b;
      FlatAppend(a[1..], b);
    }
  }

  lemma {:induction false} FlatSplit(items: seq<Item>, j: nat)
    requires j <= |items|
    ensures Flat(items) == Flat(items[..j]) + Flat(items[j..])
    ensures j < |items| ==> Flat(items[j..]) == FlatOne(items[j]) + Flat(items[j + 1..])
  {
    assert items == items[..j] + items[j..];
    FlatAppend(items[..j], items[j..]);
    assert j < |items| ==> items[j..][1..] == items[j + 1..];
  }

  // ---- edits of the events

  /** The first child from event i on that fits; d nodes are open there within the parent. */
  ghost function SubIn(ev: seq<Event>, i: nat, d: nat, given: Bytes): (r: Option<nat>)
    ensures r.Some? ==> i <= r.value < |ev| && ev[r.value].Open?
    decreases |ev| - i
  {
    if i >= |ev| then None
    else match ev[i]
      case Open(name) => if d == 0 && Matches(name, given) then Some(i) else SubIn(ev, i + 1, d + 1, given)
      case Close => if d == 0 then None else SubIn(ev, i + 1, d - 1, given)
      case Entry(_, _) => SubIn(ev, i + 1, d, given)
  }

  /** The first event from i on that is no entry. */
  ghost function EntriesEnd(ev: seq<Event>, i: nat): (e: nat)
    requires i <= |ev|
    ensures i <= e <= |ev| && (e < |ev| ==> !ev[e].Entry?)
    decreases |ev| - i
  {
    if i < |ev| && ev[i].Entry? then EntriesEnd(ev, i + 1) else i
  }

  /** An empty node, put in at an event. */
  ghost function AddNode(ev: seq<Event>, m: nat, name: Bytes): seq<Event>
    requires m <= |ev|
  {
    ev[..m] + [Open(name), Close] + ev[m..]
  }

  // ---- the trees

  /** How many settings come before the first child. */
  ghost function Lead(items: seq<Item>): (n: nat)
    ensures n <= |items| && (n < |items| ==> items[n].Sub?)
    ensures forall i | 0 <= i < n :: items[i].Setting?
  {
    if items == [] || items[0].Sub? then 0 else 1 + Lead(items[1..])
  }

  /** The first of them with a name. */
  ghost function FindSetting(items: seq<Item>, i: nat, name: Bytes): (r: Option<nat>)
    ensures r.Some? ==> i <= r.value < |items| && items[r.value].Setting? && items[r.value].name == name
    decreases |items| - i
  {
    if i < |items| && items[i].Setting? then
      (if items[i].name == name then Some(i) else FindSetting(items, i + 1, name))
    else None
  }

  ghost function SetItem(items: seq<Item>, name: Bytes, value: Bytes): seq<Item> {
    var j := FindSetting(items, 0, name);
    if j.None? then [Setting(name, value)] + items else items[j.value := Setting(name, value)]
  }

  /** The first child that fits a name. */
  ghost function FindSub(items: seq<Item>, i: nat, given: Bytes): (r: Option<nat>)
    ensures r.Some? ==> i <= r.value < |items| && items[r.value].Sub? && Matches(items[r.value].name, given)
    ensures forall k | i <= k < |items| && (r.Some? ==> k < r.value) ::
      items[k].Sub? ==> !Matches(items[k].name, given)
    decreases |items| - i
  {
    if i >= |items| then None
    else if items[i].Sub? && Matches(items[i].name, given) then Some(i)
    else FindSub(items, i + 1, given)
  }

  /** One item merged in: a setting is set, a child goes into the first one that fits, or else is a new first child. */
  ghost function MergeOne(items: seq<Item>, t: Item): seq<Item>
    decreases t, 0
  {
    match t
    case Setting(name, value) => SetItem(items, name, value)
    case Sub(name, its) =>
      var j := FindSub(items, 0, name);
      if j.Some? then items[j.value := Sub(items[j.value].name, Merge(items[j.value].items, its))]
      else items[..Lead(items)] + [Sub(name, Merge([], its))] + items[Lead(items)..]
  }

  ghost function MergeTo(items: seq<Item>, over: seq<Item>, k: nat): seq<Item>
    requires k <= |over|
    decreases over, k
  {
    if k == 0 then items
    else
      assert over[k - 1] in over;
      MergeOne(MergeTo(items, over, k - 1), over[k - 1])
  }

  ghost function Merge(items: seq<Item>, over: seq<Item>): seq<Item>
    decreases over, |over| + 1
  {
    MergeTo(items, over, |over|)
  }

  // ---- the edits do what the trees say

  /** A setting among the events of a node. */
  lemma {:induction false} FindFlat(ev: seq<Event>, i: nat, items: seq<Item>, name: Bytes)
    requires Spells(ev, i, items) && i + |Flat(items)| < |ev| && ev[i + |Flat(items)|] == Close
    ensures FindEntry(ev, i, name) ==
            (var j := FindSetting(items, 0, name); if j.None? then None else Some(i + j.value))
    decreases |items|
  {
    hide Flat, FlatOne, Spells, FindSetting;
    FindNext(items, 0, name);
    if items == [] {
      FlatNone();
    } else {
      SpellsFront(ev, i, items);
      if items[0].Setting? {
        FindFlat(ev, i + 1, items[1..], name);
        assert [items[0]] + items[1..] == items;
        FindShifted(items[0], items[1..], 0, name);
      }
    }
  }

  lemma {:induction false} FindNext(items: seq<Item>, i: nat, name: Bytes)
    ensures FindSetting(items, i, name) ==
            if i < |items| && items[i].Setting? then
              (if items[i].name == name then Some(i) else FindSetting(items, i + 1, name))
            else None
  {
  }

  lemma {:induction false} FlatSettings(items: seq<Item>, i: nat)
    requires i <= |items| && forall k | 0 <= k < i :: items[k].Setting?
    ensures |Flat(items[..i])| == i
    decreases i
  {
    if i > 0 {
      FlatSettings(items, i - 1);
      assert items[..i] == items[..i - 1] + [items[i - 1]];
      FlatAppend(items[..i - 1], [items[i - 1]]);
      assert Flat([items[i - 1]]) == FlatOne(items[i - 1]) + Flat([]);
    }
  }

  lemma {:induction false} FlatUpdate(items: seq<Item>, j: nat, t: Item)
    requires j < |items|
    ensures Flat(items[j := t]) == Flat(items[..j]) + FlatOne(t) + Flat(items[j + 1..])
  {
    var now := items[j := t];
    FlatSplit(now, j);
    assert now[..j] == items[..j] && now[j + 1..] == items[j + 1..];
    assert Flat(now) == Flat(items[..j]) + (FlatOne(t) + Flat(items[j + 1..]));
  }

  /** Setting a property of a node is setting it in the tree. */
  lemma {:induction false} SetFlat(x: seq<Event>, nm: Bytes, items: seq<Item>, y: seq<Event>, name: Bytes, value: Bytes)
    ensures SetEntry(Framed(x, nm, items, y), |x|, name, value) == Framed(x, nm, SetItem(items, name, value), y)
  {
    hide FindEntry, FindSetting, Flat, Spells, Framed;
    FramedParts(x, nm, items, y);
    FindFlat(Framed(x, nm, items, y), |x| + 1, items, name);
    var j := FindSetting(items, 0, name);
    if j.None? {
      SetNew(x, nm, items, y, Setting(name, value));
    } else {
      LeadingTo(items, 0, j.value, name);
      SetOld(x, nm, items, y, j.value, Setting(name, value));
    }
  }

  lemma {:induction false} SetNew(x: seq<Event>, nm: Bytes, items: seq<Item>, y: seq<Event>, t: Item)
    requires t.Setting?
    ensures var ev := Framed(x, nm, items, y);
            ev[..|x| + 1] + [Entry(t.name, t.value)] + ev[|x| + 1..] == Framed(x, nm, [t] + items, y)
  {
    hide Flat;
    SetFront(items, t.name, t.value);
    var ev, a, b := Framed(x, nm, items, y), x + [Open(nm)], Flat(items) + ([Close] + y);
    assert ev == a + b;
    Halves(a, b);
  }

  lemma {:induction false} SetOld(x: seq<Event>, nm: Bytes, items: seq<Item>, y: seq<Event>, j: nat, t: Item)
    requires j < |items| && t.Setting? && forall k | 0 <= k <= j :: items[k].Setting?
    ensures |x| + 1 + j < |Framed(x, nm, items, y)|
    ensures Framed(x, nm, items, y)[|x| + 1 + j := Entry(t.name, t.value)] == Framed(x, nm, items[j := t], y)
  {
    hide Flat;
    FlatSplit(items, j);
    FlatUpdate(items, j, t);
    FlatSettings(items, j);
    var p, q := x + [Open(nm)] + Flat(items[..j]), Flat(items[j + 1..]) + ([Close] + y);
    assert Framed(x, nm, items, y) == p + FlatOne(items[j]) + q;
    assert Framed(x, nm, items[j := t], y) == p + FlatOne(t) + q;
    OneChanged(p, FlatOne(items[j]), q, Entry(t.name, t.value));
  }

  lemma {:induction false} OneChanged(p: seq<Event>, m: seq<Event>, q: seq<Event>, e: Event)
    requires |m| == 1
    ensures (p + m + q)[|p| := e] == p + [e] + q
  {
  }

  lemma {:induction false} SetFront(items: seq<Item>, name: Bytes, value: Bytes)
    ensures Flat([Setting(name, value)] + items) == [Entry(name, value)] + Flat(items)
  {
    assert ([Setting(name, value)] + items)[1..] == items;
  }

  lemma {:induction false} LeadingTo(items: seq<Item>, i: nat, j: nat, name: Bytes)
    requires FindSetting(items, i, name) == Some(j)
    ensures forall k | i <= k < j :: items[k].Setting?
    decreases |items| - i
  {
    if items[i].name != name {
      LeadingTo(items, i + 1, j, name);
    }
  }

  /** The items are at event i. */
  ghost predicate Spells(ev: seq<Event>, i: nat, items: seq<Item>) {
    i + |Flat(items)| <= |ev| && ev[i..i + |Flat(items)|] == Flat(items)
  }

  lemma {:induction false} SpellsFront(ev: seq<Event>, i: nat, items: seq<Item>)
    requires Spells(ev, i, items) && items != []
    ensures var t, e := items[0], i + |FlatOne(items[0])|;
            && |Flat(items)| == |FlatOne(t)| + |Flat(items[1..])|
            && Spells(ev, e, items[1..])
            && match t
               case Setting(name, value) => e == i + 1 && ev[i] == Entry(name, value)
               case Sub(name, its) =>
                 ev[i] == Open(name) && Spells(ev, i + 1, its) && e == i + |Flat(its)| + 2 && ev[e - 1] == Close
  {
    var t, rest := items[0], items[1..];
    var n, one := |FlatOne(t)|, FlatOne(t);
    Cut(ev, i, Flat(items), one, Flat(rest));
    assert ev[i] == one[0];
    if t.Sub? {
      var its := t.items;
      assert one == [Open(t.name)] + (Flat(its) + [Close]);
      Cut(ev, i, one, [Open(t.name)], Flat(its) + [Close]);
      Cut(ev, i + 1, Flat(its) + [Close], Flat(its), [Close]);
      assert ev[i + n - 1] == [Close][0];
    }
  }

  /** Parts of a stretch of events. */
  lemma {:induction false} Cut(ev: seq<Event>, i: nat, m: seq<Event>, p: seq<Event>, q: seq<Event>)
    requires i + |m| <= |ev| && ev[i..i + |m|] == m && m == p + q
    ensures ev[i..i + |p|] == p && ev[i + |p|..i + |p| + |q|] == q
  {
    Inner(ev, i, i + |m|, 0, |p|);
    Inner(ev, i, i + |m|, |p|, |m|);
  }

  /** A search passes over a whole node. */
  lemma {:induction false} SubOver(ev: seq<Event>, i: nat, items: seq<Item>, d: nat, given: Bytes)
    requires Spells(ev, i, items)
    ensures SubIn(ev, i, d + 1, given) == SubIn(ev, i + |Flat(items)|, d + 1, given)
    decreases items
  {
    hide Matches, Flat, FlatOne;
    if items == [] {
      FlatNone();
    } else {
      SpellsFront(ev, i, items);
      assert items[0] in items;
      var t, e := items[0], i + |FlatOne(items[0])|;
      SubOver(ev, e, items[1..], d, given);
      if t.Sub? {
        SubOver(ev, i + 1, t.items, d + 1, given);
      }
    }
  }

  /** Looking for the end of a node passes over what it holds. */
  lemma {:induction false} CloseOver(ev: seq<Event>, i: nat, items: seq<Item>, d: nat)
    requires Spells(ev, i, items)
    ensures CloseOf(ev, i, d) == CloseOf(ev, i + |Flat(items)|, d)
    decreases items
  {
    hide Flat, FlatOne;
    if items == [] {
      FlatNone();
    } else {
      SpellsFront(ev, i, items);
      assert items[0] in items;
      var t, e := items[0], i + |FlatOne(items[0])|;
      CloseOver(ev, e, items[1..], d);
      if t.Sub? {
        CloseOver(ev, i + 1, t.items, d + 1);
      }
    }
  }

  /** Removing a node removes it with all it holds and leaves the rest. */
  lemma {:induction false} CutFramed(x: seq<Event>, name: Bytes, items: seq<Item>, y: seq<Event>)
    ensures CutNode(Framed(x, name, items, y), |x|) == x + y
  {
    hide Flat;
    var ev, e := Framed(x, name, items, y), |x| + 1 + |Flat(items)|;
    assert ev[|x| + 1..e] == Flat(items);
    CloseOver(ev, |x| + 1, items, 0);
    assert ev[e] == Close && ev[e + 1..] == y;
  }

  /** The child that fits, among the events of a node. */
  lemma {:induction false} SubFlat(ev: seq<Event>, a: nat, items: seq<Item>, i: nat, given: Bytes)
    requires i <= |items| && Spells(ev, a + |Flat(items[..i])|, items[i..])
    requires a + |Flat(items)| < |ev| && ev[a + |Flat(items)|] == Close
    ensures SubIn(ev, a + |Flat(items[..i])|, 0, given) ==
            (var j := FindSub(items, i, given); if j.None? then None else Some(a + |Flat(items[..j.value])|))
    decreases |items| - i
  {
    hide Matches, Flat, FlatOne, Spells, SubIn;
    var p := a + |Flat(items[..i])|;
    FlatSplit(items, i);
    SubHere(ev, p, given);
    if i == |items| {
      assert items[..i] == items;
    } else {
      var t := items[i];
      assert items[i..][1..] == items[i + 1..];
      SpellsFront(ev, p, items[i..]);
      NextPart(items, i);
      if !(t.Sub? && Matches(t.name, given)) {
        SubFlat(ev, a, items, i + 1, given);
        SubPast(ev, p, t, given);
      }
    }
  }

  lemma {:induction false} SubHere(ev: seq<Event>, p: nat, given: Bytes)
    requires p < |ev|
    ensures ev[p] == Close ==> SubIn(ev, p, 0, given) == None
    ensures ev[p].Open? && Matches(ev[p].name, given) ==> SubIn(ev, p, 0, given) == Some(p)
  {
    hide Matches;
  }

  /** A search passes over an item that is no child that fits. */
  lemma {:induction false} SubPast(ev: seq<Event>, p: nat, t: Item, given: Bytes)
    requires p + |FlatOne(t)| <= |ev| && !(t.Sub? && Matches(t.name, given))
    requires match t
             case Setting(name, value) => ev[p] == Entry(name, value)
             case Sub(name, its) =>
               ev[p] == Open(name) && Spells(ev, p + 1, its) && ev[p + |Flat(its)| + 1] == Close
    ensures SubIn(ev, p, 0, given) == SubIn(ev, p + |FlatOne(t)|, 0, given)
  {
    hide Matches, Flat, Spells;
    if t.Sub? {
      SubOver(ev, p + 1, t.items, 0, given);
    }
  }

  lemma {:induction false} NextPart(items: seq<Item>, i: nat)
    requires i < |items|
    ensures Flat(items[..i + 1]) == Flat(items[..i]) + FlatOne(items[i])
  {
    assert items[..i + 1] == items[..i] + [items[i]];
    FlatAppend(items[..i], [items[i]]);
    assert Flat([items[i]]) == FlatOne(items[i]) + Flat([]);
  }

  /** The end of the settings, among the events of a node. */
  lemma {:induction false} LeadFlat(ev: seq<Event>, i: nat, items: seq<Item>)
    requires Spells(ev, i, items) && i + |Flat(items)| < |ev| && ev[i + |Flat(items)|] == Close
    ensures EntriesEnd(ev, i) == i + Lead(items)
    decreases |items|
  {
    hide Flat, FlatOne, Spells;
    if items == [] {
      FlatNone();
    } else {
      SpellsFront(ev, i, items);
      if items[0].Setting? {
        LeadFlat(ev, i + 1, items[1..]);
      }
    }
  }

  /** A child of a node, with its parent's events around it, and another one in its place. */
  lemma {:induction false} KidInside(x: seq<Event>, nm: Bytes, items: seq<Item>, y: seq<Event>, j: nat, its: seq<Item>)
    requires j < |items| && items[j].Sub?
    ensures var x', y' := x + [Open(nm)] + Flat(items[..j]), Flat(items[j + 1..]) + ([Close] + y);
            && Framed(x, nm, items, y) == Framed(x', items[j].name, items[j].items, y')
            && Framed(x', items[j].name, its, y') == Framed(x, nm, items[j := Sub(items[j].name, its)], y)
  {
    hide Flat;
    FlatSplit(items, j);
    assert FlatOne(items[j]) == [Open(items[j].name)] + Flat(items[j].items) + [Close];
    FlatUpdate(items, j, Sub(items[j].name, its));
  }

  /** A new child. */
  lemma {:induction false} NewInside(x: seq<Event>, nm: Bytes, items: seq<Item>, y: seq<Event>, name: Bytes)
    ensures var k := Lead(items);
            var x', y' := x + [Open(nm)] + Flat(items[..k]), Flat(items[k..]) + ([Close] + y);
            && |x'| == |x| + 1 + k <= |Framed(x, nm, items, y)|
            && AddNode(Framed(x, nm, items, y), |x| + 1 + k, name) == Framed(x', name, [], y')
  {
    hide Flat, Lead;
    var k := Lead(items);
    FlatSplit(items, k);
    FlatSettings(items, k);
    var ev := Framed(x, nm, items, y);
    var x', y' := x + [Open(nm)] + Flat(items[..k]), Flat(items[k..]) + ([Close] + y);
    assert ev == x' + y';
    Halves(x', y');
    FlatNone();
    assert [Open(name), Close] == [Open(name)] + [] + [Close];
  }

  lemma {:induction false} Halves(x: seq<Event>, y: seq<Event>)
    ensures (x + y)[..|x|] == x && (x + y)[|x|..] == y
  {
  }

  lemma {:induction false} NewFilled(x: seq<Event>, nm: Bytes, items: seq<Item>, y: seq<Event>, name: Bytes,
      its: seq<Item>)
    ensures var k := Lead(items);
            var x', y' := x + [Open(nm)] + Flat(items[..k]), Flat(items[k..]) + ([Close] + y);
            Framed(x', name, its, y') == Framed(x, nm, items[..k] + [Sub(name, its)] + items[k..], y)
  {
    hide Flat, Lead;
    FlatThree(items[..Lead(items)], Sub(name, its), items[Lead(items)..]);
  }

  lemma {:induction false} FlatNone()
    ensures Flat([]) == []
  {
  }

  lemma {:induction false} FlatThree(a: seq<Item>, t: Item, b: seq<Item>)
    ensures Flat(a + [t] + b) == Flat(a) + FlatOne(t) + Flat(b)
  {
    FlatAppend(a + [t], b);
    FlatAppend(a, [t]);
    assert Flat([t]) == FlatOne(t) + Flat([]);
  }

  lemma {:induction false} SubFramed(x: seq<Event>, nm: Bytes, items: seq<Item>, y: seq<Event>, given: Bytes)
    ensures var ev := Framed(x, nm, items, y);
            && SubIn(ev, |x| + 1, 0, given) ==
                 (var j := FindSub(items, 0, given);
                  if j.None? then None else Some(|x| + 1 + |Flat(items[..j.value])|))
            && EntriesEnd(ev, |x| + 1) == |x| + 1 + Lead(items)
  {
    hide Flat, FlatOne, SubIn, FindSub, EntriesEnd, Lead, Framed, Spells;
    FramedParts(x, nm, items, y);
    FlatNone();
    assert items[..0] == [] && items[0..] == items;
    SubFlat(Framed(x, nm, items, y), |x| + 1, items, 0, given);
    LeadFlat(Framed(x, nm, items, y), |x| + 1, items);
  }

  lemma {:induction false} FramedParts(x: seq<Event>, nm: Bytes, items: seq<Item>, y: seq<Event>)
    ensures var ev, e := Framed(x, nm, items, y), |x| + 1 + |Flat(items)|;
            && |ev| == e + 1 + |y| && ev[|x|] == Open(nm) && ev[e] == Close && Spells(ev, |x| + 1, items)
            && ev[..|x| + 1] == x + [Open(nm)] && ev[e..] == [Close] + y
  {
    hide Flat;
  }

  // ---- every closed node is framed

  /** The node that is open at event i, and d more around it, are closed. */
  ghost predicate Shut(ev: seq<Event>, i: nat, d: nat)
    decreases |ev| - i
  {
    && i < |ev|
    && match ev[i]
       case Open(_) => Shut(ev, i + 1, d + 1)
       case Close => d == 0 || Shut(ev, i + 1, d - 1)
       case Entry(_, _) => Shut(ev, i + 1, d)
  }

  /** The items from event i on, and where they end. */
  lemma {:induction false} Parsed(ev: seq<Event>, i: nat, d: nat) returns (items: seq<Item>, e: nat)
    requires Shut(ev, i, d)
    ensures i <= e < |ev| && ev[e] == Close && ev[i..e] == Flat(items) && (d > 0 ==> Shut(ev, e + 1, d - 1))
    decreases |ev| - i
  {
    match ev[i]
    case Close =>
      items, e := [], i;
    case Entry(name, value) =>
      items, e := Parsed(ev, i + 1, d);
      SetFront(items, name, value);
      items := [Setting(name, value)] + items;
      assert ev[i..e] == [ev[i]] + ev[i + 1..e];
    case Open(name) =>
      var its, c := Parsed(ev, i + 1, d + 1);
      items, e := Parsed(ev, c + 1, d);
      assert ev[i..e] == [ev[i]] + ev[i + 1..c] + [ev[c]] + ev[c + 1..e];
      assert ([Sub(name, its)] + items)[1..] == items;
      items := [Sub(name, its)] + items;
  }

  lemma {:induction false} ShutFramed(ev: seq<Event>, n: nat) returns (items: seq<Item>, y: seq<Event>)
    requires n < |ev| && ev[n].Open? && Shut(ev, n + 1, 0)
    ensures ev == Framed(ev[..n], ev[n].name, items, y)
  {
    hide Flat;
    var e;
    items, e := Parsed(ev, n + 1, 0);
    y := ev[e + 1..];
    assert ev == ev[..n] + [ev[n]] + ev[n + 1..e] + [ev[e]] + ev[e + 1..];
  }

  // ---- what a merged node holds

  /** What a node has under a name. */
  ghost function ValueIn(items: seq<Item>, name: Bytes): Option<Bytes> {
    var j := FindSetting(items, 0, name);
    if j.None? then None else Some(items[j.value].value)
  }

  /** The last of the first k items that sets a name. */
  ghost function SetTo(over: seq<Item>, k: nat, name: Bytes): Option<Bytes>
    requires k <= |over|
  {
    if k == 0 then None
    else if over[k - 1].Setting? && over[k - 1].name == name then Some(over[k - 1].value)
    else SetTo(over, k - 1, name)
  }

  /** A search sees the settings in front of the first child only. */
  lemma {:induction false} FindSame(a: seq<Item>, b: seq<Item>, i: nat, name: Bytes)
    requires i <= Lead(a) == Lead(b) && a[..Lead(a)] == b[..Lead(b)]
    ensures FindSetting(a, i, name) == FindSetting(b, i, name)
    decreases Lead(a) - i
  {
    hide Lead;
    if i < Lead(a) {
      assert a[i] == a[..Lead(a)][i] && b[i] == b[..Lead(b)][i];
      FindSame(a, b, i + 1, name);
    }
  }

  lemma {:induction false} LeadIs(items: seq<Item>, n: nat)
    requires n <= |items| && (n < |items| ==> items[n].Sub?) && forall i | 0 <= i < n :: items[i].Setting?
    ensures Lead(items) == n
    decreases n
  {
    if n > 0 {
      LeadIs(items[1..], n - 1);
    }
  }

  lemma {:induction false} FindSet(items: seq<Item>, i: nat, name: Bytes, value: Bytes, other: Bytes)
    requires FindSetting(items, i, name).Some?
    ensures var j := FindSetting(items, i, name).value; var out := items[j := Setting(name, value)];
            && FindSetting(out, i, name) == Some(j)
            && (other != name ==> FindSetting(out, i, other) == FindSetting(items, i, other)
                                  && (FindSetting(items, i, other).Some? ==> FindSetting(items, i, other).value != j))
    decreases |items| - i
  {
    var j := FindSetting(items, i, name).value;
    if i < j {
      FindSet(items, i + 1, name, value, other);
    } else if other != name {
      FindPast(items, items[j := Setting(name, value)], j + 1, other);
    }
  }

  lemma {:induction false} FindPast(a: seq<Item>, b: seq<Item>, i: nat, name: Bytes)
    requires |a| == |b| && forall k | i <= k < |a| :: a[k] == b[k]
    ensures FindSetting(a, i, name) == FindSetting(b, i, name)
    decreases |a| - i
  {
    if i < |a| {
      FindPast(a, b, i + 1, name);
    }
  }

  lemma {:induction false} FindShifted(t: Item, items: seq<Item>, i: nat, name: Bytes)
    ensures FindSetting([t] + items, i + 1, name) ==
            (var j := FindSetting(items, i, name); if j.None? then None else Some(j.value + 1))
    decreases |items| - i
  {
    if i < |items| {
      FindShifted(t, items, i + 1, name);
    }
  }

  lemma {:induction false} ValueSet(items: seq<Item>, name: Bytes, value: Bytes, other: Bytes)
    ensures ValueIn(SetItem(items, name, value), other) ==
            if other == name then Some(value) else ValueIn(items, other)
  {
    hide FindSetting;
    var t := Setting(name, value);
    if FindSetting(items, 0, name).None? {
      FindShifted(t, items, 0, other);
      FindNext([t] + items, 0, other);
    } else {
      FindSet(items, 0, name, value, other);
    }
  }

  /** Children merged in leave the settings as they were. */
  lemma {:induction false} ValueKept(items: seq<Item>, t: Item, name: Bytes)
    requires t.Sub?
    ensures ValueIn(MergeOne(items, t), name) == ValueIn(items, name)
  {
    hide FindSetting, FindSub, Merge;
    var out := MergeOne(items, t);
    var n := Lead(items);
    var j := FindSub(items, 0, t.name);
    LeadIs(out, n);
    FindSame(items, out, 0, name);
    SettingLeads(items, 0, name);
  }

  lemma {:induction false} SettingLeads(items: seq<Item>, i: nat, name: Bytes)
    ensures i <= Lead(items) && FindSetting(items, i, name).Some? ==> FindSetting(items, i, name).value < Lead(items)
    decreases |items| - i
  {
    hide Lead;
    if i < |items| && items[i].Setting? && i < Lead(items) {
      SettingLeads(items, i + 1, name);
    }
  }

  /** A setting of the merged node is the last one merged in, or else the one that was there. */
  lemma {:induction false} MergedSettings(items: seq<Item>, over: seq<Item>, k: nat, name: Bytes)
    requires k <= |over|
    ensures ValueIn(MergeTo(items, over, k), name) ==
            if SetTo(over, k, name).Some? then SetTo(over, k, name) else ValueIn(items, name)
    decreases k
  {
    hide ValueIn, MergeOne, SetItem;
    if k > 0 {
      MergedSettings(items, over, k - 1, name);
      var its := MergeTo(items, over, k - 1);
      match over[k - 1]
      case Setting(n, v) =>
        MergedSetting(its, n, v);
        ValueSet(its, n, v, name);
      case Sub(_, _) => ValueKept(its, over[k - 1], name);
    }
  }

  lemma {:induction false} MergeStep(items: seq<Item>, over: seq<Item>, k: nat)
    requires 1 <= k <= |over|
    ensures MergeTo(items, over, k) == MergeOne(MergeTo(items, over, k - 1), over[k - 1])
  {
    hide MergeOne;
  }

  lemma {:induction false} MergedSetting(items: seq<Item>, name: Bytes, value: Bytes)
    ensures MergeOne(items, Setting(name, value)) == SetItem(items, name, value)
  {
    hide SetItem;
  }

  /** A child's name fits one that is merged in. */
  ghost predicate Meant(over: seq<Item>, name: Bytes) {
    exists i | 0 <= i < |over| :: over[i].Sub? && Matches(name, over[i].name)
  }

  /** The children that nothing is merged into. */
  ghost function Others(items: seq<Item>, over: seq<Item>): seq<Item> {
    if items == [] then []
    else (if items[0].Sub? && !Meant(over, items[0].name) then [items[0]] else []) + Others(items[1..], over)
  }

  lemma {:induction false} OthersAppend(a: seq<Item>, b: seq<Item>, over: seq<Item>)
    ensures Others(a + b, over) == Others(a, over) + Others(b, over)
    decreases |a|
  {
    hide Meant;
    if a == [] {
      assert a + b == b;
    } else {
      assert (a + b)[1..] == a[1..] + b;
      OthersAppend(a[1..], b, over);
    }
  }

  /** Other items that are settings, or children that something is merged into. */
  lemma {:induction false} OthersUpdate(items: seq<Item>, j: nat, t: Item, over: seq<Item>)
    requires j < |items| && Others([items[j]], over) == Others([t], over) == []
    ensures Others(items[j := t], over) == Others(items, over)
  {
    hide Others;
    assert items == items[..j] + [items[j]] + items[j + 1..];
    assert items[j := t] == items[..j] + [t] + items[j + 1..];
    OthersThree(items[..j], items[j], items[j + 1..], over);
    OthersThree(items[..j], t, items[j + 1..], over);
  }

  lemma {:induction false} OthersThree(a: seq<Item>, t: Item, b: seq<Item>, over: seq<Item>)
    requires Others([t], over) == []
    ensures Others(a + [t] + b, over) == Others(a, over) + Others(b, over)
  {
    hide Others;
    OthersAppend(a + [t], b, over);
    OthersAppend(a, [t], over);
  }

  lemma {:induction false} OthersNone(t: Item, over: seq<Item>)
    requires t.Sub? ==> Meant(over, t.name)
    ensures Others([t], over) == []
  {
    assert [t][1..] == [];
  }

  lemma {:induction false} MatchesItself(name: Bytes)
    ensures Matches(name, name)
  {
    assert name[..|name|] == name;
  }

  /** They stay as they are and in their order, and no others come in. */
  lemma {:induction false} MergedOthers(items: seq<Item>, over: seq<Item>, k: nat)
    requires k <= |over|
    ensures Others(MergeTo(items, over, k), over) == Others(items, over)
    decreases k
  {
    hide Others, MergeOne;
    if k > 0 {
      MergedOthers(items, over, k - 1);
      OneMerged(MergeTo(items, over, k - 1), over, k);
    }
  }

  lemma {:induction false} OneMerged(its: seq<Item>, over: seq<Item>, k: nat)
    requires 1 <= k <= |over|
    ensures Others(MergeOne(its, over[k - 1]), over) == Others(its, over)
  {
    hide Others, Lead, Matches, Merge, FindSetting, FindSub;
    var t := over[k - 1];
    match t
    case Setting(name, value) =>
      OthersNone(t, over);
      var j := FindSetting(its, 0, name);
      if j.None? {
        OthersThree([], t, its, over);
        OthersAppend([], its, over);
        assert [] + [t] + its == [t] + its && [] + its == its;
      } else {
        OthersNone(its[j.value], over);
        OthersUpdate(its, j.value, t, over);
      }
    case Sub(name, more) =>
      var j := FindSub(its, 0, name);
      if j.None? {
        var kid := Sub(name, Merge([], more));
        MatchesItself(name);
        OthersNone(kid, over);
        var l := Lead(its);
        assert its == its[..l] + its[l..];
        OthersThree(its[..l], kid, its[l..], over);
        OthersAppend(its[..l], its[l..], over);
      } else {
        var kid := Sub(its[j.value].name, Merge(its[j.value].items, more));
        OthersNone(its[j.value], over);
        OthersNone(kid, over);
        OthersUpdate(its, j.value, kid, over);
      }
  }

  // ---- finding children afterwards

  /** The same names, up to and beyond the first child that fits. */
  lemma {:induction false} FindSubSame(a: seq<Item>, b: seq<Item>, i: nat, given: Bytes)
    requires |a| == |b| && forall k | i <= k < |a| :: a[k].Sub? == b[k].Sub? && (a[k].Sub? ==> a[k].name == b[k].name)
    ensures FindSub(a, i, given) == FindSub(b, i, given)
    decreases |a| - i
  {
    hide Matches;
    if i < |a| {
      FindSubSame(a, b, i + 1, given);
    }
  }

  lemma {:induction false} FindSubAt(items: seq<Item>, i: nat, j: nat, given: Bytes)
    requires i <= j < |items| && items[j].Sub? && Matches(items[j].name, given)
    requires forall k | i <= k < j :: items[k].Sub? ==> !Matches(items[k].name, given)
    ensures FindSub(items, i, given) == Some(j)
    decreases j - i
  {
    hide Matches;
    if i < j {
      FindSubAt(items, i + 1, j, given);
    }
  }

  /** Merging into a child that is there leaves it to each name which child it leads to. */
  lemma {:induction false} OldKidFound(items: seq<Item>, t: Item, given: Bytes)
    requires t.Sub? && FindSub(items, 0, t.name).Some?
    ensures FindSub(MergeOne(items, t), 0, given) == FindSub(items, 0, given)
  {
    hide FindSub, Merge, Matches;
    FindSubSame(MergeOne(items, t), items, 0, given);
  }

  /** A new child takes over every name without a unit address that it fits, and no other. */
  lemma {:induction false} NewKidFound(items: seq<Item>, t: Item, given: Bytes)
    requires t.Sub? && FindSub(items, 0, t.name).None? && FindSub(items, 0, given).Some?
    ensures var out := MergeOne(items, t);
            && FindSub(out, 0, given).Some?
            && (out[FindSub(out, 0, given).value] == items[FindSub(items, 0, given).value] <==>
                !Matches(t.name, given))
  {
    hide Merge, Matches;
    var out, l, j := MergeOne(items, t), Lead(items), FindSub(items, 0, given).value;
    assert out == items[..l] + [Sub(t.name, Merge([], t.items))] + items[l..];
    MatchesItself(t.name);
    if Matches(t.name, given) {
      assert forall k | 0 <= k < l :: out[k] == items[k];
      FindSubAt(out, 0, l, given);
    } else {
      assert out[j + 1] == items[j];
      assert forall k | 0 <= k < l :: out[k] == items[k];
      assert forall k | l < k <= j :: out[k] == items[k - 1];
      FindSubAt(out, 0, j + 1, given);
    }
  }

  /** Every child that is merged in can be found under its name. */
  lemma {:induction false} MergedFound(items: seq<Item>, over: seq<Item>, k: nat, i: nat)
    requires i < k <= |over| && over[i].Sub?
    ensures FindSub(MergeTo(items, over, k), 0, over[i].name).Some?
    decreases k
  {
    hide FindSub, MergeOne, Matches;
    var its := MergeTo(items, over, k - 1);
    MergeStep(items, over, k);
    if i < k - 1 {
      MergedFound(items, over, k - 1, i);
      StillFound(its, over[k - 1], over[i].name);
    } else {
      JustFound(its, over[i]);
    }
  }

  lemma {:induction false} JustFound(items: seq<Item>, t: Item)
    requires t.Sub?
    ensures FindSub(MergeOne(items, t), 0, t.name).Some?
  {
    hide Merge, Matches, FindSub;
    if FindSub(items, 0, t.name).Some? {
      OldKidFound(items, t, t.name);
    } else {
      var out, l := MergeOne(items, t), Lead(items);
      MatchesItself(t.name);
      assert out == items[..l] + [Sub(t.name, Merge([], t.items))] + items[l..];
      assert forall k | 0 <= k < l :: out[k] == items[k];
      FindSubAt(out, 0, l, t.name);
    }
  }

  lemma {:induction false} StillFound(items: seq<Item>, t: Item, given: Bytes)
    requires FindSub(items, 0, given).Some?
    ensures FindSub(MergeOne(items, t), 0, given).Some?
  {
    hide Merge, MergeOne, Matches, FindSub, SetItem;
    match t
    case Setting(name, value) =>
      MergedSetting(items, name, value);
      SetFound(items, name, value, given);
    case Sub(name, _) =>
      if FindSub(items, 0, name).Some? {
        OldKidFound(items, t, given);
      } else {
        NewKidFound(items, t, given);
      }
  }

  lemma {:induction false} SetFound(items: seq<Item>, name: Bytes, value: Bytes, given: Bytes)
    requires FindSub(items, 0, given).Some?
    ensures FindSub(SetItem(items, name, value), 0, given).Some?
  {
    hide Matches, FindSetting;
    var out, j := SetItem(items, name, value), FindSub(items, 0, given).value;
    if FindSetting(items, 0, name).None? {
      assert out[j + 1] == items[j];
      assert forall k | 0 < k <= j :: out[k] == items[k - 1];
      FindSubAt(out, 0, j + 1, given);
    } else {
      FindSubSame(out, items, 0, given);
    }
  }
}
