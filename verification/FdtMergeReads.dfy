/**
 What can be read from a node, by its events and by its items, and what can be read from a merged
 one, down to any depth.
 */
module FdtMergeReads {
  import opened Basics
  import opened FdtFormat
  import opened FdtTree
  import opened FdtProps
  import opened FdtEdit
  import opened FdtMerge

  // ---- what walks over properties and children see of a node

  /** The settings in front of the first child, and then the children; settings behind a child are passed over. */
  ghost function Normal(items: seq<Item>): seq<Item>
    decreases items, 1
  {
    items[..Lead(items)] + Subs(items)
  }

  ghost function Subs(items: seq<Item>): seq<Item>
    decreases items, 0
  {
    if items == [] then []
    else
      assert items[0] in items;
      (if items[0].Sub? then [Sub(items[0].name, Normal(items[0].items))] else []) + Subs(items[1..])
  }

  /** No setting is behind a child, here or below. */
  ghost predicate Tidy(items: seq<Item>)
    decreases items
  {
    && (forall i | Lead(items) <= i < |items| :: items[i].Sub?)
    && forall i | 0 <= i < |items| && items[i].Sub? :: Tidy(items[i].items)
  }

  lemma {:induction false} TidyIsNormal(items: seq<Item>)
    requires Tidy(items)
    ensures Normal(items) == items
    decreases items, |items| + 1
  {
    SubsTidy(items, |items| - Lead(items));
    SubsSettings(items, Lead(items));
    assert items == items[..Lead(items)] + items[Lead(items)..];
  }

  lemma {:induction false} SubsSettings(items: seq<Item>, k: nat)
    requires k <= Lead(items)
    ensures Subs(items) == Subs(items[k..])
    decreases k
  {
    if k > 0 {
      SubsSettings(items, k - 1);
      assert items[k - 1..][1..] == items[k..];
    } else {
      assert items[0..] == items;
    }
  }

  /** The last k items, if they are children that hold no setting behind a child. */
  lemma {:induction false} SubsTidy(items: seq<Item>, k: nat)
    requires k <= |items| && Tidy(items)
    ensures |items| - k >= Lead(items) ==> Subs(items[|items| - k..]) == items[|items| - k..]
    decreases items, k
  {
    if k > 0 {
      var i := |items| - k;
      SubsTidy(items, k - 1);
      assert items[i..][1..] == items[i + 1..];
      if i >= Lead(items) {
        assert items[i] in items;
        TidyIsNormal(items[i].items);
      }
    }
  }

  /** What comes first among the events of items and a closing. */
  lemma {:induction false} FrontItem(e: Event, rest: seq<Event>, items: seq<Item>, y: seq<Event>)
    requires [e] + rest == Flat(items) + ([Close] + y)
    ensures match e
            case Close => items == [] && rest == y
            case Entry(name, value) =>
              items != [] && items[0] == Setting(name, value) && rest == Flat(items[1..]) + ([Close] + y)
            case Open(name) =>
              && items != [] && items[0].Sub? && items[0].name == name
              && rest == Flat(items[0].items) + ([Close] + (Flat(items[1..]) + ([Close] + y)))
  {
    var all := [e] + rest;
    assert rest == all[1..] && e == all[0];
    if items == [] {
      assert all == [Close] + y;
    } else {
      var one, more := FlatOne(items[0]), Flat(items[1..]) + ([Close] + y);
      assert all == one + more;
      assert all[0] == one[0];
      match items[0]
      case Setting(_, _) => assert all[1..] == more;
      case Sub(name, its) => assert all == [Open(name)] + (Flat(its) + ([Close] + more));
    }
  }

  // ---- properties, by the events

  /** The value of the last entry with a name in the run of entries from i on. */
  ghost function LastEntry(ev: seq<Event>, i: nat, name: Bytes): Option<Bytes>
    decreases |ev| - i
  {
    if i >= |ev| || !ev[i].Entry? then None
    else
      var later := LastEntry(ev, i + 1, name);
      if later.Some? then later else if ev[i].name == name then Some(ev[i].value) else None
  }

  /** A node's property, by its events and by its items. */
  lemma {:induction false} LookupItems(x: seq<Event>, nm: Bytes, items: seq<Item>, y: seq<Event>, name: Bytes)
    ensures Lookup(Framed(x, nm, items, y), |x|, name) == ValueIn(items, name)
    ensures LastEntry(Framed(x, nm, items, y), |x| + 1, name) == SetTo(items, Lead(items), name)
  {
    hide Flat, FlatOne, Framed, FindEntry, FindSetting, Spells, LastEntry, SetTo;
    FramedParts(x, nm, items, y);
    FindFlat(Framed(x, nm, items, y), |x| + 1, items, name);
    LastFlat(Framed(x, nm, items, y), |x| + 1, items, name);
    var j := FindSetting(items, 0, name);
    if j.Some? {
      SettingAt(x, nm, items, y, j.value, name);
    }
  }

  lemma {:induction false} SettingAt(x: seq<Event>, nm: Bytes, items: seq<Item>, y: seq<Event>, j: nat, name: Bytes)
    requires FindSetting(items, 0, name) == Some(j)
    ensures |x| + 1 + j < |Framed(x, nm, items, y)|
    ensures Framed(x, nm, items, y)[|x| + 1 + j] == Entry(name, items[j].value)
  {
    hide Flat;
    LeadingTo(items, 0, j, name);
    FlatSettings(items, j);
    FlatSplit(items, j);
    assert FlatOne(items[j])[0] == Entry(name, items[j].value);
    assert Framed(x, nm, items, y) ==
           x + [Open(nm)] + Flat(items[..j]) + (FlatOne(items[j]) + Flat(items[j + 1..]) + [Close] + y);
  }

  lemma {:induction false} LastFlat(ev: seq<Event>, i: nat, items: seq<Item>, name: Bytes)
    requires Spells(ev, i, items) && i + |Flat(items)| < |ev| && ev[i + |Flat(items)|] == Close
    ensures LastEntry(ev, i, name) == SetTo(items, Lead(items), name)
    decreases |items|
  {
    hide Flat, FlatOne, Spells;
    if items == [] {
      FlatNone();
    } else {
      SpellsFront(ev, i, items);
      if items[0].Setting? {
        LastFlat(ev, i + 1, items[1..], name);
        SetFirst(items, 1 + Lead(items[1..]), name);
      }
    }
  }

  /** The last of some items with a name is the last of those behind the first, or else the first. */
  lemma {:induction false} SetFirst(items: seq<Item>, k: nat, name: Bytes)
    requires 1 <= k <= |items|
    ensures var later := SetTo(items[1..], k - 1, name);
            SetTo(items, k, name) ==
              if later.Some? then later
              else if items[0].Setting? && items[0].name == name then Some(items[0].value) else None
    decreases k
  {
    if k > 1 {
      SetFirst(items, k - 1, name);
    }
  }

  /** Only settings set anything, and only those in front of the first child are seen. */
  lemma {:induction false} SetNormal(items: seq<Item>, name: Bytes)
    ensures SetTo(Normal(items), |Normal(items)|, name) == SetTo(items, Lead(items), name)
  {
    hide Lead, Subs;
    var out, l := Normal(items), Lead(items);
    SubsAreSubs(items);
    assert forall i | l <= i < |out| :: out[i] == Subs(items)[i - l];
    SetPast(out, l, |out|, name);
    SetPrefix(out, items, l, name);
  }

  lemma {:induction false} SubsAreSubs(items: seq<Item>)
    ensures forall i | 0 <= i < |Subs(items)| :: Subs(items)[i].Sub?
    decreases |items|
  {
    if items != [] {
      SubsAreSubs(items[1..]);
    }
  }

  lemma {:induction false} SetPast(over: seq<Item>, k: nat, m: nat, name: Bytes)
    requires k <= m <= |over| && forall i | k <= i < m :: over[i].Sub?
    ensures SetTo(over, m, name) == SetTo(over, k, name)
    decreases m
  {
    if k < m {
      SetPast(over, k, m - 1, name);
    }
  }

  lemma {:induction false} SetPrefix(a: seq<Item>, b: seq<Item>, k: nat, name: Bytes)
    requires k <= |a| && k <= |b| && a[..k] == b[..k]
    ensures SetTo(a, k, name) == SetTo(b, k, name)
    decreases k
  {
    if k > 0 {
      assert a[k - 1] == a[..k][k - 1] == b[..k][k - 1] == b[k - 1];
      assert a[..k - 1] == a[..k][..k - 1] == b[..k][..k - 1] == b[..k - 1];
      SetPrefix(a, b, k - 1, name);
    }
  }

  /** The first setting with a name is in front of the first child, or not there. */
  lemma {:induction false} ValueNormal(items: seq<Item>, name: Bytes)
    ensures ValueIn(Normal(items), name) == ValueIn(items, name)
  {
    hide FindSetting, Subs;
    var out, l := Normal(items), Lead(items);
    SubsAreSubs(items);
    assert l < |out| ==> out[l] == Subs(items)[0];
    LeadIs(out, l);
    FindSame(items, out, 0, name);
    SettingLeads(items, 0, name);
  }

  /** What can be read from a node after a merge, by the events of both trees before and of the tree after it. */
  ghost predicate ReadsMerged(base: seq<Event>, k: nat, over: seq<Event>, m: nat, now: seq<Event>) {
    forall name: Bytes ::
      Lookup(now, k, name) ==
        if LastEntry(over, m + 1, name).Some? then LastEntry(over, m + 1, name) else Lookup(base, k, name)
  }

  lemma {:induction false} MergedLookup(x: seq<Event>, nm: Bytes, items: seq<Item>, y: seq<Event>,
      x2: seq<Event>, nm2: Bytes, items2: seq<Item>, y2: seq<Event>)
    ensures ReadsMerged(Framed(x, nm, items, y), |x|, Framed(x2, nm2, items2, y2), |x2|,
                        Framed(x, nm, Merge(items, Normal(items2)), y))
  {
    hide Framed, Lookup, LastEntry, ValueIn, SetTo, Normal, MergeTo, Lead;
    var over := Normal(items2);
    forall name: Bytes
      ensures Lookup(Framed(x, nm, Merge(items, over), y), |x|, name) ==
              if LastEntry(Framed(x2, nm2, items2, y2), |x2| + 1, name).Some?
              then LastEntry(Framed(x2, nm2, items2, y2), |x2| + 1, name)
              else Lookup(Framed(x, nm, items, y), |x|, name)
    {
      LookupItems(x, nm, items, y, name);
      LookupItems(x, nm, Merge(items, over), y, name);
      LookupItems(x2, nm2, items2, y2, name);
      SetNormal(items2, name);
      MergedSettings(items, over, |over|, name);
    }
  }

  /** A name that occurs once has the same first and last value. */
  lemma {:induction false} LastIsFirst(ev: seq<Event>, i: nat, name: Bytes)
    requires forall j, k | i <= j < k < |ev| && ev[j].Entry? && ev[k].Entry? && ev[j].name == name :: ev[k].name != name
    ensures LastEntry(ev, i, name) ==
            (var j := FindEntry(ev, i, name); if j.None? then None else Some(ev[j.value].value))
    decreases |ev| - i
  {
    if i < |ev| && ev[i].Entry? {
      LastIsFirst(ev, i + 1, name);
    }
  }

  // ---- children of a merged node

  /** What the child holds that a name leads to, nothing if there is none. */
  ghost function KidItems(items: seq<Item>, name: Bytes): seq<Item> {
    var j := FindSub(items, 0, name);
    if j.Some? then items[j.value].items else []
  }

  /** A child that has just been merged in holds what its place held, merged with what it holds. */
  lemma {:induction false} JustMerged(items: seq<Item>, t: Item)
    requires t.Sub?
    ensures FindSub(MergeOne(items, t), 0, t.name).Some?
    ensures KidItems(MergeOne(items, t), t.name) == Merge(KidItems(items, t.name), t.items)
  {
    hide Merge, Matches, FindSub;
    var j, out, l := FindSub(items, 0, t.name), MergeOne(items, t), Lead(items);
    if j.Some? {
      OldKidFound(items, t, t.name);
    } else {
      NewKidIs(items, t);
      assert out[l] == Sub(t.name, Merge([], t.items));
    }
  }

  /** A new child is found under its own name. */
  lemma {:induction false} NewKidIs(items: seq<Item>, t: Item)
    requires t.Sub? && FindSub(items, 0, t.name).None?
    ensures FindSub(MergeOne(items, t), 0, t.name) == Some(Lead(items))
  {
    hide Merge, Matches;
    var out, l := MergeOne(items, t), Lead(items);
    MatchesItself(t.name);
    assert out == items[..l] + [Sub(t.name, Merge([], t.items))] + items[l..];
    assert forall k | 0 <= k < l :: out[k] == items[k];
    FindSubAt(out, 0, l, t.name);
  }

  /** Two names that lead to the same child fit each other, one way or the other. */
  lemma {:induction false} SameChild(c: Bytes, a: Bytes, b: Bytes)
    requires Matches(c, a) && Matches(c, b)
    ensures Matches(a, b) || Matches(b, a)
  {
    var short, long := if |a| <= |b| then a else b, if |a| <= |b| then b else a;
    assert long[..|short|] == c[..|long|][..|short|] == c[..|short|] == short;
    if |short| < |long| {
      assert long[|short|] == c[..|long|][|short|] == c[|short|];
    }
  }

  /** Merging in something else leaves the child that a name leads to as it was. */
  lemma {:induction false} KidKept(items: seq<Item>, t: Item, given: Bytes)
    requires t.Sub? ==> !Matches(t.name, given) && !Matches(given, t.name)
    ensures KidItems(MergeOne(items, t), given) == KidItems(items, given)
  {
    hide Merge, MergeOne, Matches, FindSub, SetItem;
    match t
    case Setting(name, value) =>
      MergedSetting(items, name, value);
      SetKeepsKid(items, name, value, given);
    case Sub(name, more) =>
      if FindSub(items, 0, name).Some? {
        OldKeepsKid(items, t, given);
      } else {
        NewKeepsKid(items, t, given);
      }
  }

  lemma {:induction false} SetKeepsKid(items: seq<Item>, name: Bytes, value: Bytes, given: Bytes)
    ensures KidItems(SetItem(items, name, value), given) == KidItems(items, given)
  {
    hide Matches, FindSetting, FindSub;
    var j, out := FindSub(items, 0, given), SetItem(items, name, value);
    if FindSetting(items, 0, name).Some? {
      FindSubSame(out, items, 0, given);
    } else {
      FindSubShift([Setting(name, value)], items, 0, given);
    }
  }

  /** Settings in front do not matter to a search for a child. */
  lemma {:induction false} FindSubShift(a: seq<Item>, items: seq<Item>, i: nat, given: Bytes)
    requires |a| == 1 && (a[0].Sub? ==> !Matches(a[0].name, given))
    ensures FindSub(a + items, i + 1, given) ==
            (var j := FindSub(items, i, given); if j.None? then None else Some(j.value + 1))
    ensures FindSub(a + items, 0, given) == FindSub(a + items, 1, given)
    decreases |items| - i
  {
    hide Matches;
    if i < |items| {
      FindSubShift(a, items, i + 1, given);
    }
  }

  lemma {:induction false} OldKeepsKid(items: seq<Item>, t: Item, given: Bytes)
    requires t.Sub? && FindSub(items, 0, t.name).Some? && !Matches(t.name, given) && !Matches(given, t.name)
    ensures KidItems(MergeOne(items, t), given) == KidItems(items, given)
  {
    hide Merge, Matches, FindSub;
    OldKidFound(items, t, given);
    var i, j := FindSub(items, 0, t.name).value, FindSub(items, 0, given);
    if j == Some(i) {
      SameChild(items[i].name, t.name, given);
      assert false;
    }
  }

  lemma {:induction false} NewKeepsKid(items: seq<Item>, t: Item, given: Bytes)
    requires t.Sub? && FindSub(items, 0, t.name).None? && !Matches(t.name, given)
    ensures KidItems(MergeOne(items, t), given) == KidItems(items, given)
  {
    hide Merge, Matches, FindSub;
    if FindSub(items, 0, given).Some? {
      NewKidFound(items, t, given);
    } else {
      NoneFound(items, t, given);
    }
  }

  lemma {:induction false} NoneFound(items: seq<Item>, t: Item, given: Bytes)
    requires t.Sub? && FindSub(items, 0, t.name).None? && FindSub(items, 0, given).None? && !Matches(t.name, given)
    ensures FindSub(MergeOne(items, t), 0, given).None?
  {
    hide Merge, Matches;
    var out, l := MergeOne(items, t), Lead(items);
    assert out == items[..l] + [Sub(t.name, Merge([], t.items))] + items[l..];
  }

  /** No name of a child fits that of another one. */
  ghost predicate Unshadowed(over: seq<Item>) {
    forall i, k | 0 <= i < |over| && 0 <= k < |over| && i != k && over[i].Sub? && over[k].Sub? ::
      !Matches(over[i].name, over[k].name)
  }

  /** A child holds what it held, until the one child of the overlay that goes into it has been merged in. */
  lemma {:induction false} ChildMergedTo(items: seq<Item>, over: seq<Item>, k: nat, i: nat)
    requires k <= |over| && i < |over| && over[i].Sub? && Unshadowed(over)
    ensures KidItems(MergeTo(items, over, k), over[i].name) ==
            if k <= i then KidItems(items, over[i].name) else Merge(KidItems(items, over[i].name), over[i].items)
    decreases k
  {
    hide Merge, MergeOne, Matches, FindSub, KidItems;
    if k > 0 {
      ChildMergedTo(items, over, k - 1, i);
      MergeStep(items, over, k);
      var its := MergeTo(items, over, k - 1);
      if k - 1 == i {
        JustMerged(its, over[i]);
      } else {
        KidKept(its, over[k - 1], over[i].name);
      }
    }
  }

  /** The child that a child of the overlay goes into is the merge of the two. */
  lemma {:induction false} ChildMerged(items: seq<Item>, over: seq<Item>, i: nat)
    requires i < |over| && over[i].Sub? && Unshadowed(over)
    ensures FindSub(Merge(items, over), 0, over[i].name).Some?
    ensures KidItems(Merge(items, over), over[i].name) == Merge(KidItems(items, over[i].name), over[i].items)
  {
    hide MergeTo, Matches, FindSub, KidItems;
    MergeAll(items, over);
    ChildMergedTo(items, over, |over|, i);
    MergedFound(items, over, |over|, i);
  }

  lemma {:induction false} MergeAll(items: seq<Item>, over: seq<Item>)
    ensures Merge(items, over) == MergeTo(items, over, |over|)
  {
    hide MergeTo;
  }

  // ---- reading at a path

  /** The property that names of children and a name lead to. */
  ghost function ReadAt(items: seq<Item>, path: seq<Bytes>, name: Bytes): Option<Bytes>
    decreases |path|
  {
    if path == [] then ValueIn(items, name)
    else
      var j := FindSub(items, 0, path[0]);
      if j.None? then None else ReadAt(items[j.value].items, path[1..], name)
  }

  /** A place in a tree, by the numbers of the items on the way. */
  ghost predicate Leads(over: seq<Item>, way: seq<nat>)
    decreases |way|
  {
    way != [] ==> way[0] < |over| && over[way[0]].Sub? && Leads(over[way[0]].items, way[1..])
  }

  ghost function There(over: seq<Item>, way: seq<nat>): seq<Item>
    requires Leads(over, way)
    decreases |way|
  {
    if way == [] then over else There(over[way[0]].items, way[1..])
  }

  ghost function PathOf(over: seq<Item>, way: seq<nat>): seq<Bytes>
    requires Leads(over, way)
    decreases |way|
  {
    if way == [] then [] else [over[way[0]].name] + PathOf(over[way[0]].items, way[1..])
  }

  /** No name of a child fits that of a sibling, here and below. */
  ghost predicate Clear(over: seq<Item>)
    decreases over
  {
    Unshadowed(over) && forall i | 0 <= i < |over| && over[i].Sub? :: Clear(over[i].items)
  }

  lemma {:induction false} ReadNothing(path: seq<Bytes>, name: Bytes)
    ensures ReadAt([], path, name) == None
  {
  }

  /** Reading below a child is reading at the rest of the path. */
  lemma {:induction false} ReadBelow(items: seq<Item>, path: seq<Bytes>, name: Bytes)
    requires path != []
    ensures ReadAt(items, path, name) == ReadAt(KidItems(items, path[0]), path[1..], name)
  {
    hide FindSub;
    ReadNothing(path[1..], name);
  }

  /**
   At every place of the overlay, every property reads afterwards as the overlay's last one of that
   name, or else, at the same names, as before.
   */
  lemma {:induction false} MergedReads(items: seq<Item>, over: seq<Item>, way: seq<nat>, name: Bytes)
    requires Clear(over) && Leads(over, way)
    ensures var path, o := PathOf(over, way), SetTo(There(over, way), |There(over, way)|, name);
            ReadAt(Merge(items, over), path, name) == if o.Some? then o else ReadAt(items, path, name)
    decreases |way|
  {
    hide MergeTo, Matches, FindSub, KidItems, SetTo, ValueIn, Unshadowed;
    MergeAll(items, over);
    if way == [] {
      MergedSettings(items, over, |over|, name);
    } else {
      var i, path := way[0], PathOf(over, way);
      assert path[1..] == PathOf(over[i].items, way[1..]);
      ChildMerged(items, over, i);
      ReadBelow(Merge(items, over), path, name);
      ReadBelow(items, path, name);
      MergedReads(KidItems(items, over[i].name), over[i].items, way[1..], name);
    }
  }
}
