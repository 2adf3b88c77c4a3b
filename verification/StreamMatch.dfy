/**
 Stream match entries of the SMMUv2: each selects the stream ids that agree with its id
 outside its mask. Adding a selection drops the entries it includes, is dropped when an
 entry includes it, and halts when it overlaps an entry in any other way.
 */
module StreamMatch {

  /** Ids and masks are 15 bits wide. */
  type StreamId = bv15

  /** x is selected by the pair (id, mask). */
  predicate Selects(id: StreamId, mask: StreamId, x: StreamId) {
    (x ^ id) & !mask == 0
  }

  /** The program's overlap test. */
  predicate Overlaps(id1: StreamId, mask1: StreamId, id2: StreamId, mask2: StreamId) {
    (id1 ^ id2) & !(mask1 | mask2) == 0
  }

  /** Every id of the first selection is in the second. */
  ghost predicate Includes(id1: StreamId, mask1: StreamId, id2: StreamId, mask2: StreamId) {
    forall x: StreamId :: Selects(id1, mask1, x) ==> Selects(id2, mask2, x)
  }

  /** An id selected by both, if they overlap. */
  function Common(id1: StreamId, mask1: StreamId, id2: StreamId): StreamId {
    (id1 & !mask1) | (id2 & mask1)
  }

  lemma CommonSelected(id1: StreamId, mask1: StreamId, id2: StreamId, mask2: StreamId)
    requires Overlaps(id1, mask1, id2, mask2)
    ensures Selects(id1, mask1, Common(id1, mask1, id2)) && Selects(id2, mask2, Common(id1, mask1, id2))
  {
  }

  lemma SharedOverlaps(id1: StreamId, mask1: StreamId, id2: StreamId, mask2: StreamId, x: StreamId)
    requires Selects(id1, mask1, x) && Selects(id2, mask2, x)
    ensures Overlaps(id1, mask1, id2, mask2)
  {
  }

  /** The test says exactly whether the two selections share an id. */
  lemma OverlapIsSharing(id1: StreamId, mask1: StreamId, id2: StreamId, mask2: StreamId)
    ensures Overlaps(id1, mask1, id2, mask2) <==>
            exists x: StreamId :: Selects(id1, mask1, x) && Selects(id2, mask2, x)
  {
    hide Overlaps, Selects;
    if Overlaps(id1, mask1, id2, mask2) {
      CommonSelected(id1, mask1, id2, mask2);
    }
    forall x: StreamId | Selects(id1, mask1, x) && Selects(id2, mask2, x)
      ensures Overlaps(id1, mask1, id2, mask2)
    {
      SharedOverlaps(id1, mask1, id2, mask2, x);
    }
  }

  lemma SelectedByWider(id1: StreamId, mask1: StreamId, id2: StreamId, mask2: StreamId, x: StreamId)
    requires Overlaps(id1, mask1, id2, mask2) && Part(mask1, mask2) && Selects(id1, mask1, x)
    ensures Selects(id2, mask2, x)
  {
  }

  /** Overlap with a mask contained in the other's is inclusion. */
  lemma NarrowerIsIncluded(id1: StreamId, mask1: StreamId, id2: StreamId, mask2: StreamId)
    requires Overlaps(id1, mask1, id2, mask2) && Part(mask1, mask2)
    ensures Includes(id1, mask1, id2, mask2)
  {
    hide Overlaps, Selects, Part;
    forall x: StreamId | Selects(id1, mask1, x)
      ensures Selects(id2, mask2, x)
    {
      SelectedByWider(id1, mask1, id2, mask2, x);
    }
  }

  /** All bits of the first mask are in the second. */
  predicate Part(mask1: StreamId, mask2: StreamId) {
    mask1 & mask2 == mask1
  }

  /** The program's test that one of the masks contains the other. */
  predicate Nested(mask1: StreamId, mask2: StreamId) {
    var both := mask1 & mask2;
    both == mask1 || both == mask2
  }

  lemma NestedParts(mask1: StreamId, mask2: StreamId)
    requires Nested(mask1, mask2)
    ensures Part(mask1, mask2) || Part(mask2, mask1)
  {
  }

  lemma PartNotGreater(mask1: StreamId, mask2: StreamId)
    requires Part(mask1, mask2)
    ensures !(mask1 > mask2)
  {
  }

  lemma ProperPartLess(mask1: StreamId, mask2: StreamId)
    requires Part(mask1, mask2) && mask1 != mask2
    ensures mask2 > mask1
  {
  }

  lemma PartSelf(mask: StreamId)
    ensures Part(mask, mask)
  {
  }

  /** Of two nested masks the greater number is the containing one. */
  lemma MaskOrder(mask1: StreamId, mask2: StreamId)
    requires Nested(mask1, mask2)
    ensures mask1 > mask2 ==> Part(mask2, mask1)
    ensures !(mask1 > mask2) ==> Part(mask1, mask2)
  {
    hide Nested, Part;
    NestedParts(mask1, mask2);
    if Part(mask1, mask2) {
      PartNotGreater(mask1, mask2);
    } else {
      PartSelf(mask1);
      ProperPartLess(mask2, mask1);
    }
  }

  lemma SelectsSelf(id: StreamId, mask: StreamId)
    ensures Selects(id, mask, id)
  {
  }

  // ---- the table

  datatype Entry = Entry(used: bool, group: bool, id: StreamId, mask: StreamId, ctx: nat)

  datatype Addition = Addition(ctx: nat, id: StreamId, mask: StreamId, group: bool)

  /** Entries in use select disjoint sets of ids. */
  ghost predicate Separate(t: seq<Entry>) {
    forall i, j | 0 <= i < j < |t| && t[i].used && t[j].used ::
      !Overlaps(t[i].id, t[i].mask, t[j].id, t[j].mask)
  }

  /** An entry of the context includes the selection. */
  ghost predicate CoveredBy(t: seq<Entry>, a: Addition) {
    exists i :: 0 <= i < |t| && Holds(t[i], a)
  }

  ghost predicate Holds(e: Entry, a: Addition) {
    e.used && e.ctx == a.ctx && Includes(a.id, a.mask, e.id, e.mask)
  }

  datatype Search = Included | NotIncluded | Conflict

  datatype Outcome = Added | Halted | NoFreeEntry

  /** May the new selection be merged with e? */
  predicate Mergeable(e: Entry, mask: StreamId, ctx: nat, group: bool) {
    (group || e.group) && Nested(mask, e.mask) && ctx == e.ctx
  }

  /** When merging is allowed, the numeric comparison of the masks says which selection includes which. */
  lemma MergeDirection(e: Entry, id: StreamId, mask: StreamId, ctx: nat, group: bool)
    requires Mergeable(e, mask, ctx, group) && Overlaps(id, mask, e.id, e.mask)
    ensures ctx == e.ctx
    ensures mask > e.mask ==> Includes(e.id, e.mask, id, mask)
    ensures !(mask > e.mask) ==> Includes(id, mask, e.id, e.mask)
  {
    hide Overlaps, Includes, Nested, Part;
    MaskOrder(mask, e.mask);
    if mask > e.mask {
      OverlapSymmetric(id, mask, e.id, e.mask);
      NarrowerIsIncluded(e.id, e.mask, id, mask);
    } else {
      NarrowerIsIncluded(id, mask, e.id, e.mask);
    }
  }

  /** The entries below k that the new selection includes have been dropped, and no others. */
  ghost predicate Dropped(t: seq<Entry>, now: seq<Entry>, a: Addition, k: nat) {
    && |now| == |t| && k <= |t|
    && (forall i | 0 <= i < |t| :: now[i] == t[i] || DroppedEntry(t[i], now[i], a))
    && (forall i | k <= i < |t| :: now[i] == t[i])
    && (forall i | 0 <= i < k && now[i].used :: !Overlaps(a.id, a.mask, now[i].id, now[i].mask))
  }

  ghost predicate DroppedEntry(e: Entry, e': Entry, a: Addition) {
    e.used && e' == e.(used := false) && e.ctx == a.ctx && Includes(e.id, e.mask, a.id, a.mask)
  }

  /** Some entry shares ids with the selection and may not be merged with it. */
  ghost predicate Conflicts(t: seq<Entry>, a: Addition) {
    exists i | 0 <= i < |t| ::
      && t[i].used && Overlaps(a.id, a.mask, t[i].id, t[i].mask)
      && (a.ctx != t[i].ctx || !Nested(a.mask, t[i].mask) || (!a.group && !t[i].group))
  }

  /** An entry that includes the selection leaves no other one to be in conflict with. */
  lemma NoConflict(t: seq<Entry>, a: Addition, k: nat)
    requires Separate(t) && k < |t| && t[k].used && Includes(a.id, a.mask, t[k].id, t[k].mask)
    requires Mergeable(t[k], a.mask, a.ctx, a.group)
    ensures !Conflicts(t, a)
  {
    hide Overlaps, Selects, Nested;
    forall i | 0 <= i < |t| && i != k && t[i].used
      ensures !Overlaps(a.id, a.mask, t[i].id, t[i].mask)
    {
      if Overlaps(a.id, a.mask, t[i].id, t[i].mask) {
        var x := Common(a.id, a.mask, t[i].id);
        CommonSelected(a.id, a.mask, t[i].id, t[i].mask);
        SharedOverlaps(t[i].id, t[i].mask, t[k].id, t[k].mask, x);
        SharedOverlaps(t[k].id, t[k].mask, t[i].id, t[i].mask, x);
        assert false;
      }
    }
  }

  /**
   Entry sme holds the selection, marked as a group if it is one or if the entry was; of the others,
   those it includes are gone and the rest are as before.
   */
  ghost predicate Placed(t: seq<Entry>, next: seq<Entry>, a: Addition, sme: nat) {
    && |next| == |t| && sme < |t|
    && next[sme] == Entry(true, a.group || t[sme].group, a.id, a.mask, a.ctx)
    && (t[sme].used ==> DroppedEntry(t[sme], t[sme].(used := false), a))
    && forall i | 0 <= i < |t| && i != sme :: next[i] == t[i] || DroppedEntry(t[i], next[i], a)
  }

  /** An entry that includes the selection shares ids with everything the selection includes. */
  lemma NothingDropped(t: seq<Entry>, now: seq<Entry>, a: Addition, k: nat)
    requires Separate(t) && Dropped(t, now, a, k) && k < |t| && now[k].used
    requires Includes(a.id, a.mask, now[k].id, now[k].mask)
    ensures now == t
  {
    hide Overlaps, Selects;
    forall i | 0 <= i < |t|
      ensures now[i] == t[i]
    {
      if i < k && DroppedEntry(t[i], now[i], a) {
        SelectsSelf(t[i].id, t[i].mask);
        SharedOverlaps(t[i].id, t[i].mask, t[k].id, t[k].mask, t[i].id);
      }
    }
  }

  // ---- the history

  /** The entry holds the last of the additions stored in it, and is marked exactly if one of them was a group's. */
  ghost predicate StoredBy(e: Entry, stored: seq<Addition>) {
    && (e.group <==> exists k | 0 <= k < |stored| :: stored[k].group)
    && (e.used ==> stored != [] && var a := stored[|stored| - 1]; e.id == a.id && e.mask == a.mask && e.ctx == a.ctx)
  }

  /** The additions that have been stored in each entry, all of them additions to the table. */
  ghost predicate Recorded(t: seq<Entry>, stored: seq<seq<Addition>>, added: set<Addition>) {
    && |stored| == |t|
    && forall i | 0 <= i < |t| :: StoredBy(t[i], stored[i]) && forall a | a in stored[i] :: a in added
  }

  /**
   Whatever has been added and shares ids with the selection is for the same context, has a mask that
   contains the new one or is contained in it, and one of the two is a group.
   */
  ghost predicate Welcome(added: set<Addition>, a: Addition) {
    forall b | b in added && Overlaps(a.id, a.mask, b.id, b.mask) ::
      b.ctx == a.ctx && Nested(a.mask, b.mask) && (a.group || b.group)
  }

  /** A welcome selection is in conflict with no entry. */
  lemma WelcomeFits(t: seq<Entry>, stored: seq<seq<Addition>>, added: set<Addition>, a: Addition)
    requires Recorded(t, stored, added) && Welcome(added, a)
    ensures !Conflicts(t, a)
  {
    hide Overlaps, Nested;
    forall i | 0 <= i < |t| && t[i].used && Overlaps(a.id, a.mask, t[i].id, t[i].mask)
      ensures Mergeable(t[i], a.mask, a.ctx, a.group)
    {
      assert StoredBy(t[i], stored[i]);
      assert stored[i][|stored[i]| - 1] in added;
    }
  }

  lemma StillRecorded(t: seq<Entry>, next: seq<Entry>, stored: seq<seq<Addition>>, added: set<Addition>, a: Addition,
      sme: nat)
    requires Recorded(t, stored, added) && Placed(t, next, a, sme)
    ensures Recorded(next, stored[sme := stored[sme] + [a]], added + {a})
  {
    hide Includes;
    var now := stored[sme] + [a];
    forall i | 0 <= i < |t|
      ensures StoredBy(next[i], stored[sme := now][i])
    {
      assert StoredBy(t[i], stored[i]);
      assert now[|stored[sme]|] == a && forall k | 0 <= k < |stored[sme]| :: now[k] == stored[sme][k];
    }
  }

  class StreamTable {
    var entries: seq<Entry>
    ghost var added: set<Addition>
    ghost var stored: seq<seq<Addition>>

    ghost predicate Valid()
      reads this
    {
      && Separate(entries) && Recorded(entries, stored, added)
      && forall a | a in added :: CoveredBy(entries, a)
    }

    constructor (n: nat)
      ensures Valid() && |entries| == n && added == {} && forall e | e in entries :: !e.used
    {
      entries := seq(n, _ => Entry(false, false, 0, 0, 0));
      added := {};
      stored := seq(n, _ => []);
    }

    /** Looks for an entry that includes the selection, dropping entries that it includes. */
    method CompatibleExists(mask: StreamId, id: StreamId, ctx: nat, group: bool) returns (r: Search)
      requires Separate(entries)
      modifies this`entries
      ensures |entries| == |old(entries)|
      ensures r.Included? ==> entries == old(entries) && CoveredBy(entries, Addition(ctx, id, mask, group))
      ensures r.NotIncluded? ==> Dropped(old(entries), entries, Addition(ctx, id, mask, group), |entries|)
      ensures r.Conflict? <==> Conflicts(old(entries), Addition(ctx, id, mask, group))
    {
      hide Overlaps, Selects, Includes, Nested;
      ghost var a := Addition(ctx, id, mask, group);
      var sme := 0;
      while sme < |entries|
        invariant 0 <= sme <= |entries|
        invariant Dropped(old(entries), entries, a, sme)
        invariant forall i | 0 <= i < sme && old(entries)[i].used ::
          Overlaps(id, mask, old(entries)[i].id, old(entries)[i].mask) ==> Mergeable(old(entries)[i], mask, ctx, group)
      {
        var e := entries[sme];
        if e.used && Overlaps(id, mask, e.id, e.mask) {
          if Mergeable(e, mask, ctx, group) {
            MergeDirection(e, id, mask, ctx, group);
            if mask > e.mask {
              entries := entries[sme := e.(used := false)];
            } else {
              NothingDropped(old(entries), entries, a, sme);
              NoConflict(old(entries), a, sme);
              assert Holds(entries[sme], a);
              return Included;
            }
          } else {
            assert old(entries)[sme] == e;
            return Conflict;
          }
        }
        sme := sme + 1;
      }
      return NotIncluded;
    }

    /** The first entry not in use. */
    method AllocSme() returns (sme: nat)
      modifies this`entries
      ensures |entries| == |old(entries)|
      ensures sme <= |entries| && forall i | 0 <= i < sme :: old(entries)[i].used
      ensures sme < |entries| ==>
        !old(entries)[sme].used && entries == old(entries)[sme := old(entries)[sme].(used := true)]
      ensures sme == |entries| ==> entries == old(entries)
    {
      sme := 0;
      while sme < |entries| && entries[sme].used
        invariant sme <= |entries| && forall i | 0 <= i < sme :: entries[i].used
      {
        sme := sme + 1;
      }
      if sme < |entries| {
        entries := entries[sme := entries[sme].(used := true)];
      }
    }

    /** Adds a selection for a context. */
    method Add(ctx: nat, mask: StreamId, id: StreamId, group: bool) returns (r: Outcome)
      requires Valid()
      modifies this
      ensures |entries| == |old(entries)|
      ensures r.Added? ==> Valid() && added == old(added) + {Addition(ctx, id, mask, group)}
      ensures r.Added? ==>
        || (entries == old(entries) && stored == old(stored) && CoveredBy(old(entries), Addition(ctx, id, mask, group)))
        || exists sme: nat ::
             && Placed(old(entries), entries, Addition(ctx, id, mask, group), sme) && sme < |old(stored)|
             && stored == old(stored)[sme := old(stored)[sme] + [Addition(ctx, id, mask, group)]]
      ensures r.Halted? <==> Conflicts(old(entries), Addition(ctx, id, mask, group))
      ensures Welcome(old(added), Addition(ctx, id, mask, group)) ==> !r.Halted?
      ensures r.NoFreeEntry? ==>
        && Valid() && entries == old(entries) && added == old(added) && stored == old(stored)
        && forall e | e in entries :: e.used
    {
      hide Overlaps, Selects, Includes, Mergeable, Nested;
      ghost var a := Addition(ctx, id, mask, group);
      ghost var t := entries;
      if Welcome(added, a) {
        WelcomeFits(t, stored, added, a);
      }
      var found := CompatibleExists(mask, id, ctx, group);
      if found.Conflict? {
        return Halted;
      }
      if found.NotIncluded? {
        ghost var now := entries;
        var sme := AllocSme();
        if sme == |entries| {
          FullUnchanged(t, now, a);
          return NoFreeEntry;
        }
        entries := entries[sme := entries[sme].(id := id, mask := mask, group := group || entries[sme].group)];
        entries := entries[sme := entries[sme].(ctx := ctx)];
        Inserted(t, now, entries, a, sme, added);
        assert Placed(t, entries, a, sme);
        StillRecorded(t, entries, stored, added, a, sme);
        stored := stored[sme := stored[sme] + [a]];
      }
      added := added + {a};
      return Added;
    }
  }

  lemma OverlapSymmetric(id1: StreamId, mask1: StreamId, id2: StreamId, mask2: StreamId)
    ensures Overlaps(id1, mask1, id2, mask2) <==> Overlaps(id2, mask2, id1, mask1)
  {
  }

  /** A table in which every entry is in use has had nothing dropped. */
  lemma FullUnchanged(t: seq<Entry>, now: seq<Entry>, a: Addition)
    requires Dropped(t, now, a, |t|) && forall i | 0 <= i < |now| :: now[i].used
    ensures now == t
  {
  }

  /** Storing the selection in a free entry keeps the table separate and covers it and all before it. */
  lemma Inserted(t: seq<Entry>, now: seq<Entry>, next: seq<Entry>, a: Addition, sme: nat, added: set<Addition>)
    requires Separate(t) && Dropped(t, now, a, |t|) && sme < |t| && !now[sme].used && |next| == |t|
    requires forall i | 0 <= i < |t| && i != sme :: next[i] == now[i]
    requires next[sme].used && next[sme].id == a.id && next[sme].mask == a.mask && next[sme].ctx == a.ctx
    requires forall b | b in added :: CoveredBy(t, b)
    ensures Separate(next) && forall b | b in added + {a} :: CoveredBy(next, b)
  {
    hide Overlaps, Selects, Includes;
    forall i, j | 0 <= i < j < |next| && next[i].used && next[j].used
      ensures !Overlaps(next[i].id, next[i].mask, next[j].id, next[j].mask)
    {
      if j == sme { OverlapSymmetric(a.id, a.mask, next[i].id, next[i].mask); }
    }
    forall b | b in added + {a}
      ensures CoveredBy(next, b)
    {
      if b == a {
        IncludesSelf(a.id, a.mask);
        assert Holds(next[sme], b);
      } else {
        var i :| 0 <= i < |t| && Holds(t[i], b);
        if now[i] == t[i] {
          assert Holds(next[i], b);
        } else {
          IncludesTrans(b, t[i], a);
          assert Holds(next[sme], b);
        }
      }
    }
  }

  lemma IncludesSelf(id: StreamId, mask: StreamId)
    ensures Includes(id, mask, id, mask)
  {
  }

  lemma IncludesTrans(b: Addition, e: Entry, a: Addition)
    requires Includes(b.id, b.mask, e.id, e.mask) && Includes(e.id, e.mask, a.id, a.mask)
    ensures Includes(b.id, b.mask, a.id, a.mask)
  {
  }
}
