/**
 The search for a free range of virtual memory. It goes through the entries of one table after
 another, takes free entries whole where they lie in the range and puts tables behind the others.
 */
module RangeSearch {
  import opened Basics
  import opened Arith
  import opened PageTableModel

  const INVALID_VA: nat := VA_LIMIT - 1

  /** Every address is found at its level or below. */
  ghost predicate Deeper(d: Descriptor, mem: Memory, lab: seq<Label>, mem': Memory, lab': seq<Label>)
    requires WellFormed(d, mem, lab) && WellFormed(d, mem', lab')
  {
    forall w: nat :: Lookup(d, mem, lab, w).0 <= Lookup(d, mem', lab', w).0
  }

  /** The same, and every address has the attributes that it had. */
  ghost predicate Finer(d: Descriptor, mem: Memory, lab: seq<Label>, mem': Memory, lab': seq<Label>)
    requires WellFormed(d, mem, lab) && WellFormed(d, mem', lab')
  {
    && Deeper(d, mem, lab, mem', lab')
    && forall w: nat :: FlagsOf(d, mem', lab', w) == FlagsOf(d, mem, lab, w)
  }

  /** Every address of a range is found at page level. */
  ghost predicate Paged(d: Descriptor, mem: Memory, lab: seq<Label>, lo: nat, hi: nat)
    requires WellFormed(d, mem, lab)
  {
    forall w: nat | lo <= w < hi :: Lookup(d, mem, lab, w).0 == d.Lvls() - 1
  }

  lemma StillPaged(d: Descriptor, mem: Memory, lab: seq<Label>, mem': Memory, lab': seq<Label>, lo: nat, hi: nat)
    requires WellFormed(d, mem, lab) && WellFormed(d, mem', lab')
    requires Deeper(d, mem, lab, mem', lab') && Paged(d, mem, lab, lo, hi)
    ensures Paged(d, mem', lab', lo, hi)
  {
    hide Lookup;
    forall w: nat | lo <= w < hi
      ensures Lookup(d, mem', lab', w).0 == d.Lvls() - 1
    {
      assert Lookup(d, mem, lab, w).0 <= Lookup(d, mem', lab', w).0;
    }
  }

  /** All of [at, addr) is free, in blocks that stay inside, and nothing else has changed. */
  ghost predicate Scanned(d: Descriptor, mem0: Memory, lab0: seq<Label>, mem: Memory, lab: seq<Label>, at: nat,
      addr: nat)
  {
    && WellFormed(d, mem0, lab0) && WellFormed(d, mem, lab)
    && SameView(d, mem0, lab0, mem, lab) && Finer(d, mem0, lab0, mem, lab)
    && Within(d, mem, lab, at, addr)
    && (forall w: nat | at <= w < addr :: ViewOf(d, mem, lab, w) == Unmapped)
  }

  lemma ScanSplit(d: Descriptor, mem0: Memory, lab0: seq<Label>, mem: Memory, lab: seq<Label>,
                  at: nat, addr: nat, l: nat, page: seq<Pte>)
    requires Scanned(d, mem0, lab0, mem, lab, at, addr) && l + 1 < d.Lvls()
    requires Lookup(d, mem, lab, addr).0 == l && Refines(d, l, Lookup(d, mem, lab, addr).1, page)
    requires Lookup(d, mem, lab, addr).1.Invalid?
    ensures var t, i := TableAt(d, mem, lab, addr, l), d.Index(addr, l);
            var mem', lab' := Split(mem, t, i, page), SplitLabels(d, lab, t, i);
            && Scanned(d, mem0, lab0, mem', lab', at, addr)
            && Reaches(d, mem', lab', addr, l + 1)
  {
    var t, i := TableAt(d, mem, lab, addr, l), d.Index(addr, l);
    var mem', lab' := Split(mem, t, i, page), SplitLabels(d, lab, t, i);
    SplitKeepsWithin(d, mem, lab, addr, l, page, at, addr);
    forall w: nat
      ensures ViewOf(d, mem', lab', w) == ViewOf(d, mem, lab, w)
      ensures Lookup(d, mem, lab, w).0 <= Lookup(d, mem', lab', w).0
      ensures FlagsOf(d, mem', lab', w) == FlagsOf(d, mem, lab, w)
    {
      SplitKeepsView(d, mem, lab, addr, l, page, w);
      SplitLookup(d, mem, lab, addr, l, page, w);
      if d.Block(w, l) == d.Block(addr, l) {
        LookupShared(d, mem, lab, addr, w);
      }
    }
    SplitLookup(d, mem, lab, addr, l, page, addr);
  }

  lemma ScanAdvance(d: Descriptor, mem0: Memory, lab0: seq<Label>, mem: Memory, lab: seq<Label>, at: nat, addr: nat)
    requires Scanned(d, mem0, lab0, mem, lab, at, addr) && at <= addr
    requires Lookup(d, mem, lab, addr).1 == Invalid(false)
    requires addr % d.LvlSize(Lookup(d, mem, lab, addr).0) == 0
    ensures Scanned(d, mem0, lab0, mem, lab, at, addr + d.LvlSize(Lookup(d, mem, lab, addr).0))
  {
    ExtendWithin(d, mem, lab, at, addr);
  }

  function Filled(n: nat, e: Pte): (page: seq<Pte>)
    ensures |page| == n && forall j | 0 <= j < n :: page[j] == e
  {
    seq(n, _ => e)
  }

  /** A scan that has descended to the level-lvl table of addr; its next entry is at addr. */
  ghost predicate Scanning(d: Descriptor, mem0: Memory, lab0: seq<Label>, mem: Memory, lab: seq<Label>,
                           at: nat, n: nat, addr: nat, count: nat, lvl: nat)
  {
    && Scanned(d, mem0, lab0, mem, lab, at, addr)
    && addr == at + count * PAGE_SIZE && count <= n
    && lvl < d.Lvls() && Reaches(d, mem, lab, addr, lvl)
  }

  /** Putting a table behind the free entry under addr moves the scan one level down. */
  lemma DescendEntry(d: Descriptor, mem0: Memory, lab0: seq<Label>, mem: Memory, lab: seq<Label>,
                     at: nat, n: nat, addr: nat, count: nat, lvl: nat)
    requires Scanning(d, mem0, lab0, mem, lab, at, n, addr, count, lvl) && lvl + 1 < d.Lvls()
    requires Lookup(d, mem, lab, addr) == (lvl, Invalid(false))
    ensures var t, i := TableAt(d, mem, lab, addr, lvl), d.Index(addr, lvl);
            var mem' := Split(mem, t, i, Filled(d.NEntries(lvl + 1), Invalid(false)));
            && mem'[t][i].Table?
            && Scanning(d, mem0, lab0, mem', SplitLabels(d, lab, t, i), at, n, addr, count, lvl + 1)
  {
    ScanSplit(d, mem0, lab0, mem, lab, at, addr, lvl, Filled(d.NEntries(lvl + 1), Invalid(false)));
  }

  /** Taking the free entry under addr whole moves the scan to the next entry. */
  lemma TakeEntry(d: Descriptor, mem0: Memory, lab0: seq<Label>, mem: Memory, lab: seq<Label>,
                  at: nat, n: nat, addr: nat, count: nat, lvl: nat)
    requires Scanning(d, mem0, lab0, mem, lab, at, n, addr, count, lvl)
    requires Lookup(d, mem, lab, addr) == (lvl, Invalid(false))
    requires addr % d.LvlSize(lvl) == 0 && d.LvlSize(lvl) <= (n - count) * PAGE_SIZE
    ensures var next := addr + d.LvlSize(lvl);
            var count' := count + d.LvlSize(lvl) / PAGE_SIZE;
            && count < count' <= n
            && Scanning(d, mem0, lab0, mem, lab, at, n, next, count', 0)
            && (d.Index(addr, lvl) + 1 < d.NEntries(lvl) ==>
                  && Scanning(d, mem0, lab0, mem, lab, at, n, next, count', lvl)
                  && TableAt(d, mem, lab, next, lvl) == TableAt(d, mem, lab, addr, lvl)
                  && d.Index(next, lvl) == d.Index(addr, lvl) + 1)
  {
    hide Pow2, Descriptor.NEntries, Descriptor.Index, Descriptor.Block;
    ScanAdvance(d, mem0, lab0, mem, lab, at, addr);
    SizeInPages(d, lvl);
    if d.Index(addr, lvl) + 1 < d.NEntries(lvl) {
      NextEntry(d, addr, lvl);
      TableAtShared(d, mem, lab, addr, addr + d.LvlSize(lvl), lvl);
    }
  }

  // ---- a request for an address

  /** A terminal entry of level k around x would lie in the range. */
  ghost predicate Fits(d: Descriptor, lo: nat, hi: nat, x: nat, k: nat)
    requires d.Valid() && k < d.Lvls()
  {
    d.term[k] && lo <= d.Base(x, k) && d.Base(x, k) + d.LvlSize(k) <= hi
  }

  ghost function CoverFrom(d: Descriptor, lo: nat, hi: nat, x: nat, k: nat): (l: nat)
    requires d.Valid() && k < d.Lvls()
    ensures k <= l < d.Lvls()
    decreases d.Lvls() - k
  {
    if k == d.Lvls() - 1 || Fits(d, lo, hi, x, k) then k else CoverFrom(d, lo, hi, x, k + 1)
  }

  /** The level of the largest block around x that lies in the range and that no table divides. */
  ghost function Cover(d: Descriptor, mem: Memory, lab: seq<Label>, lo: nat, hi: nat, x: nat): (l: nat)
    requires WellFormed(d, mem, lab)
    ensures l < d.Lvls()
  {
    CoverFrom(d, lo, hi, x, Lookup(d, mem, lab, x).0)
  }

  /** Which of the tables of a level an address belongs to, before aliasing. */
  ghost function TableNumber(d: Descriptor, x: nat, l: nat): int
    requires d.Valid() && l < d.Lvls()
  {
    DivDiv(x, d.LvlSize(l), d.NEntries(l));
    x / (d.LvlSize(l) * d.NEntries(l))
  }

  /** The range goes on at a in another table than the one it comes from. */
  ghost predicate Turns(d: Descriptor, mem: Memory, lab: seq<Label>, lo: nat, hi: nat, a: nat)
    requires WellFormed(d, mem, lab) && a > 0
  {
    var l := Cover(d, mem, lab, lo, hi, a - 1);
    Cover(d, mem, lab, lo, hi, a) != l || TableNumber(d, a, l) != TableNumber(d, a - 1, l)
  }

  /** Something in the range is taken. */
  ghost predicate Taken(d: Descriptor, mem: Memory, lab: seq<Label>, lo: nat, hi: nat)
    requires WellFormed(d, mem, lab)
  {
    exists w: nat | lo <= w < hi :: ViewOf(d, mem, lab, w) != Unmapped
  }

  /** The range changes tables less than n pages from the end of all addresses. */
  ghost predicate TurnsLate(d: Descriptor, mem: Memory, lab: seq<Label>, at: nat, n: nat)
    requires WellFormed(d, mem, lab)
  {
    var hi := at + n * PAGE_SIZE;
    exists a: nat | at < a < hi :: VA_LIMIT < a + n * PAGE_SIZE && Turns(d, mem, lab, at, hi, a)
  }

  /** When a request for n pages at a given address is turned down. */
  ghost predicate Refused(d: Descriptor, mem: Memory, lab: seq<Label>, at: nat, n: nat)
    requires WellFormed(d, mem, lab)
  {
    || n == 0
    || at % PAGE_SIZE != 0
    || VA_LIMIT < at + n * PAGE_SIZE
    || Taken(d, mem, lab, at, at + n * PAGE_SIZE)
    || TurnsLate(d, mem, lab, at, n)
  }

  lemma {:induction false} CoverIs(d: Descriptor, lo: nat, hi: nat, x: nat, k: nat, l: nat)
    requires d.Valid() && k <= l < d.Lvls()
    requires forall j | k <= j < l :: !Fits(d, lo, hi, x, j)
    requires l == d.Lvls() - 1 || Fits(d, lo, hi, x, l)
    ensures CoverFrom(d, lo, hi, x, k) == l
    decreases l - k
  {
    hide Fits;
    if k < l {
      CoverIs(d, lo, hi, x, k + 1, l);
    }
  }

  lemma {:induction false} CoverNot(d: Descriptor, lo: nat, hi: nat, x: nat, k: nat, l: nat)
    requires d.Valid() && k < d.Lvls() && l + 1 < d.Lvls() && !Fits(d, lo, hi, x, l)
    ensures CoverFrom(d, lo, hi, x, k) != l
    decreases d.Lvls() - k
  {
    hide Fits;
    if k != d.Lvls() - 1 && !Fits(d, lo, hi, x, k) {
      CoverNot(d, lo, hi, x, k + 1, l);
    }
  }

  /** The scan has put tables only where no block of the range is. */
  ghost predicate Sparing(d: Descriptor, mem0: Memory, lab0: seq<Label>, mem: Memory, lab: seq<Label>, lo: nat, hi: nat)
  {
    && WellFormed(d, mem0, lab0) && WellFormed(d, mem, lab)
    && forall w: nat | lo <= w < hi :: Spared(d, mem0, lab0, mem, lab, lo, hi, w)
  }

  ghost predicate Spared(d: Descriptor, mem0: Memory, lab0: seq<Label>, mem: Memory, lab: seq<Label>, lo: nat, hi: nat,
      w: nat)
    requires WellFormed(d, mem0, lab0) && WellFormed(d, mem, lab)
  {
    && Lookup(d, mem0, lab0, w).0 <= Lookup(d, mem, lab, w).0
    && forall k | Lookup(d, mem0, lab0, w).0 <= k < Lookup(d, mem, lab, w).0 :: !Fits(d, lo, hi, w, k)
  }

  /** A block that is taken whole is the largest around its addresses. */
  lemma TakenCovers(d: Descriptor, mem0: Memory, lab0: seq<Label>, mem: Memory, lab: seq<Label>, lo: nat, hi: nat,
      addr: nat, l: nat, x: nat)
    requires Sparing(d, mem0, lab0, mem, lab, lo, hi) && Lookup(d, mem, lab, addr).0 == l
    requires addr % d.LvlSize(l) == 0 && d.term[l] && lo <= addr <= x < addr + d.LvlSize(l) <= hi
    ensures Cover(d, mem0, lab0, lo, hi, x) == l
  {
    hide Lookup, Descriptor.Block, Pow2;
    InBlock(d, addr, x, l);
    LookupShared(d, mem, lab, addr, x);
    assert Spared(d, mem0, lab0, mem, lab, lo, hi, x);
    CoverIs(d, lo, hi, x, Lookup(d, mem0, lab0, x).0, l);
  }

  /** Under an entry that is a table, there is no block of that entry's size. */
  lemma TableCovers(d: Descriptor, mem0: Memory, lab0: seq<Label>, mem: Memory, lab: seq<Label>, lo: nat, hi: nat,
      addr: nat, l: nat)
    requires Sparing(d, mem0, lab0, mem, lab, lo, hi) && lo <= addr < hi && l < Lookup(d, mem, lab, addr).0
    ensures Cover(d, mem0, lab0, lo, hi, addr) != l
  {
    hide Lookup, Fits, CoverFrom;
    assert Spared(d, mem0, lab0, mem, lab, lo, hi, addr);
    if Lookup(d, mem0, lab0, addr).0 <= l {
      CoverNot(d, lo, hi, addr, Lookup(d, mem0, lab0, addr).0, l);
    }
  }

  /** Blocks that alias are not both in a range that is no longer than the space. */
  lemma SameFit(d: Descriptor, lo: nat, hi: nat, addr: nat, w: nat, l: nat)
    requires d.Valid() && l < d.Lvls() && lo <= addr < hi <= lo + d.Span() && lo <= w < hi
    requires d.Block(w, l) == d.Block(addr, l) && Fits(d, lo, hi, w, l)
    ensures Fits(d, lo, hi, addr, l)
  {
    hide Pow2, Descriptor.Block, Descriptor.Span;
    var s, b, c := d.LvlSize(l), d.Base(w, l), d.Base(addr, l);
    RoundDown(w, s);
    RoundDown(addr, s);
    InBlock(d, b, w, l);
    InBlock(d, c, addr, l);
    if c < b {
      MultiplesApart(c, b, s);
      FarAlias(d, c, b, l);
      assert false;
    } else if b < c {
      MultiplesApart(b, c, s);
      FarAlias(d, b, c, l);
      assert false;
    }
  }

  /** A table under a block that is not in the range spares the blocks that are. */
  lemma SpareSplit(d: Descriptor, mem0: Memory, lab0: seq<Label>, mem: Memory, lab: seq<Label>, lo: nat, hi: nat,
      addr: nat, l: nat, page: seq<Pte>)
    requires Sparing(d, mem0, lab0, mem, lab, lo, hi) && l + 1 < d.Lvls() && lo <= addr < hi <= lo + d.Span()
    requires Lookup(d, mem, lab, addr).0 == l && PageOk(d, l + 1, page) && !page[d.Index(addr, l + 1)].Table?
    requires !Fits(d, lo, hi, addr, l)
    ensures var t, i := TableAt(d, mem, lab, addr, l), d.Index(addr, l);
            Sparing(d, mem0, lab0, Split(mem, t, i, page), SplitLabels(d, lab, t, i), lo, hi)
  {
    hide Pow2, Descriptor.Block, Descriptor.Span, Descriptor.NEntries, Descriptor.Index, Lookup, Fits, EntryOk;
    var t, i := TableAt(d, mem, lab, addr, l), d.Index(addr, l);
    var mem', lab' := Split(mem, t, i, page), SplitLabels(d, lab, t, i);
    SplitWellFormed(d, mem, lab, t, i, page);
    forall w: nat | lo <= w < hi
      ensures Spared(d, mem0, lab0, mem', lab', lo, hi, w)
    {
      assert Spared(d, mem0, lab0, mem, lab, lo, hi, w);
      SplitLookup(d, mem, lab, addr, l, page, w);
      if d.Block(w, l) == d.Block(addr, l) {
        LookupShared(d, mem, lab, addr, w);
        if Fits(d, lo, hi, w, l) {
          SameFit(d, lo, hi, addr, w, l);
        }
      }
    }
  }

  /** A free entry that is not taken whole does not lie in the range. */
  lemma NotInRange(d: Descriptor, mem: Memory, lab: seq<Label>, lo: nat, hi: nat, addr: nat, l: nat)
    requires WellFormed(d, mem, lab) && Within(d, mem, lab, lo, addr) && lo <= addr
    requires Lookup(d, mem, lab, addr).0 == l
    requires !d.term[l] || hi < addr + d.LvlSize(l) || addr % d.LvlSize(l) != 0
    ensures !Fits(d, lo, hi, addr, l)
  {
    hide Lookup, Pow2, Descriptor.Block;
    var b := d.Base(addr, l);
    RoundDown(addr, d.LvlSize(l));
    if Fits(d, lo, hi, addr, l) && b < addr {
      InBlock(d, b, addr, l);
      InBlock(d, b, b, l);
      LookupShared(d, mem, lab, addr, b);
      assert false;
    }
  }

  /** Behind the last entry of a table another one begins. */
  lemma TableEnds(d: Descriptor, addr: nat, l: nat)
    requires d.Valid() && l < d.Lvls() && addr % d.LvlSize(l) == 0
    ensures var next := addr + d.LvlSize(l);
            TableNumber(d, next, l) == TableNumber(d, addr, l) <==> d.Index(addr, l) + 1 < d.NEntries(l)
  {
    hide Pow2, Descriptor.LvlSize, Descriptor.NEntries, Descriptor.Valid;
    var s, n := d.LvlSize(l), d.NEntries(l);
    if d.Index(addr, l) + 1 < n {
      NextInGroup(addr, s, n);
    } else {
      GroupEnds(addr, s, n);
    }
  }

  /** All addresses of a block belong to the table of its first one. */
  lemma BlockInTable(d: Descriptor, addr: nat, l: nat, x: nat)
    requires d.Valid() && l < d.Lvls() && addr % d.LvlSize(l) == 0 && addr <= x < addr + d.LvlSize(l)
    ensures TableNumber(d, x, l) == TableNumber(d, addr, l)
  {
    hide Pow2;
    var s, n := d.LvlSize(l), d.NEntries(l);
    DivDiv(addr, s, n);
    DivDiv(x, s, n);
    ModRange(addr, s);
    DivUnique(x, s, addr / s, x - addr);
  }

  // ---- a request for any address

  ghost predicate FreeRun(d: Descriptor, mem: Memory, lab: seq<Label>, x: nat, n: nat)
    requires WellFormed(d, mem, lab)
  {
    !Taken(d, mem, lab, x, x + n * PAGE_SIZE)
  }

  /** Everything below addr has been gone through in whole blocks, and no free run of n pages begins below from. */
  ghost predicate Searched(d: Descriptor, mem0: Memory, lab0: seq<Label>, mem: Memory, lab: seq<Label>,
                           from: nat, addr: nat, n: nat)
  {
    && WellFormed(d, mem0, lab0) && WellFormed(d, mem, lab) && Within(d, mem, lab, 0, addr)
    && forall x: nat | x < from :: !FreeRun(d, mem0, lab0, x, n)
  }

  /** The search is at the start of an entry. */
  lemma AtStart(d: Descriptor, mem: Memory, lab: seq<Label>, addr: nat)
    requires WellFormed(d, mem, lab) && Within(d, mem, lab, 0, addr)
    ensures addr % d.LvlSize(Lookup(d, mem, lab, addr).0) == 0
  {
    hide Lookup, Pow2, Descriptor.Block;
    var l := Lookup(d, mem, lab, addr).0;
    var b := d.Base(addr, l);
    RoundDown(addr, d.LvlSize(l));
    if b < addr {
      InBlock(d, b, addr, l);
      InBlock(d, b, b, l);
      LookupShared(d, mem, lab, addr, b);
      assert false;
    }
  }

  /** No run begins at or before a taken page that the search has come to with less than n free ones. */
  lemma NoneBefore(d: Descriptor, mem0: Memory, lab0: seq<Label>, mem: Memory, lab: seq<Label>,
                   from: nat, addr: nat, count: nat, n: nat)
    requires Searched(d, mem0, lab0, mem, lab, from, addr, n) && SameView(d, mem0, lab0, mem, lab)
    requires addr == from + count * PAGE_SIZE && count < n && Lookup(d, mem, lab, addr).1 != Invalid(false)
    ensures var next := addr + d.LvlSize(Lookup(d, mem, lab, addr).0); Searched(d, mem0, lab0, mem, lab, next, next, n)
  {
    hide Lookup, Pow2, Descriptor.Block;
    var (l, e) := Lookup(d, mem, lab, addr);
    var next := addr + d.LvlSize(l);
    AtStart(d, mem, lab, addr);
    ExtendWithin(d, mem, lab, 0, addr);
    forall x: nat | x < next
      ensures !FreeRun(d, mem0, lab0, x, n)
    {
      if from <= x {
        var w := if x <= addr then addr else x;
        assert Lookup(d, mem, lab, w) == Lookup(d, mem, lab, addr);
        assert ViewOf(d, mem, lab, w) == ViewOf(d, mem0, lab0, w);
        assert ViewOf(d, mem0, lab0, w) != Unmapped;
      }
    }
  }

  /** An address reads as the one in the space that it stands for. */
  lemma ViewAlias(d: Descriptor, mem: Memory, lab: seq<Label>, w: nat, x: nat)
    requires WellFormed(d, mem, lab) && d.Span() > 0 && w % d.Span() == x % d.Span()
    ensures ViewOf(d, mem, lab, w) == Unmapped <==> ViewOf(d, mem, lab, x) == Unmapped
  {
    hide Lookup, Pow2, Descriptor.Span;
    var l := Lookup(d, mem, lab, w).0;
    BlockOfAlias(d, w, l);
    BlockOfAlias(d, x, l);
    LookupShared(d, mem, lab, w, x);
  }

  /** A free run anywhere means one that begins in the space. */
  lemma RunAlias(d: Descriptor, mem: Memory, lab: seq<Label>, x: nat, n: nat)
    requires WellFormed(d, mem, lab) && FreeRun(d, mem, lab, x, n)
    ensures d.Span() > 0 && FreeRun(d, mem, lab, x % d.Span(), n)
  {
    hide Pow2, Descriptor.Span, ViewOf;
    BlockOfAlias(d, x, 0);
    var span := d.Span();
    ModRange(x, span);
    forall w: nat | x % span <= w < x % span + n * PAGE_SIZE
      ensures ViewOf(d, mem, lab, w) == Unmapped
    {
      var v := w + (x - x % span);
      assert v == w + (x / span) * span;
      ModRange(w, span);
      DivUnique(v, span, w / span + x / span, w % span);
      ViewAlias(d, mem, lab, v, w);
      assert ViewOf(d, mem, lab, v) == Unmapped;
    }
  }

  /** A search that has gone through the whole space has found that there is none. */
  lemma NoneAtAll(d: Descriptor, mem0: Memory, lab0: seq<Label>, mem: Memory, lab: seq<Label>, from: nat, addr: nat,
      n: nat)
    requires Searched(d, mem0, lab0, mem, lab, from, addr, n) && d.Span() <= from
    ensures forall x: nat :: !FreeRun(d, mem0, lab0, x, n)
  {
    hide Pow2, Descriptor.Span, FreeRun;
    forall x: nat
      ensures !FreeRun(d, mem0, lab0, x, n)
    {
      if FreeRun(d, mem0, lab0, x, n) {
        RunAlias(d, mem0, lab0, x, n);
        ModRange(x, d.Span());
      }
    }
  }

  // ---- the steps of a search

  /** A search for n pages, at an address if exact, that is at an entry of some level. */
  ghost predicate Going(d: Descriptor, mem0: Memory, lab0: seq<Label>, mem: Memory, lab: seq<Label>,
                        exact: bool, from: nat, n: nat, addr: nat, count: nat, lvl: nat)
  {
    && Scanning(d, mem0, lab0, mem, lab, from, n, addr, count, lvl) && n * PAGE_SIZE <= d.Span()
    && (exact ==> Sparing(d, mem0, lab0, mem, lab, from, from + n * PAGE_SIZE))
    && (!exact ==> Searched(d, mem0, lab0, mem, lab, from, addr, n))
  }

  lemma GoingFacts(d: Descriptor, mem0: Memory, lab0: seq<Label>, mem: Memory, lab: seq<Label>,
                   exact: bool, from: nat, n: nat, addr: nat, count: nat, lvl: nat)
    requires Going(d, mem0, lab0, mem, lab, exact, from, n, addr, count, lvl)
    ensures WellFormed(d, mem0, lab0) && WellFormed(d, mem, lab) && SameView(d, mem0, lab0, mem, lab)
    ensures lvl < d.Lvls() && Reaches(d, mem, lab, addr, lvl) && Finer(d, mem0, lab0, mem, lab)
    ensures d.Valid() && |lab| == |mem| && |mem[TableAt(d, mem, lab, addr, lvl)]| == d.NEntries(lvl)
    ensures addr == from + count * PAGE_SIZE && count <= n && n * PAGE_SIZE <= VA_LIMIT
  {
    hide Sparing, Searched;
    Pow2Limit(d.wdt[0]);
  }

  /** Addresses a to b are taken in blocks of one level, which are entries of one table. */
  ghost predicate InOneTable(d: Descriptor, mem: Memory, lab: seq<Label>, lo: nat, hi: nat, l: nat, a: nat, b: nat)
    requires WellFormed(d, mem, lab) && l < d.Lvls()
  {
    forall x: nat | a <= x < b :: InTableOf(d, mem, lab, lo, hi, l, a, x)
  }

  ghost predicate InTableOf(d: Descriptor, mem: Memory, lab: seq<Label>, lo: nat, hi: nat, l: nat, a: nat, x: nat)
    requires WellFormed(d, mem, lab) && l < d.Lvls()
  {
    Cover(d, mem, lab, lo, hi, x) == l && TableNumber(d, x, l) == TableNumber(d, a, l)
  }

  /** Taking a free entry whole. */
  lemma GoTake(d: Descriptor, mem0: Memory, lab0: seq<Label>, mem: Memory, lab: seq<Label>,
               exact: bool, from: nat, n: nat, addr: nat, count: nat, lvl: nat)
    requires Going(d, mem0, lab0, mem, lab, exact, from, n, addr, count, lvl)
    requires Lookup(d, mem, lab, addr) == (lvl, Invalid(false)) && from % PAGE_SIZE == 0 && count < n
    requires || lvl == d.Lvls() - 1
             || (d.term[lvl] && addr % d.LvlSize(lvl) == 0 && d.LvlSize(lvl) <= (n - count) * PAGE_SIZE)
    ensures var next := addr + d.LvlSize(lvl);
            var count' := count + d.LvlSize(lvl) / PAGE_SIZE;
            && addr % d.LvlSize(lvl) == 0 && count < count' <= n
            && Going(d, mem0, lab0, mem, lab, exact, from, n, next, count', 0)
            && (d.Index(addr, lvl) + 1 < d.NEntries(lvl) ==>
                  && Going(d, mem0, lab0, mem, lab, exact, from, n, next, count', lvl)
                  && TableAt(d, mem, lab, next, lvl) == TableAt(d, mem, lab, addr, lvl)
                  && d.Index(next, lvl) == d.Index(addr, lvl) + 1)
            && (exact ==> InOneTable(d, mem0, lab0, from, from + n * PAGE_SIZE, lvl, addr, next))
  {
    hide Pow2, Descriptor.NEntries, Descriptor.Index, Descriptor.Block, Descriptor.Span, Sparing, Lookup, TableAt;
    LastSize(d);
    TakeEntry(d, mem0, lab0, mem, lab, from, n, addr, count, lvl);
    var next, hi := addr + d.LvlSize(lvl), from + n * PAGE_SIZE;
    if exact {
      forall x: nat | addr <= x < next
        ensures InTableOf(d, mem0, lab0, from, hi, lvl, addr, x)
      {
        TakenCovers(d, mem0, lab0, mem, lab, from, hi, addr, lvl, x);
        BlockInTable(d, addr, lvl, x);
      }
    } else {
      ExtendWithin(d, mem, lab, 0, addr);
    }
  }

  /** Putting a table behind a free entry that cannot be taken whole. */
  lemma GoDescend(d: Descriptor, mem0: Memory, lab0: seq<Label>, mem: Memory, lab: seq<Label>,
                  exact: bool, from: nat, n: nat, addr: nat, count: nat, lvl: nat)
    requires Going(d, mem0, lab0, mem, lab, exact, from, n, addr, count, lvl) && lvl + 1 < d.Lvls() && count < n
    requires Lookup(d, mem, lab, addr) == (lvl, Invalid(false))
    requires !d.term[lvl] || d.LvlSize(lvl) > (n - count) * PAGE_SIZE || addr % d.LvlSize(lvl) != 0
    ensures var t, i := TableAt(d, mem, lab, addr, lvl), d.Index(addr, lvl);
            var mem', lab' := Split(mem, t, i, Filled(d.NEntries(lvl + 1), Invalid(false))), SplitLabels(d, lab, t, i);
            && mem'[t][i].Table?
            && Going(d, mem0, lab0, mem', lab', exact, from, n, addr, count, lvl + 1)
            && (exact ==> Cover(d, mem0, lab0, from, from + n * PAGE_SIZE, addr) != lvl)
  {
    hide Pow2, Descriptor.NEntries, Descriptor.Index, Descriptor.Block, Descriptor.Span, Sparing, Lookup, TableAt,
      CoverFrom, Fits;
    var page := Filled(d.NEntries(lvl + 1), Invalid(false));
    DescendEntry(d, mem0, lab0, mem, lab, from, n, addr, count, lvl);
    if exact {
      var hi := from + n * PAGE_SIZE;
      NotInRange(d, mem, lab, from, hi, addr, lvl);
      SpareSplit(d, mem0, lab0, mem, lab, from, hi, addr, lvl, page);
      CoverNot(d, from, hi, addr, Lookup(d, mem0, lab0, addr).0, lvl);
    } else {
      SplitKeepsWithin(d, mem, lab, addr, lvl, page, 0, addr);
    }
  }

  /** Going down into a table. */
  lemma GoEnter(d: Descriptor, mem0: Memory, lab0: seq<Label>, mem: Memory, lab: seq<Label>,
                exact: bool, from: nat, n: nat, addr: nat, count: nat, lvl: nat)
    requires Going(d, mem0, lab0, mem, lab, exact, from, n, addr, count, lvl) && Lookup(d, mem, lab, addr).0 > lvl
    requires count < n
    ensures Going(d, mem0, lab0, mem, lab, exact, from, n, addr, count, lvl + 1)
    ensures exact ==> Cover(d, mem0, lab0, from, from + n * PAGE_SIZE, addr) != lvl
  {
    hide Descriptor.Span, Sparing, Searched, Lookup, Cover;
    if exact {
      TableCovers(d, mem0, lab0, mem, lab, from, from + n * PAGE_SIZE, addr, lvl);
    }
  }

  /** Starting anew behind a taken entry. */
  lemma GoPast(d: Descriptor, mem0: Memory, lab0: seq<Label>, mem: Memory, lab: seq<Label>,
               from: nat, n: nat, addr: nat, count: nat, lvl: nat)
    requires Going(d, mem0, lab0, mem, lab, false, from, n, addr, count, lvl) && count < n && from % PAGE_SIZE == 0
    requires Lookup(d, mem, lab, addr).0 == lvl && Lookup(d, mem, lab, addr).1 != Invalid(false)
    ensures var next := addr + d.LvlSize(lvl);
            && addr < next && next % PAGE_SIZE == 0
            && Going(d, mem0, lab0, mem, lab, false, next, n, next, 0, 0)
            && (d.Index(addr, lvl) + 1 < d.NEntries(lvl) ==>
                  && Going(d, mem0, lab0, mem, lab, false, next, n, next, 0, lvl)
                  && TableAt(d, mem, lab, next, lvl) == TableAt(d, mem, lab, addr, lvl)
                  && d.Index(next, lvl) == d.Index(addr, lvl) + 1)
  {
    hide Pow2, Descriptor.NEntries, Descriptor.Index, Descriptor.Block, Descriptor.Span, Lookup, TableAt, FreeRun,
      SameView, Finer, ViewOf, EntryOk, Descriptor.LvlSize;
    var next := addr + d.LvlSize(lvl);
    SizeInPages(d, lvl);
    WholePages(from, count, d.LvlSize(lvl));
    AtStart(d, mem, lab, addr);
    NoneBefore(d, mem0, lab0, mem, lab, from, addr, count, n);
    if d.Index(addr, lvl) + 1 < d.NEntries(lvl) {
      NextEntry(d, addr, lvl);
      TableAtShared(d, mem, lab, addr, next, lvl);
    }
  }

  lemma WholePages(from: nat, count: nat, s: nat)
    requires from % PAGE_SIZE == 0 && s % PAGE_SIZE == 0
    ensures (from + count * PAGE_SIZE + s) % PAGE_SIZE == 0
  {
  }

  /** A taken page in the requested range. */
  lemma GoFails(d: Descriptor, mem0: Memory, lab0: seq<Label>, mem: Memory, lab: seq<Label>,
                from: nat, n: nat, addr: nat, count: nat, lvl: nat)
    requires Going(d, mem0, lab0, mem, lab, true, from, n, addr, count, lvl) && count < n
    requires Lookup(d, mem, lab, addr).1 != Invalid(false)
    ensures Taken(d, mem0, lab0, from, from + n * PAGE_SIZE)
  {
    hide Sparing, Lookup;
    assert ViewOf(d, mem, lab, addr) == ViewOf(d, mem0, lab0, addr);
  }

  lemma MoreInTable(d: Descriptor, mem: Memory, lab: seq<Label>, lo: nat, hi: nat, l: nat, a: nat, b: nat, c: nat)
    requires WellFormed(d, mem, lab) && l < d.Lvls() && a <= b <= c
    requires InOneTable(d, mem, lab, lo, hi, l, a, b) && InOneTable(d, mem, lab, lo, hi, l, b, c)
    requires TableNumber(d, b, l) == TableNumber(d, a, l)
    ensures InOneTable(d, mem, lab, lo, hi, l, a, c)
  {
    hide Cover, TableNumber;
    forall x: nat | a <= x < c
      ensures InTableOf(d, mem, lab, lo, hi, l, a, x)
    {
      assert if x < b then InTableOf(d, mem, lab, lo, hi, l, a, x) else InTableOf(d, mem, lab, lo, hi, l, b, x);
    }
  }

  /** Behind such a stretch there is another table. */
  lemma TurnsBehind(d: Descriptor, mem: Memory, lab: seq<Label>, lo: nat, hi: nat, l: nat, a: nat, b: nat)
    requires WellFormed(d, mem, lab) && l < d.Lvls() && a < b && InOneTable(d, mem, lab, lo, hi, l, a, b)
    requires Cover(d, mem, lab, lo, hi, b) != l || TableNumber(d, b, l) != TableNumber(d, a, l)
    ensures Turns(d, mem, lab, lo, hi, b)
  {
    hide Cover, TableNumber;
    assert InTableOf(d, mem, lab, lo, hi, l, a, b - 1);
  }

  /** Within such a stretch there is none. */
  lemma NoTurns(d: Descriptor, mem: Memory, lab: seq<Label>, lo: nat, hi: nat, l: nat, a: nat, b: nat, x: nat)
    requires WellFormed(d, mem, lab) && l < d.Lvls() && InOneTable(d, mem, lab, lo, hi, l, a, b) && a < x < b
    ensures !Turns(d, mem, lab, lo, hi, x)
  {
    hide Cover, TableNumber;
    assert InTableOf(d, mem, lab, lo, hi, l, a, x - 1) && InTableOf(d, mem, lab, lo, hi, l, a, x);
  }

  /** A search at an address has taken everything from addr0 on in blocks of one table. */
  ghost predicate Along(d: Descriptor, mem: Memory, lab: seq<Label>, exact: bool, lo: nat, hi: nat, l: nat,
      a: nat, b: nat)
    requires WellFormed(d, mem, lab) && l < d.Lvls()
  {
    exact ==> InOneTable(d, mem, lab, lo, hi, l, a, b) && TableNumber(d, b, l) == TableNumber(d, a, l)
  }

  lemma AlongStart(d: Descriptor, mem: Memory, lab: seq<Label>, exact: bool, lo: nat, hi: nat, l: nat, a: nat)
    requires WellFormed(d, mem, lab) && l < d.Lvls()
    ensures Along(d, mem, lab, exact, lo, hi, l, a, a)
  {
    hide TableNumber;
    NothingYet(d, mem, lab, lo, hi, l, a);
  }

  /** One entry more, the last of its table or not. */
  lemma AlongNext(d: Descriptor, mem: Memory, lab: seq<Label>, exact: bool, lo: nat, hi: nat, l: nat, a: nat,
      b: nat)
    requires WellFormed(d, mem, lab) && l < d.Lvls() && a <= b && Along(d, mem, lab, exact, lo, hi, l, a, b)
    requires exact ==> b % d.LvlSize(l) == 0 && InOneTable(d, mem, lab, lo, hi, l, b, b + d.LvlSize(l))
    ensures var c := b + d.LvlSize(l);
            && (exact ==> InOneTable(d, mem, lab, lo, hi, l, a, c))
            && (d.Index(b, l) + 1 < d.NEntries(l) ==> Along(d, mem, lab, exact, lo, hi, l, a, c))
            && (exact && d.Index(b, l) + 1 >= d.NEntries(l) ==> Turns(d, mem, lab, lo, hi, c))
  {
    hide Pow2, Descriptor.NEntries, Descriptor.Index, InOneTable, TableNumber, Turns, Descriptor.Valid;
    if exact {
      TableEnds(d, b, l);
      MoreInTable(d, mem, lab, lo, hi, l, a, b, b + d.LvlSize(l));
      if d.Index(b, l) + 1 >= d.NEntries(l) {
        TurnsBehind(d, mem, lab, lo, hi, l, a, b + d.LvlSize(l));
      }
    }
  }

  /** A table instead of an entry to take. */
  lemma AlongTurn(d: Descriptor, mem: Memory, lab: seq<Label>, exact: bool, lo: nat, hi: nat, l: nat, a: nat,
      b: nat)
    requires WellFormed(d, mem, lab) && l < d.Lvls() && a <= b && Along(d, mem, lab, exact, lo, hi, l, a, b)
    requires exact ==> Cover(d, mem, lab, lo, hi, b) != l
    ensures exact ==> InOneTable(d, mem, lab, lo, hi, l, a, b) && (a < b ==> Turns(d, mem, lab, lo, hi, b))
  {
    hide InOneTable, TableNumber, Turns, Cover, WellFormed;
    if exact && a < b {
      TurnsBehind(d, mem, lab, lo, hi, l, a, b);
    }
  }

  lemma AlongEnd(d: Descriptor, mem: Memory, lab: seq<Label>, exact: bool, lo: nat, hi: nat, l: nat, a: nat, b: nat)
    requires WellFormed(d, mem, lab) && l < d.Lvls() && Along(d, mem, lab, exact, lo, hi, l, a, b)
    ensures exact ==> InOneTable(d, mem, lab, lo, hi, l, a, b)
  {
    hide InOneTable, TableNumber, WellFormed;
  }

  lemma IsTaken(d: Descriptor, mem: Memory, lab: seq<Label>, at: nat, n: nat)
    requires WellFormed(d, mem, lab) && Taken(d, mem, lab, at, at + n * PAGE_SIZE) && at != INVALID_VA
    ensures Answered(d, mem, lab, at, n, INVALID_VA, false)
  {
    hide Taken;
  }

  lemma NothingYet(d: Descriptor, mem: Memory, lab: seq<Label>, lo: nat, hi: nat, l: nat, a: nat)
    requires WellFormed(d, mem, lab) && l < d.Lvls()
    ensures InOneTable(d, mem, lab, lo, hi, l, a, a)
  {
  }

  // ---- what a search comes to

  /** n free pages, covered by blocks that lie inside them. */
  ghost predicate Found(d: Descriptor, mem0: Memory, lab0: seq<Label>, mem: Memory, lab: seq<Label>, vpage: nat, n: nat)
  {
    && 0 < n && vpage % PAGE_SIZE == 0 && vpage + n * PAGE_SIZE <= VA_LIMIT
    && Scanned(d, mem0, lab0, mem, lab, vpage, vpage + n * PAGE_SIZE)
  }

  /** The first free run of n pages, or nothing if there is none anywhere. */
  ghost predicate FirstFit(d: Descriptor, mem: Memory, lab: seq<Label>, vpage: nat, n: nat)
    requires WellFormed(d, mem, lab)
  {
    if vpage == INVALID_VA then forall x: nat :: !FreeRun(d, mem, lab, x, n)
    else
      && vpage < d.Span() && FreeRun(d, mem, lab, vpage, n)
      && forall x: nat | x < vpage :: !FreeRun(d, mem, lab, x, n)
  }

  /** The answer to a request for n pages, at an address unless that is the one that stands for none. */
  ghost predicate Answered(d: Descriptor, mem: Memory, lab: seq<Label>, at: nat, n: nat, vpage: nat, around: bool)
    requires WellFormed(d, mem, lab)
  {
    && (around ==> at == vpage == INVALID_VA && n > 0)
    && if at == INVALID_VA then (if n == 0 then vpage == INVALID_VA else FirstFit(d, mem, lab, vpage, n))
       else vpage == if Refused(d, mem, lab, at, n) then INVALID_VA else at
  }

  lemma Misaligned(d: Descriptor, mem: Memory, lab: seq<Label>, at: nat, n: nat)
    requires WellFormed(d, mem, lab) && at != INVALID_VA && at % PAGE_SIZE != 0
    ensures Answered(d, mem, lab, at, n, INVALID_VA, false)
    ensures SameView(d, mem, lab, mem, lab) && Finer(d, mem, lab, mem, lab)
  {
    hide Taken, TurnsLate, Lookup;
  }

  lemma GoStart(d: Descriptor, mem: Memory, lab: seq<Label>, exact: bool, addr: nat, n: nat)
    requires WellFormed(d, mem, lab) && n * PAGE_SIZE <= d.Span() && (!exact ==> addr == 0)
    ensures Going(d, mem, lab, mem, lab, exact, addr, n, addr, 0, 0)
  {
    hide Pow2, Descriptor.Span, Lookup, Fits;
    var hi := addr + n * PAGE_SIZE;
    forall w: nat | addr <= w < hi
      ensures Spared(d, mem, lab, mem, lab, addr, hi, w)
    {
    }
  }

  /** What holds between the tables of a search at an address; pl and pa are the last table's level and start. */
  ghost predicate OnTheWay(d: Descriptor, mem: Memory, lab: seq<Label>, at: nat, n: nat, addr: nat, count: nat, pl: nat,
      pa: nat)
    requires WellFormed(d, mem, lab)
  {
    var hi := at + n * PAGE_SIZE;
    && addr == at + count * PAGE_SIZE && count <= n
    && (count > 0 ==> hi <= VA_LIMIT)
    && (count < n ==> addr == at || addr + n * PAGE_SIZE <= VA_LIMIT || Turns(d, mem, lab, at, hi, addr))
    && (count == n > 0 ==>
          pl < d.Lvls() && pa + n * PAGE_SIZE <= VA_LIMIT && InOneTable(d, mem, lab, at, hi, pl, pa, addr))
  }

  /** A search at an address that is given up near the end of all addresses. */
  lemma TooLate(d: Descriptor, mem: Memory, lab: seq<Label>, at: nat, n: nat, addr: nat, count: nat, pl: nat, pa: nat)
    requires WellFormed(d, mem, lab) && OnTheWay(d, mem, lab, at, n, addr, count, pl, pa) && count < n
    requires VA_LIMIT < addr + n * PAGE_SIZE && at != INVALID_VA
    ensures Answered(d, mem, lab, at, n, INVALID_VA, false)
  {
    hide Turns, InOneTable, Taken;
    if addr != at {
      assert Turns(d, mem, lab, at, at + n * PAGE_SIZE, addr);
    }
  }

  lemma NothingAsked(d: Descriptor, mem: Memory, lab: seq<Label>, at: nat)
    requires WellFormed(d, mem, lab)
    ensures Answered(d, mem, lab, at, 0, INVALID_VA, false)
  {
    hide Taken, TurnsLate, FirstFit;
  }

  /** The whole pages from an address on. */
  function PagesFrom(addr: nat): (pages: nat)
    requires addr <= VA_LIMIT
  {
    (VA_LIMIT - addr) / PAGE_SIZE
  }

  /** What the check at the start of a table says. */
  lemma CheckSays(n: nat, addr: nat)
    requires addr <= VA_LIMIT
    ensures PagesFrom(addr) < n <==> VA_LIMIT < addr + n * PAGE_SIZE
  {
  }

  lemma BelowEnd(d: Descriptor, mem: Memory, lab: seq<Label>, at: nat, n: nat, addr: nat, count: nat, pl: nat, pa: nat)
    requires WellFormed(d, mem, lab) && OnTheWay(d, mem, lab, at, n, addr, count, pl, pa) && count < n && at < VA_LIMIT
    ensures addr < VA_LIMIT
  {
    hide Turns, InOneTable;
  }

  lemma SetOut(d: Descriptor, mem: Memory, lab: seq<Label>, at: nat, n: nat)
    requires WellFormed(d, mem, lab)
    ensures OnTheWay(d, mem, lab, at, n, at, 0, 0, at)
  {
    hide Turns, InOneTable;
  }

  /** The check at the start of a table, and the table that follows it. */
  lemma NextTable(d: Descriptor, mem: Memory, lab: seq<Label>, at: nat, n: nat, addr0: nat, count0: nat, pl: nat,
      pa: nat, lvl0: nat, addr: nat, count: nat)
    requires WellFormed(d, mem, lab) && OnTheWay(d, mem, lab, at, n, addr0, count0, pl, pa) && count0 < n
    requires addr0 + n * PAGE_SIZE <= VA_LIMIT && lvl0 < d.Lvls()
    requires addr == at + count * PAGE_SIZE && count <= n && addr0 <= addr
    requires InOneTable(d, mem, lab, at, at + n * PAGE_SIZE, lvl0, addr0, addr)
    requires addr0 < addr && count < n ==> Turns(d, mem, lab, at, at + n * PAGE_SIZE, addr)
    ensures OnTheWay(d, mem, lab, at, n, addr, count, lvl0, addr0)
  {
    hide Turns, InOneTable;
  }

  /** A search at an address that comes to its end. */
  lemma NotRefused(d: Descriptor, mem0: Memory, lab0: seq<Label>, mem: Memory, lab: seq<Label>, at: nat, n: nat,
      addr: nat, lvl: nat, pl: nat, pa: nat)
    requires Going(d, mem0, lab0, mem, lab, true, at, n, addr, n, lvl) && at % PAGE_SIZE == 0 && n > 0
    requires WellFormed(d, mem0, lab0) && OnTheWay(d, mem0, lab0, at, n, addr, n, pl, pa)
    ensures at != INVALID_VA && Answered(d, mem0, lab0, at, n, at, false) && Found(d, mem0, lab0, mem, lab, at, n)
  {
    hide Turns, InOneTable, Sparing, Lookup, Within;
    var hi := at + n * PAGE_SIZE;
    forall w: nat | at <= w < hi
      ensures ViewOf(d, mem0, lab0, w) == Unmapped
    {
      assert ViewOf(d, mem, lab, w) == ViewOf(d, mem0, lab0, w);
    }
    forall a: nat | at < a < hi && VA_LIMIT < a + n * PAGE_SIZE
      ensures !Turns(d, mem0, lab0, at, hi, a)
    {
      NoTurns(d, mem0, lab0, at, hi, pl, pa, addr, a);
    }
  }

  /** A search for any address that comes to its end. */
  lemma FirstFound(d: Descriptor, mem0: Memory, lab0: seq<Label>, mem: Memory, lab: seq<Label>, from: nat, n: nat,
      addr: nat, lvl: nat)
    requires Going(d, mem0, lab0, mem, lab, false, from, n, addr, n, lvl) && from % PAGE_SIZE == 0 && n > 0
    requires 4 * d.Span() <= VA_LIMIT
    ensures WellFormed(d, mem0, lab0) && Answered(d, mem0, lab0, INVALID_VA, n, from, false)
    ensures Found(d, mem0, lab0, mem, lab, from, n)
  {
    hide Lookup, Within, Pow2, Descriptor.Span, Sparing;
    forall w: nat | from <= w < from + n * PAGE_SIZE
      ensures ViewOf(d, mem0, lab0, w) == Unmapped
    {
      assert ViewOf(d, mem, lab, w) == ViewOf(d, mem0, lab0, w);
    }
    RunAlias(d, mem0, lab0, from, n);
    ModRange(from, d.Span());
  }

  /** A search for any address that has gone on to the last n pages of all addresses. */
  lemma NoneFound(d: Descriptor, mem0: Memory, lab0: seq<Label>, mem: Memory, lab: seq<Label>, from: nat, n: nat,
      addr: nat, count: nat, lvl: nat)
    requires Going(d, mem0, lab0, mem, lab, false, from, n, addr, count, lvl) && count < n
    requires 4 * d.Span() <= VA_LIMIT < addr + n * PAGE_SIZE
    ensures WellFormed(d, mem0, lab0)
    ensures forall around: bool :: Answered(d, mem0, lab0, INVALID_VA, n, INVALID_VA, around)
  {
    hide Lookup, Within, Pow2, Descriptor.Span, Sparing, FreeRun;
    NoneAtAll(d, mem0, lab0, mem, lab, from, addr, n);
  }

  // ---- free ranges that are refused

  /** The end of all addresses is the end of a block of every level. */
  lemma EndAligned(d: Descriptor, l: nat)
    requires d.Valid() && l < d.Lvls()
    ensures VA_LIMIT % d.LvlSize(l) == 0 && 2 * d.LvlSize(l) <= VA_LIMIT
  {
    hide Pow2;
    OffBelow(d, l);
    var k := d.off[l];
    Pow2Add(ADDRESS_BITS - k, k);
    Pow2Whole();
    IsMultiple(VA_LIMIT, Pow2(ADDRESS_BITS - k), Pow2(k));
    TwiceLimit(k);
  }

  lemma TwiceLimit(n: nat)
    requires n + 1 <= ADDRESS_BITS
    ensures 2 * Pow2(n) <= VA_LIMIT
  {
    Pow2Limit(n + 1);
  }

  /**
   In a space without any tables, a block of the level above pages and one more page behind it are
   refused where another such block is all that follows the first one, although nothing is taken.
   */
  lemma RefusedNearEnd(d: Descriptor)
    requires d.Valid() && 2 <= d.Lvls() && d.term[d.Lvls() - 2] && PAGE_SIZE < d.LvlSize(d.Lvls() - 2)
    ensures var s, mem, lab := d.LvlSize(d.Lvls() - 2), [Filled(d.NEntries(0), Invalid(false))], [Label(0, 0)];
            var at, n := VA_LIMIT - 2 * s, s / PAGE_SIZE + 1;
            && WellFormed(d, mem, lab) && 0 <= at && at % PAGE_SIZE == 0 && at + n * PAGE_SIZE <= VA_LIMIT
            && !Taken(d, mem, lab, at, at + n * PAGE_SIZE) && Refused(d, mem, lab, at, n)
  {
    hide Pow2, Descriptor.NEntries, Descriptor.Index;
    var l := d.Lvls() - 2;
    var s, mem, lab := d.LvlSize(l), [Filled(d.NEntries(0), Invalid(false))], [Label(0, 0)];
    EndAligned(d, l);
    SizeInPages(d, l);
    var at, n, a := VA_LIMIT - 2 * s, s / PAGE_SIZE + 1, VA_LIMIT - s;
    var hi := at + n * PAGE_SIZE;
    assert hi == a + PAGE_SIZE;
    LessMultiple(VA_LIMIT, 2, s);
    LessMultiple(VA_LIMIT, 1, s);
    LessPages(VA_LIMIT, s);
    EmptyView(d);
    LastTurns(d, mem, lab, at, a, hi);
    assert !Taken(d, mem, lab, at, hi);
  }

  lemma LessPages(x: nat, s: nat)
    requires x % PAGE_SIZE == 0 && s % PAGE_SIZE == 0
    ensures (x - 2 * s) % PAGE_SIZE == 0
  {
  }

  lemma EmptyView(d: Descriptor)
    requires d.Valid()
    ensures var mem, lab := [Filled(d.NEntries(0), Invalid(false))], [Label(0, 0)];
            WellFormed(d, mem, lab) && forall w: nat :: Lookup(d, mem, lab, w) == (0, Invalid(false))
  {
    hide Pow2, Descriptor.NEntries, Descriptor.Index;
  }

  /** Behind a block that is taken whole, a last page is taken in another table. */
  lemma LastTurns(d: Descriptor, mem: Memory, lab: seq<Label>, at: nat, a: nat, hi: nat)
    requires WellFormed(d, mem, lab) && 2 <= d.Lvls() && d.term[d.Lvls() - 2] && PAGE_SIZE < d.LvlSize(d.Lvls() - 2)
    requires at % d.LvlSize(d.Lvls() - 2) == 0 && a == at + d.LvlSize(d.Lvls() - 2) && hi == a + PAGE_SIZE
    requires a % d.LvlSize(d.Lvls() - 2) == 0
    requires Lookup(d, mem, lab, a - 1).0 == Lookup(d, mem, lab, a).0 == 0
    ensures Turns(d, mem, lab, at, hi, a)
  {
    hide Pow2, Lookup, Descriptor.LvlSize, Descriptor.Block, TableNumber, Fits;
    var l := d.Lvls() - 2;
    InBlock(d, at, a - 1, l);
    assert Fits(d, at, hi, a - 1, l) by {
      BlockFits(d, at, hi, a - 1, l);
    }
    UpTo(d, at, hi, a - 1, 0, l);
    NoneUpTo(d, at, hi, a);
    CoverIs(d, at, hi, a, 0, d.Lvls() - 1);
  }

  lemma BlockFits(d: Descriptor, lo: nat, hi: nat, x: nat, l: nat)
    requires d.Valid() && l < d.Lvls() && d.term[l] && lo <= d.Base(x, l) && d.Base(x, l) + d.LvlSize(l) <= hi
    ensures Fits(d, lo, hi, x, l)
  {
  }

  /** A block that fits bounds the level. */
  lemma {:induction false} UpTo(d: Descriptor, lo: nat, hi: nat, x: nat, k: nat, l: nat)
    requires d.Valid() && k <= l < d.Lvls() && Fits(d, lo, hi, x, l)
    ensures CoverFrom(d, lo, hi, x, k) <= l
    decreases l - k
  {
    hide Fits;
    if k < l {
      UpTo(d, lo, hi, x, k + 1, l);
    }
  }

  /** The last page of a range is in no block but its own. */
  lemma NoneUpTo(d: Descriptor, lo: nat, hi: nat, a: nat)
    requires d.Valid() && 2 <= d.Lvls() && PAGE_SIZE < d.LvlSize(d.Lvls() - 2)
    requires hi == a + PAGE_SIZE && a % d.LvlSize(d.Lvls() - 2) == 0
    ensures forall j | 0 <= j < d.Lvls() - 1 :: !Fits(d, lo, hi, a, j)
  {
    hide Pow2;
    forall j | 0 <= j < d.Lvls() - 1
      ensures !Fits(d, lo, hi, a, j)
    {
      Ends(d, a, j, d.Lvls() - 2);
    }
  }

  /** A block ends no earlier than the blocks of lower levels in it. */
  lemma {:induction false} Ends(d: Descriptor, x: nat, j: nat, l: nat)
    requires d.Valid() && j <= l < d.Lvls()
    ensures d.Base(x, l) + d.LvlSize(l) <= d.Base(x, j) + d.LvlSize(j)
    decreases l - j
  {
    hide Pow2;
    if j < l {
      BaseNested(d, x, j);
      Ends(d, x, j + 1, l);
    }
  }

  // ---- ranges over the end of the space

  /** The first free run lies in the space if and only if some free run does. */
  lemma FirstFitInside(d: Descriptor, mem: Memory, lab: seq<Label>, vpage: nat, n: nat)
    requires WellFormed(d, mem, lab) && vpage != INVALID_VA && FirstFit(d, mem, lab, vpage, n)
    ensures vpage + n * PAGE_SIZE <= d.Span() <==>
            exists x: nat :: FreeRun(d, mem, lab, x, n) && x + n * PAGE_SIZE <= d.Span()
  {
    hide FreeRun, Pow2, Descriptor.Span;
  }

  /** A root table in which the first and the last entry are free and the others are reserved. */
  ghost function Edges(d: Descriptor): Memory
    requires d.Valid()
  {
    [seq(d.NEntries(0), i => Invalid(0 < i < d.NEntries(0) - 1))]
  }

  lemma EdgesView(d: Descriptor, w: nat)
    requires d.Valid()
    ensures WellFormed(d, Edges(d), [Label(0, 0)])
    ensures ViewOf(d, Edges(d), [Label(0, 0)], w) ==
            if 0 < d.Index(w, 0) < d.NEntries(0) - 1 then Reserved else Unmapped
  {
    hide Pow2, Descriptor.NEntries, Descriptor.Index;
  }

  lemma EdgeIndex(d: Descriptor, w: nat, i: nat)
    requires d.Valid() && i < d.NEntries(0) && i * d.LvlSize(0) <= w < i * d.LvlSize(0) + d.LvlSize(0)
    ensures d.Index(w, 0) == i
    ensures d.Index(w + d.Span(), 0) == i
  {
    hide Pow2, Descriptor.NEntries, Descriptor.Span;
    var s, n := d.LvlSize(0), d.NEntries(0);
    BlockCount(d, 0);
    DivUnique(w, s, i, w - i * s);
    DivUnique(i, n, 0, i);
    assert w + n * s == (i + n) * s + (w - i * s);
    DivUnique(w + n * s, s, i + n, w - i * s);
    DivUnique(i + n, n, 1, i);
  }

  /** There the first free run of one page more than an entry has goes over the end, and on at address 0. */
  lemma CrossesEnd(d: Descriptor)
    requires d.Valid() && 3 <= d.NEntries(0)
    ensures WellFormed(d, Edges(d), [Label(0, 0)])
    ensures var n, vpage := d.LvlSize(0) / PAGE_SIZE + 1, (d.NEntries(0) - 1) * d.LvlSize(0);
            && 0 <= vpage < INVALID_VA && FirstFit(d, Edges(d), [Label(0, 0)], vpage, n)
            && d.Span() < vpage + n * PAGE_SIZE
  {
    hide Pow2, Descriptor.NEntries, Descriptor.Span, Descriptor.Index, ViewOf, WellFormed, Edges;
    var s, k := d.LvlSize(0), d.NEntries(0);
    var n, vpage, lab := s / PAGE_SIZE + 1, (k - 1) * s, [Label(0, 0)];
    EdgesView(d, 0);
    BlockCount(d, 0);
    SizeInPages(d, 0);
    SpanLimit(d);
    MulMono(2, k - 1, s);
    assert vpage + s == k * s == d.Span() && n * PAGE_SIZE == s + PAGE_SIZE;
    forall w: nat | vpage <= w < vpage + n * PAGE_SIZE
      ensures ViewOf(d, Edges(d), lab, w) == Unmapped
    {
      EdgesView(d, w);
      if w < d.Span() {
        EdgeIndex(d, w, k - 1);
      } else {
        EdgeIndex(d, w - d.Span(), 0);
      }
    }
    forall x: nat | x < vpage
      ensures !FreeRun(d, Edges(d), lab, x, n)
    {
      var w := if x < s then s else x;
      ModRange(w, s);
      EdgesView(d, w);
      MiddleIndex(d, w);
      assert ViewOf(d, Edges(d), lab, w) == Reserved;
    }
  }

  lemma SpanLimit(d: Descriptor)
    requires d.Valid()
    ensures d.Span() <= VA_LIMIT
  {
    Pow2Limit(d.wdt[0]);
  }

  lemma MiddleIndex(d: Descriptor, w: nat)
    requires d.Valid() && 2 <= d.NEntries(0) && d.LvlSize(0) <= w < (d.NEntries(0) - 1) * d.LvlSize(0)
    ensures 0 < d.Index(w, 0) < d.NEntries(0) - 1
  {
    hide Pow2, Descriptor.NEntries, Descriptor.Index;
    var s, k := d.LvlSize(0), d.NEntries(0);
    ModRange(w, s);
    var i := w / s;
    if i >= k - 1 {
      MulMono(k - 1, i, s);
      assert false;
    }
    if i <= 0 {
      MulMono(i, 0, s);
      assert false;
    }
    EdgeIndex(d, w, i);
  }
}
