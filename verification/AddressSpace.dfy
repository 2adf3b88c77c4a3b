/**
 The operations of the page-table builder: walking, splitting an entry, sweeping a
 range down to page level, reserving a virtual range and mapping it.
 */
module AddressSpace {
  import opened Basics
  import opened Arith
  import opened PageTableModel
  import opened RangeSearch

  /** The range stands for no address that aliases w. */
  ghost predicate Outside(d: Descriptor, w: nat, lo: nat, hi: nat)
    requires d.Valid()
  {
    BlockOfAlias(d, w, 0);
    forall x: nat | lo <= x < hi :: x % d.Span() != w % d.Span()
  }

  /** The output address of w when the range from at is mapped to pages from base. */
  function Target(base: nat, at: nat, w: nat): (pa: nat)
    requires at <= w
    ensures base % PAGE_SIZE == 0 && at % PAGE_SIZE == 0 && base + (w - at) < OUTPUT_LIMIT ==> pa == base + (w - at)
  {
    PageParts(base, w - at);
    MaskAddr(base + (w - at) / PAGE_SIZE * PAGE_SIZE) + (w - at) % PAGE_SIZE
  }

  lemma PageParts(base: nat, x: nat)
    ensures x / PAGE_SIZE * PAGE_SIZE + x % PAGE_SIZE == x && 0 <= x / PAGE_SIZE
    ensures base % PAGE_SIZE == 0 ==> (base + x / PAGE_SIZE * PAGE_SIZE) % PAGE_SIZE == 0
  {
  }

  /**
   w reads as before, and finds the entry that it found, unless that was in the level-lvl block of va:
   then it moved one level down, and got the default attributes if it had any.
   */
  ghost predicate Expanded(d: Descriptor, mem: Memory, lab: seq<Label>, mem': Memory, lab': seq<Label>, va: nat,
      lvl: nat, flags: nat, w: nat)
    requires WellFormed(d, mem, lab) && WellFormed(d, mem', lab')
  {
    && ViewOf(d, mem', lab', w) == ViewOf(d, mem, lab, w)
    && (|| Lookup(d, mem', lab', w) == Lookup(d, mem, lab, w)
        || (&& Lookup(d, mem, lab, w).0 == lvl && Lookup(d, mem', lab', w).0 == lvl + 1 < d.Lvls()
            && d.Block(w, lvl) == d.Block(va, lvl)
            && FlagsOf(d, mem', lab', w) == if FlagsOf(d, mem, lab, w).None? then None else Some(flags)))
  }

  lemma SplitExpands(d: Descriptor, mem: Memory, lab: seq<Label>, va: nat, l: nat, page: seq<Pte>, flags: nat, w: nat)
    requires WellFormed(d, mem, lab) && l + 1 < d.Lvls()
    requires Lookup(d, mem, lab, va).0 == l && Refines(d, l, Lookup(d, mem, lab, va).1, page)
    requires forall j | 0 <= j < |page| && page[j].Leaf? :: page[j].flags == flags
    ensures var t, i := TableAt(d, mem, lab, va, l), d.Index(va, l);
            var mem', lab' := Split(mem, t, i, page), SplitLabels(d, lab, t, i);
            WellFormed(d, mem', lab') && Expanded(d, mem, lab, mem', lab', va, l, flags, w)
  {
    SplitKeepsView(d, mem, lab, va, l, page, w);
    SplitLookup(d, mem, lab, va, l, page, w);
    if d.Block(w, l) == d.Block(va, l) {
      LookupShared(d, mem, lab, va, w);
    }
  }

  /** A block inside a range is not shared with the outside. */
  lemma BlockInside(d: Descriptor, lo: nat, hi: nat, x: nat, l: nat, w: nat)
    requires d.Valid() && l < d.Lvls() && lo <= d.Base(x, l) && d.Base(x, l) + d.LvlSize(l) <= hi
    requires Outside(d, w, lo, hi)
    ensures d.Block(w, l) != d.Block(x, l)
  {
    hide Pow2, Descriptor.Block, Descriptor.Span;
    RoundDown(x, d.LvlSize(l));
    InBlock(d, d.Base(x, l), x, l);
    if d.Block(w, l) == d.Block(x, l) {
      AliasInBlock(d, d.Base(x, l), w, l);
    }
  }

  /**
   What sweeping a range does to the entry that w finds. Outside nothing; inside, a leaf that is split
   gets the default attributes.
   */
  ghost predicate Swept(d: Descriptor, mem: Memory, lab: seq<Label>, mem': Memory, lab': seq<Label>, lo: nat, hi: nat,
      flags: nat, w: nat)
    requires WellFormed(d, mem, lab) && WellFormed(d, mem', lab')
  {
    && ViewOf(d, mem', lab', w) == ViewOf(d, mem, lab, w)
    && Lookup(d, mem, lab, w).0 <= Lookup(d, mem', lab', w).0
    && (Outside(d, w, lo, hi) ==> Lookup(d, mem', lab', w) == Lookup(d, mem, lab, w))
    && FlagsOf(d, mem', lab', w) ==
         if FlagsOf(d, mem, lab, w).Some? && Lookup(d, mem, lab, w).0 < Lookup(d, mem', lab', w).0 then Some(flags)
         else FlagsOf(d, mem, lab, w)
  }

  lemma SweptMore(d: Descriptor, mem0: Memory, lab0: seq<Label>, mem: Memory, lab: seq<Label>, mem': Memory,
      lab': seq<Label>, lo: nat, hi: nat, lvl: nat, vaddr: nat, flags: nat, w: nat)
    requires WellFormed(d, mem0, lab0) && WellFormed(d, mem, lab) && WellFormed(d, mem', lab')
    requires Swept(d, mem0, lab0, mem, lab, lo, hi, flags, w) && Within(d, mem, lab, lo, hi) && lo <= vaddr < hi
    requires Expanded(d, mem, lab, mem', lab', vaddr, lvl, flags, w)
    ensures Swept(d, mem0, lab0, mem', lab', lo, hi, flags, w)
  {
    hide Outside, Lookup, ViewOf, Descriptor.Block, Pow2;
    if Lookup(d, mem', lab', w) != Lookup(d, mem, lab, w) && Outside(d, w, lo, hi) {
      LookupShared(d, mem, lab, w, vaddr);
      BlockInside(d, lo, hi, vaddr, lvl, w);
      assert false;
    }
  }

  lemma SweptTwice(d: Descriptor, mem0: Memory, lab0: seq<Label>, mem: Memory, lab: seq<Label>, mem': Memory,
      lab': seq<Label>, lo: nat, hi: nat, flags: nat, w: nat)
    requires WellFormed(d, mem0, lab0) && WellFormed(d, mem, lab) && WellFormed(d, mem', lab')
    requires Swept(d, mem0, lab0, mem, lab, lo, hi, flags, w) && Swept(d, mem, lab, mem', lab', lo, hi, flags, w)
    ensures Swept(d, mem0, lab0, mem', lab', lo, hi, flags, w)
  {
    hide Outside, Lookup, ViewOf;
  }

  /** What the sweep of a range leaves. */
  ghost predicate SweptAll(d: Descriptor, mem: Memory, lab: seq<Label>, mem': Memory, lab': seq<Label>, lo: nat,
      hi: nat,
      flags: nat)
    requires WellFormed(d, mem, lab) && WellFormed(d, mem', lab')
  {
    forall w: nat :: Swept(d, mem, lab, mem', lab', lo, hi, flags, w)
  }

  lemma SweptFurther(d: Descriptor, mem0: Memory, lab0: seq<Label>, mem: Memory, lab: seq<Label>, mem': Memory,
      lab': seq<Label>, lo: nat, hi: nat, lvl: nat, vaddr: nat, flags: nat)
    requires WellFormed(d, mem0, lab0) && WellFormed(d, mem, lab) && WellFormed(d, mem', lab')
    requires SweptAll(d, mem0, lab0, mem, lab, lo, hi, flags) && Within(d, mem, lab, lo, hi) && lo <= vaddr < hi
    requires forall w: nat :: Expanded(d, mem, lab, mem', lab', vaddr, lvl, flags, w)
    ensures SweptAll(d, mem0, lab0, mem', lab', lo, hi, flags)
  {
    hide Swept, Expanded, Within, WellFormed;
    forall w: nat
      ensures Swept(d, mem0, lab0, mem', lab', lo, hi, flags, w)
    {
      SweptMore(d, mem0, lab0, mem, lab, mem', lab', lo, hi, lvl, vaddr, flags, w);
    }
  }

  lemma SweptSelf(d: Descriptor, mem: Memory, lab: seq<Label>, lo: nat, hi: nat, flags: nat)
    requires WellFormed(d, mem, lab)
    ensures SweptAll(d, mem, lab, mem, lab, lo, hi, flags)
  {
    hide Outside, Lookup, ViewOf;
  }

  lemma SweptFacts(d: Descriptor, mem: Memory, lab: seq<Label>, mem': Memory, lab': seq<Label>, lo: nat, hi: nat,
      flags: nat)
    requires WellFormed(d, mem, lab) && WellFormed(d, mem', lab') && SweptAll(d, mem, lab, mem', lab', lo, hi, flags)
    ensures SameView(d, mem, lab, mem', lab') && Deeper(d, mem, lab, mem', lab')
  {
    hide Outside, Lookup, ViewOf, FlagsOf;
    forall w: nat
      ensures ViewOf(d, mem', lab', w) == ViewOf(d, mem, lab, w)
      ensures Lookup(d, mem, lab, w).0 <= Lookup(d, mem', lab', w).0
    {
      assert Swept(d, mem, lab, mem', lab', lo, hi, flags, w);
    }
  }

  /** During the sweep of level lvl, what is left to split lies at or after vaddr. */
  ghost predicate Pending(d: Descriptor, mem: Memory, lab: seq<Label>, lo: nat, hi: nat, lvl: nat, vaddr: nat)
    requires WellFormed(d, mem, lab) && lvl < d.Lvls()
  {
    forall w: nat | lo <= w < hi ::
      var l := Lookup(d, mem, lab, w).0;
      lvl <= l && (l == lvl ==> vaddr < d.Base(w, lvl) + d.LvlSize(lvl))
  }

  lemma SweepFirst(d: Descriptor, mem: Memory, lab: seq<Label>, lo: nat, hi: nat, lvl: nat)
    requires WellFormed(d, mem, lab) && lvl < d.Lvls() && Within(d, mem, lab, lo, hi)
    requires forall w: nat | lo <= w < hi :: lvl <= Lookup(d, mem, lab, w).0
    ensures Pending(d, mem, lab, lo, hi, lvl, lo)
  {
    hide Lookup, Pow2, WellFormed;
  }

  lemma PendingReached(d: Descriptor, mem: Memory, lab: seq<Label>, lo: nat, hi: nat, lvl: nat, vaddr: nat)
    requires WellFormed(d, mem, lab) && lvl < d.Lvls() && lo <= vaddr < hi && Pending(d, mem, lab, lo, hi, lvl, vaddr)
    ensures Reaches(d, mem, lab, vaddr, lvl)
  {
    hide Lookup, Pow2, WellFormed;
  }

  lemma SweepLast(d: Descriptor, mem: Memory, lab: seq<Label>, lo: nat, hi: nat, lvl: nat, vaddr: nat)
    requires WellFormed(d, mem, lab) && lvl < d.Lvls() && Within(d, mem, lab, lo, hi)
    requires Pending(d, mem, lab, lo, hi, lvl, vaddr) && hi <= vaddr
    ensures forall w: nat | lo <= w < hi :: lvl + 1 <= Lookup(d, mem, lab, w).0
  {
    hide Lookup, Pow2, WellFormed;
  }

  /** One step of the sweep: the block under vaddr is split, so the next one starts after it. */
  lemma SweepStep(d: Descriptor, mem: Memory, lab: seq<Label>, mem': Memory, lab': seq<Label>,
                  lo: nat, hi: nat, lvl: nat, vaddr: nat, flags: nat)
    requires WellFormed(d, mem, lab) && WellFormed(d, mem', lab') && lvl + 1 < d.Lvls()
    requires Within(d, mem, lab, lo, hi) && Pending(d, mem, lab, lo, hi, lvl, vaddr)
    requires Reaches(d, mem', lab', vaddr, lvl + 1)
    requires forall w: nat :: Expanded(d, mem, lab, mem', lab', vaddr, lvl, flags, w)
    ensures Within(d, mem', lab', lo, hi)
    ensures Pending(d, mem', lab', lo, hi, lvl, vaddr + d.LvlSize(lvl))
  {
    hide Pow2, Descriptor.NEntries, Descriptor.Index, Descriptor.Block;
    forall w: nat | lo <= w < hi
      ensures var l := Lookup(d, mem', lab', w).0;
              && lo <= d.Base(w, l) && d.Base(w, l) + d.LvlSize(l) <= hi
              && lvl <= l && (l == lvl ==> vaddr < d.Base(w, lvl))
    {
      assert Expanded(d, mem, lab, mem', lab', vaddr, lvl, flags, w);
      BaseNested(d, w, lvl);
      if Lookup(d, mem', lab', w).0 == lvl && d.Base(w, lvl) <= vaddr {
        RoundDown(w, d.LvlSize(lvl));
        InBlock(d, d.Base(w, lvl), vaddr, lvl);
        InBlock(d, d.Base(w, lvl), w, lvl);
        LookupShared(d, mem', lab', w, vaddr);
        assert false;
      }
    }
  }

  /** A block of the range is shared neither with the rest of the range nor with the outside. */
  lemma BlockApart(d: Descriptor, lo: nat, hi: nat, addr: nat, l: nat, w: nat)
    requires d.Valid() && l < d.Lvls() && hi <= lo + d.Span()
    requires lo <= addr && addr + d.LvlSize(l) <= hi && addr % d.LvlSize(l) == 0
    ensures Outside(d, w, lo, hi) ==> d.Block(w, l) != d.Block(addr, l)
    ensures addr + d.LvlSize(l) <= w < hi ==> d.Block(w, l) != d.Block(addr, l)
    ensures w < addr && lo <= d.Base(w, l) ==> d.Block(w, l) != d.Block(addr, l)
    ensures addr <= w < addr + d.LvlSize(l) ==> d.Block(w, l) == d.Block(addr, l)
  {
    hide Pow2, Descriptor.Block, Descriptor.Span;
    var s := d.LvlSize(l);
    if d.Block(w, l) == d.Block(addr, l) {
      AliasInBlock(d, addr, w, l);
      if addr + s <= w { FarAlias(d, addr, w, l); }
      if w < addr {
        RoundDown(w, s);
        MultiplesApart(d.Base(w, l), addr, s);
        InBlock(d, d.Base(w, l), w, l);
        if lo <= d.Base(w, l) { FarAlias(d, d.Base(w, l), addr, l); }
      }
    } else if addr <= w < addr + s {
      InBlock(d, addr, w, l);
    }
  }

  /** Mid-way through marking [at, hi): reserved up to addr, free from there on, nothing else touched. */
  ghost predicate Marking(d: Descriptor, mem0: Memory, lab: seq<Label>, mem: Memory, at: nat, addr: nat, hi: nat)
  {
    && WellFormed(d, mem0, lab) && WellFormed(d, mem, lab)
    && Within(d, mem, lab, at, hi)
    && at <= addr <= hi <= at + d.Span()
    && (addr < hi ==> d.Base(addr, Lookup(d, mem, lab, addr).0) == addr)
    && (forall w: nat :: Marked(d, mem0, lab, mem, at, addr, hi, w))
  }

  ghost predicate Marked(d: Descriptor, mem0: Memory, lab: seq<Label>, mem: Memory, at: nat, addr: nat, hi: nat, w: nat)
    requires WellFormed(d, mem0, lab) && WellFormed(d, mem, lab)
  {
    && Lookup(d, mem, lab, w).0 == Lookup(d, mem0, lab, w).0 && FlagsOf(d, mem, lab, w) == FlagsOf(d, mem0, lab, w)
    && (at <= w < addr ==> ViewOf(d, mem, lab, w) == Reserved)
    && (addr <= w < hi ==> ViewOf(d, mem, lab, w) == Unmapped)
    && (Outside(d, w, at, hi) ==> ViewOf(d, mem, lab, w) == ViewOf(d, mem0, lab, w))
  }

  /** The block after a terminal block of the range starts at its own base. */
  lemma NextBlockBase(d: Descriptor, mem: Memory, lab: seq<Label>, addr: nat)
    requires WellFormed(d, mem, lab)
    requires d.Base(addr, Lookup(d, mem, lab, addr).0) == addr
    ensures var next := addr + d.LvlSize(Lookup(d, mem, lab, addr).0);
            d.Base(next, Lookup(d, mem, lab, next).0) == next
  {
    hide Pow2, Descriptor.Block, Lookup;
    var l := Lookup(d, mem, lab, addr).0;
    var next := addr + d.LvlSize(l);
    var k := Lookup(d, mem, lab, next).0;
    var b := d.Base(next, k);
    RoundDown(addr, d.LvlSize(l));
    RoundDown(next, d.LvlSize(k));
    if b < next {
      var x := next - 1;
      InBlock(d, addr, x, l);
      LookupShared(d, mem, lab, addr, x);
      InBlock(d, b, x, k);
      InBlock(d, b, next, k);
      LookupShared(d, mem, lab, next, x);
    }
  }

  /** What marking the block at addr does to one address. */
  lemma MarkOne(d: Descriptor, mem: Memory, lab: seq<Label>, at: nat, addr: nat, hi: nat, l: nat, w: nat)
    requires WellFormed(d, mem, lab) && Lookup(d, mem, lab, addr) == (l, Invalid(false))
    requires at <= addr && addr + d.LvlSize(l) <= hi <= at + d.Span() && addr % d.LvlSize(l) == 0
    ensures var mem' := Store(mem, TableAt(d, mem, lab, addr, l), d.Index(addr, l), Invalid(true));
            && WellFormed(d, mem', lab)
            && Lookup(d, mem', lab, w).0 == Lookup(d, mem, lab, w).0 &&
              FlagsOf(d, mem', lab, w) == FlagsOf(d, mem, lab, w)
            && (ViewOf(d, mem', lab, w) == ViewOf(d, mem, lab, w) || ViewOf(d, mem', lab, w) == Reserved)
            && (addr <= w < addr + d.LvlSize(l) ==> ViewOf(d, mem', lab, w) == Reserved)
            && (addr + d.LvlSize(l) <= w < hi || Outside(d, w, at, hi) ==>
                  ViewOf(d, mem', lab, w) == ViewOf(d, mem, lab, w))
  {
    StoreLookup(d, mem, lab, addr, l, Invalid(true), w);
    if d.Block(w, l) == d.Block(addr, l) { LookupShared(d, mem, lab, addr, w); }
    BlockApart(d, at, hi, addr, l, w);
  }

  lemma MarkStep(d: Descriptor, mem0: Memory, lab: seq<Label>, mem: Memory, at: nat, addr: nat, hi: nat)
    requires WellFormed(d, mem, lab) && Marking(d, mem0, lab, mem, at, addr, hi) && addr < hi
    ensures var l := Lookup(d, mem, lab, addr).0;
            var mem' := Store(mem, TableAt(d, mem, lab, addr, l), d.Index(addr, l), Invalid(true));
            && Lookup(d, mem, lab, addr) == (l, Invalid(false))
            && addr + d.LvlSize(l) <= hi
            && WellFormed(d, mem', lab)
            && Marking(d, mem0, lab, mem', at, addr + d.LvlSize(l), hi)
  {
    hide Pow2, Descriptor.NEntries, Descriptor.Index, Descriptor.Block, Descriptor.Span;
    hide Outside;
    var l := Lookup(d, mem, lab, addr).0;
    var s := d.LvlSize(l);
    var next := addr + s;
    var mem' := Store(mem, TableAt(d, mem, lab, addr, l), d.Index(addr, l), Invalid(true));
    assert Marked(d, mem0, lab, mem, at, addr, hi, addr);
    RoundDown(addr, s);
    MarkOne(d, mem, lab, at, addr, hi, l, addr);
    forall w: nat
      ensures Lookup(d, mem', lab, w).0 == Lookup(d, mem, lab, w).0
      ensures FlagsOf(d, mem', lab, w) == FlagsOf(d, mem, lab, w)
      ensures Marked(d, mem0, lab, mem', at, next, hi, w)
    {
      assert Marked(d, mem0, lab, mem, at, addr, hi, w);
      MarkOne(d, mem, lab, at, addr, hi, l, w);
    }
    NextBlockBase(d, mem', lab, addr);
  }

  lemma MarkStart(d: Descriptor, mem: Memory, lab: seq<Label>, at: nat, hi: nat)
    requires WellFormed(d, mem, lab) && Within(d, mem, lab, at, hi) && at <= hi <= at + d.Span()
    requires forall w: nat | at <= w < hi :: ViewOf(d, mem, lab, w) == Unmapped
    ensures Marking(d, mem, lab, mem, at, at, hi)
  {
    hide Outside;
    if at < hi { assert at <= d.Base(at, Lookup(d, mem, lab, at).0); }
    forall w: nat ensures Marked(d, mem, lab, mem, at, at, hi, w) { }
  }

  lemma MarkDone(d: Descriptor, mem0: Memory, lab: seq<Label>, mem: Memory, at: nat, hi: nat)
    requires WellFormed(d, mem0, lab) && WellFormed(d, mem, lab) && Marking(d, mem0, lab, mem, at, hi, hi)
    ensures Within(d, mem, lab, at, hi) && Finer(d, mem0, lab, mem, lab)
    ensures forall w: nat | at <= w < hi :: ViewOf(d, mem, lab, w) == Reserved
    ensures forall w: nat | Outside(d, w, at, hi) :: ViewOf(d, mem, lab, w) == ViewOf(d, mem0, lab, w)
  {
    hide Outside;
    forall w: nat
      ensures Lookup(d, mem0, lab, w).0 <= Lookup(d, mem, lab, w).0
      ensures FlagsOf(d, mem, lab, w) == FlagsOf(d, mem0, lab, w)
      ensures at <= w < hi ==> ViewOf(d, mem, lab, w) == Reserved
      ensures Outside(d, w, at, hi) ==> ViewOf(d, mem, lab, w) == ViewOf(d, mem0, lab, w)
    {
      assert Marked(d, mem0, lab, mem, at, hi, hi, w);
    }
  }

  /** Mid-way through writing the leaves of [at, hi): mapped up to vaddr, the rest untouched. */
  ghost predicate Mapping(d: Descriptor, mem0: Memory, lab: seq<Label>, mem: Memory, base: nat, flags: nat, at: nat,
      vaddr: nat, hi: nat)
  {
    && WellFormed(d, mem0, lab) && WellFormed(d, mem, lab)
    && at <= vaddr <= hi <= at + d.Span() && at % PAGE_SIZE == 0 && vaddr % PAGE_SIZE == 0
    && (forall w: nat :: Written(d, mem0, lab, mem, base, flags, at, vaddr, hi, w))
  }

  ghost predicate Written(d: Descriptor, mem0: Memory, lab: seq<Label>, mem: Memory,
                          base: nat, flags: nat, at: nat, vaddr: nat, hi: nat, w: nat)
    requires WellFormed(d, mem0, lab) && WellFormed(d, mem, lab)
  {
    && (at <= w < hi ==> Lookup(d, mem, lab, w).0 == d.Lvls() - 1)
    && (at <= w < vaddr ==>
          ViewOf(d, mem, lab, w) == Mapped(Target(base, at, w)) && FlagsOf(d, mem, lab, w) == Some(flags))
    && (vaddr <= w < hi || Outside(d, w, at, hi) ==> Lookup(d, mem, lab, w) == Lookup(d, mem0, lab, w))
  }

  lemma TargetInPage(base: nat, at: nat, vaddr: nat, w: nat)
    requires at % PAGE_SIZE == 0 && vaddr % PAGE_SIZE == 0 && at <= vaddr <= w < vaddr + PAGE_SIZE
    ensures Target(base, at, w) == MaskAddr(base + (vaddr - at)) + w % PAGE_SIZE
  {
    DivUnique(w - at, PAGE_SIZE, (vaddr - at) / PAGE_SIZE, w - vaddr);
    DivUnique(w, PAGE_SIZE, vaddr / PAGE_SIZE, w - vaddr);
  }

  /** The memory with the page at vaddr mapped to its place in the physical range. */
  ghost function LeafStored(d: Descriptor, mem: Memory, lab: seq<Label>, base: nat, at: nat, vaddr: nat, flags: nat)
      : Memory
    requires WellFormed(d, mem, lab) && Lookup(d, mem, lab, vaddr).0 == d.Lvls() - 1 && at <= vaddr
  {
    var l := d.Lvls() - 1;
    Store(mem, TableAt(d, mem, lab, vaddr, l), d.Index(vaddr, l), Leaf(MaskAddr(base + (vaddr - at)), flags))
  }

  /** What writing the leaf at vaddr does to one address. */
  lemma MapOne(d: Descriptor, mem: Memory, lab: seq<Label>, base: nat, at: nat, vaddr: nat, hi: nat, flags: nat, w: nat)
    requires WellFormed(d, mem, lab) && Lookup(d, mem, lab, vaddr).0 == d.Lvls() - 1
    requires at <= vaddr && vaddr + PAGE_SIZE <= hi <= at + d.Span() && at % PAGE_SIZE == 0 && vaddr % PAGE_SIZE == 0
    ensures var mem' := LeafStored(d, mem, lab, base, at, vaddr, flags);
            && WellFormed(d, mem', lab)
            && Lookup(d, mem', lab, w).0 == Lookup(d, mem, lab, w).0
            && (at <= w < vaddr || vaddr + PAGE_SIZE <= w < hi || Outside(d, w, at, hi) ==>
                  Lookup(d, mem', lab, w) == Lookup(d, mem, lab, w))
            && (vaddr <= w < vaddr + PAGE_SIZE ==>
                  ViewOf(d, mem', lab, w) == Mapped(Target(base, at, w)) && FlagsOf(d, mem', lab, w) == Some(flags))
  {
    hide Outside, Target;
    var l := d.Lvls() - 1;
    LastSize(d);
    StoreLookup(d, mem, lab, vaddr, l, Leaf(MaskAddr(base + (vaddr - at)), flags), w);
    if d.Block(w, l) == d.Block(vaddr, l) { LookupShared(d, mem, lab, vaddr, w); }
    BlockApart(d, at, hi, vaddr, l, w);
    if at <= w { BaseAbove(d, at, w); }
    if vaddr <= w < vaddr + PAGE_SIZE { TargetInPage(base, at, vaddr, w); }
  }

  /** The page of an address does not start below a page boundary that is not above it. */
  lemma BaseAbove(d: Descriptor, at: nat, w: nat)
    requires d.Valid() && at <= w && at % PAGE_SIZE == 0
    ensures at <= d.Base(w, d.Lvls() - 1)
  {
    LastSize(d);
    RoundDown(w, PAGE_SIZE);
  }

  lemma MapStep(d: Descriptor, mem0: Memory, lab: seq<Label>, mem: Memory,
                base: nat, at: nat, vaddr: nat, hi: nat, flags: nat)
    requires Mapping(d, mem0, lab, mem, base, flags, at, vaddr, hi) && vaddr + PAGE_SIZE <= hi
    ensures var l := d.Lvls() - 1;
            var e := Leaf(MaskAddr(base + (vaddr - at)), flags);
            && Reaches(d, mem, lab, vaddr, l)
            && Mapping(d, mem0, lab, Store(mem, TableAt(d, mem, lab, vaddr, l), d.Index(vaddr, l), e),
                       base, flags, at, vaddr + PAGE_SIZE, hi)
  {
    hide Pow2, Descriptor.NEntries, Descriptor.Index, Descriptor.Block, Descriptor.Span, WellFormed;
    hide Outside, Target, Lookup, Find, Store, Written, MaskAddr;
    PageWritten(d, mem0, lab, mem, base, flags, at, vaddr, hi);
    var mem' := LeafStored(d, mem, lab, base, at, vaddr, flags);
    var next := vaddr + PAGE_SIZE;
    MapOne(d, mem, lab, base, at, vaddr, hi, flags, vaddr);
    forall w: nat
      ensures Written(d, mem0, lab, mem', base, flags, at, next, hi, w)
    {
      WrittenOn(d, mem0, lab, mem, base, flags, at, vaddr, hi, w);
    }
  }

  lemma PageWritten(d: Descriptor, mem0: Memory, lab: seq<Label>, mem: Memory, base: nat, flags: nat, at: nat,
      vaddr: nat, hi: nat)
    requires Mapping(d, mem0, lab, mem, base, flags, at, vaddr, hi) && vaddr + PAGE_SIZE <= hi
    ensures Lookup(d, mem, lab, vaddr).0 == d.Lvls() - 1 && Reaches(d, mem, lab, vaddr, d.Lvls() - 1)
  {
    hide Pow2, Descriptor.Span, WellFormed, Outside, Target, Lookup, ViewOf, FlagsOf;
    assert Written(d, mem0, lab, mem, base, flags, at, vaddr, hi, vaddr);
  }

  lemma WrittenOn(d: Descriptor, mem0: Memory, lab: seq<Label>, mem: Memory, base: nat, flags: nat, at: nat,
      vaddr: nat, hi: nat, w: nat)
    requires WellFormed(d, mem0, lab) && WellFormed(d, mem, lab) && Lookup(d, mem, lab, vaddr).0 == d.Lvls() - 1
    requires at <= vaddr && vaddr + PAGE_SIZE <= hi <= at + d.Span() && at % PAGE_SIZE == 0 && vaddr % PAGE_SIZE == 0
    requires Written(d, mem0, lab, mem, base, flags, at, vaddr, hi, w)
    ensures var mem' := LeafStored(d, mem, lab, base, at, vaddr, flags);
            WellFormed(d, mem', lab) && Written(d, mem0, lab, mem', base, flags, at, vaddr + PAGE_SIZE, hi, w)
  {
    hide Pow2, Descriptor.NEntries, Descriptor.Index, Descriptor.Block, Descriptor.Span, WellFormed;
    hide Outside, Target, Lookup, LeafStored;
    MapOne(d, mem, lab, base, at, vaddr, hi, flags, w);
  }

  class AddressSpace {
    const d: Descriptor
    var mem: Memory
    ghost var lab: seq<Label>

    ghost predicate Valid()
      reads this
    {
      WellFormed(d, mem, lab)
    }

    ghost function View(va: nat): View
      reads this
      requires Valid()
    {
      ViewOf(d, mem, lab, va)
    }

    ghost function Flags(va: nat): Option<nat>
      reads this
      requires Valid()
    {
      FlagsOf(d, mem, lab, va)
    }

    constructor (dscr: Descriptor)
      requires dscr.Valid()
      ensures Valid() && d == dscr
      ensures forall va: nat :: View(va) == Unmapped
    {
      d := dscr;
      mem := [seq(dscr.NEntries(0), _ => Invalid(false))];
      lab := [Label(0, 0)];
    }

    /** Follows the entries of va down to level lvl. */
    method GetPte(lvl: nat, va: nat) returns (t: nat, i: nat)
      requires Valid() && lvl < d.Lvls() && Reaches(d, mem, lab, va, lvl)
      ensures t == TableAt(d, mem, lab, va, lvl) && i == d.Index(va, lvl)
      ensures i < |mem[t]|
    {
      hide Pow2, Descriptor.NEntries, Descriptor.Index, Descriptor.Block;
      t := 0;
      i := d.Index(va, 0);
      var k := 1;
      while k <= lvl
        invariant 1 <= k <= lvl + 1
        invariant t == TableAt(d, mem, lab, va, k - 1) && i == d.Index(va, k - 1)
      {
        assert EntryOk(d, lab, t, i, mem[t][i]);
        t := mem[t][i].addr;
        i := d.Index(va, k);
        k := k + 1;
      }
    }

    /** Puts a fresh table, filled with the entry's reservation state, behind an entry. */
    method AllocPt(t: nat, i: nat, lvl: nat) returns (a: nat)
      requires Valid() && t < |mem| && i < |mem[t]| && lvl == lab[t].lvl && lvl + 1 < d.Lvls()
      requires !mem[t][i].Table?
      modifies this
      ensures a == |old(mem)|
      ensures mem == Split(old(mem), t, i, Filled(d.NEntries(lvl + 1), Invalid(old(mem[t][i]) == Invalid(true))))
      ensures lab == SplitLabels(d, old(lab), t, i)
      ensures Valid()
    {
      var dflt := Invalid(mem[t][i] == Invalid(true));
      var n := d.NEntries(lvl + 1);
      var page: seq<Pte> := [];
      for k := 0 to n
        invariant page == Filled(k, dflt)
      {
        page := page + [dflt];
      }
      SplitWellFormed(d, mem, lab, t, i, page);
      a := |mem|;
      mem := Split(mem, t, i, page);
      lab := SplitLabels(d, lab, t, i);
    }

    /** Replaces a terminal entry by a table that says the same about every address. */
    method ExpandPte(va: nat, lvl: nat, dfltFlags: nat)
      requires Valid() && Reaches(d, mem, lab, va, lvl)
      modifies this
      ensures Valid()
      ensures lvl + 1 < d.Lvls() ==> Reaches(d, mem, lab, va, lvl + 1)
      ensures forall w: nat :: Expanded(d, old(mem), old(lab), mem, lab, va, lvl, dfltFlags, w)
    {
      if d.Lvls() - 1 <= lvl {
        return;
      }
      var t, i := GetPte(lvl, va);
      var pte := mem[t][i];
      assert EntryOk(d, lab, t, i, pte);
      if !pte.Table? {
        var a := AllocPt(t, i, lvl);
        if pte.Leaf? || pte == Invalid(true) {
          Replicate(a, pte, lvl + 1, dfltFlags);
        }
        SplitPage(old(mem), t, i, Filled(d.NEntries(lvl + 1), Invalid(pte == Invalid(true))), mem[a]);
        ExpandedEverywhere(d, old(mem), old(lab), va, lvl, mem[a], dfltFlags);
      }
    }

    /** Replicates a saved entry into the table that replaced it. */
    method Replicate(a: nat, pte: Pte, lvl: nat, dfltFlags: nat)
      requires d.Valid() && a + 1 == |mem| && lvl < d.Lvls() && |mem[a]| == d.NEntries(lvl)
      requires pte.Leaf? || pte == Invalid(true)
      modifies this`mem
      ensures |mem| == |old(mem)| && mem == old(mem)[a := mem[a]]
      ensures Replica(d, lvl, pte, mem[a], dfltFlags)
    {
      hide Pow2, Descriptor.NEntries, Descriptor.LvlSize, MaskAddr;
      var nentries, lvlsz := d.NEntries(lvl), d.LvlSize(lvl);
      var paddr := if pte.Leaf? then pte.pa else 0;
      var entry := 0;
      while entry < nentries
        invariant 0 <= entry <= nentries
        invariant pte.Leaf? ==> paddr == SubBlock(pte.pa, entry, lvlsz)
        invariant |mem| == |old(mem)| && |mem[a]| == nentries && mem == old(mem)[a := mem[a]]
        invariant forall j | 0 <= j < entry ::
          mem[a][j] == if pte.Leaf? then Leaf(MaskAddr(SubBlock(pte.pa, j, lvlsz)), dfltFlags) else pte
      {
        if pte.Leaf? {
          mem := mem[a := mem[a][entry := Leaf(MaskAddr(paddr), dfltFlags)]];
        } else {
          mem := mem[a := mem[a][entry := Invalid(true)]];
        }
        assert (entry + 1) * lvlsz == entry * lvlsz + lvlsz;
        entry := entry + 1;
        paddr := paddr + lvlsz;
      }
    }

    /** Splits the level-lvl blocks of the range, stepping from va by the block size. */
    method SweepLevel(va: nat, length: nat, lvl: nat, dfltFlags: nat)
      requires Valid() && lvl + 1 < d.Lvls() && Within(d, mem, lab, va, va + length)
      requires forall w: nat | va <= w < va + length :: lvl <= Lookup(d, mem, lab, w).0
      modifies this
      ensures Valid() && SweptAll(d, old(mem), old(lab), mem, lab, va, va + length, dfltFlags)
      ensures Within(d, mem, lab, va, va + length)
      ensures forall w: nat | va <= w < va + length :: lvl + 1 <= Lookup(d, mem, lab, w).0
    {
      hide Swept, SweptAll, Expanded, Within, Pending, Lookup, Pow2;
      var vaddr := va;
      var lvlsz := d.LvlSize(lvl);
      SweptSelf(d, mem, lab, va, va + length, dfltFlags);
      SweepFirst(d, mem, lab, va, va + length, lvl);
      while vaddr < va + length
        invariant va <= vaddr
        invariant Valid() && SweptAll(d, old(mem), old(lab), mem, lab, va, va + length, dfltFlags)
        invariant Within(d, mem, lab, va, va + length)
        invariant Pending(d, mem, lab, va, va + length, lvl, vaddr)
        decreases va + length - vaddr
      {
        ghost var m0, l0 := mem, lab;
        PendingReached(d, mem, lab, va, va + length, lvl, vaddr);
        ExpandPte(vaddr, lvl, dfltFlags);
        SweepStep(d, m0, l0, mem, lab, va, va + length, lvl, vaddr, dfltFlags);
        SweptFurther(d, old(mem), old(lab), m0, l0, mem, lab, va, va + length, lvl, vaddr, dfltFlags);
        vaddr := vaddr + lvlsz;
      }
      SweepLast(d, mem, lab, va, va + length, lvl, vaddr);
    }

    /** Splits every block of the range down to page level, one level at a time. */
    method InflatePt(va: nat, length: nat, dfltFlags: nat)
      requires Valid() && Within(d, mem, lab, va, va + length)
      modifies this
      ensures Valid() && SweptAll(d, old(mem), old(lab), mem, lab, va, va + length, dfltFlags)
      ensures SameView(d, old(mem), old(lab), mem, lab) && Deeper(d, old(mem), old(lab), mem, lab)
      ensures Within(d, mem, lab, va, va + length)
      ensures forall w: nat | va <= w < va + length :: Lookup(d, mem, lab, w).0 == d.Lvls() - 1
    {
      hide Swept;
      ghost var hi := va + length;
      var lvl := 0;
      SweptSelf(d, mem, lab, va, va + length, dfltFlags);
      while lvl < d.Lvls() - 1
        invariant 0 <= lvl <= d.Lvls() - 1
        invariant Valid() && SweptAll(d, old(mem), old(lab), mem, lab, va, va + length, dfltFlags)
        invariant Within(d, mem, lab, va, va + length)
        invariant forall w: nat | va <= w < va + length :: lvl <= Lookup(d, mem, lab, w).0
      {
        ghost var m0, l0 := mem, lab;
        SweepLevel(va, length, lvl, dfltFlags);
        forall w: nat
          ensures Swept(d, old(mem), old(lab), mem, lab, va, hi, dfltFlags, w)
        {
          assert Swept(d, old(mem), old(lab), m0, l0, va, hi, dfltFlags, w);
          assert Swept(d, m0, l0, mem, lab, va, hi, dfltFlags, w);
          SweptTwice(d, old(mem), old(lab), m0, l0, mem, lab, va, hi, dfltFlags, w);
        }
        lvl := lvl + 1;
      }
      SweptFacts(d, old(mem), old(lab), mem, lab, va, va + length, dfltFlags);
    }

    /** Whether a free entry can be taken whole. */
    predicate PteAllocable(pte: Pte, lvl: nat, left: nat, addr: nat)
      reads this
      requires d.Valid() && lvl < d.Lvls()
    {
      || lvl == d.Lvls() - 1
      || (d.term[lvl] && pte.Invalid? && d.LvlSize(lvl) <= left * PAGE_SIZE && addr % d.LvlSize(lvl) == 0)
    }

    /**
     The entries of one table, from the one under addr to the first table, conflict or end. A taken
     entry ends a request for an address, and makes a request for any address start anew behind it.
     */
    method ScanTable(exact: bool, n: nat, lvl0: nat, count0: nat, addr0: nat, vpage0: nat,
                     ghost from0: nat, ghost mem0: Memory, ghost lab0: seq<Label>)
      returns (lvl: nat, count: nat, addr: nat, vpage: nat, failed: bool, ghost from: nat)
      requires Valid() && from0 % PAGE_SIZE == 0
      requires Going(d, mem0, lab0, mem, lab, exact, from0, n, addr0, count0, lvl0) && count0 < n
      requires vpage0 == if count0 == 0 then INVALID_VA else from0
      modifies this
      ensures Valid() && WellFormed(d, mem0, lab0) && lvl0 < d.Lvls()
      ensures SameView(d, mem0, lab0, mem, lab) && Finer(d, mem0, lab0, mem, lab)
      ensures failed ==> exact && vpage == INVALID_VA && Taken(d, mem0, lab0, from0, from0 + n * PAGE_SIZE)
      ensures !failed ==>
        && Going(d, mem0, lab0, mem, lab, exact, from, n, addr, count, lvl)
        && from % PAGE_SIZE == 0 && vpage == (if count == 0 then INVALID_VA else from)
        && (addr0 < addr || (addr0 == addr && lvl0 < lvl))
      ensures exact && !failed ==>
        && from == from0
        && InOneTable(d, mem0, lab0, from, from + n * PAGE_SIZE, lvl0, addr0, addr)
        && (addr0 < addr && count < n ==> Turns(d, mem0, lab0, from, from + n * PAGE_SIZE, addr))
    {
      hide Pow2, Descriptor.NEntries, Descriptor.Index, Descriptor.LvlSize, Descriptor.Serves;
      hide Going, SameView, Finer, EntryOk, Lookup, TableAt, Reaches, SplitLabels, Filled, Descriptor.Valid,
        WellFormed, Taken, InOneTable, Turns, Cover, TableNumber, Along;
      lvl, count, addr, vpage, failed, from := lvl0, count0, addr0, vpage0, false, from0;
      ghost var hi := from0 + n * PAGE_SIZE;
      GoingFacts(d, mem0, lab0, mem, lab, exact, from, n, addr, count, lvl);
      AlongStart(d, mem0, lab0, exact, from0, hi, lvl0, addr0);
      AlongEnd(d, mem0, lab0, exact, from0, hi, lvl0, addr0, addr0);
      var t, entry := GetPte(lvl, addr);
      var nentries, lvlsze := d.NEntries(lvl), d.LvlSize(lvl);
      while entry < nentries && count < n && !failed
        invariant !failed && lvl == lvl0 && addr0 <= addr && from % PAGE_SIZE == 0 && (addr == addr0 ==> count < n)
        invariant Valid() && Going(d, mem0, lab0, mem, lab, exact, from, n, addr, count, lvl)
        invariant lvl < d.Lvls() && Reaches(d, mem, lab, addr, lvl)
        invariant t == TableAt(d, mem, lab, addr, lvl) && entry == d.Index(addr, lvl)
        invariant t < |mem| && entry < |mem[t]| == nentries && |lab| == |mem| && lab[t].lvl == lvl
        invariant vpage == if count == 0 then INVALID_VA else from
        invariant Along(d, mem0, lab0, exact, from0, hi, lvl, addr0, addr)
        invariant exact ==> from == from0 && InOneTable(d, mem0, lab0, from0, hi, lvl, addr0, addr)
        decreases nentries - entry
      {
        GoingFacts(d, mem0, lab0, mem, lab, exact, from, n, addr, count, lvl);
        EntryUnder(d, mem, lab, addr, lvl);
        var pte := mem[t][entry];
        if pte == Invalid(true) || pte.Leaf? {
          if exact {
            GoFails(d, mem0, lab0, mem, lab, from, n, addr, count, lvl);
          } else {
            GoPast(d, mem0, lab0, mem, lab, from, n, addr, count, lvl);
            from := addr + lvlsze;
          }
          count := 0;
          vpage := INVALID_VA;
          if exact {
            failed := true;
            break;
          }
        } else if pte.Invalid? {
          if PteAllocable(pte, lvl, n - count, addr) {
            GoTake(d, mem0, lab0, mem, lab, exact, from, n, addr, count, lvl);
            if count == 0 {
              vpage := addr;
            }
            count := count + lvlsze / PAGE_SIZE;
          } else {
            GoDescend(d, mem0, lab0, mem, lab, exact, from, n, addr, count, lvl);
            var _ := AllocPt(t, entry, lvl);
          }
        } else {
          GoEnter(d, mem0, lab0, mem, lab, exact, from, n, addr, count, lvl);
        }
        if mem[t][entry].Table? {
          AlongTurn(d, mem0, lab0, exact, from0, hi, lvl, addr0, addr);
          lvl := lvl + 1;
          break;
        } else {
          AlongNext(d, mem0, lab0, exact, from0, hi, lvl, addr0, addr);
          addr := addr + lvlsze;
          entry := entry + 1;
          if entry >= nentries {
            lvl := 0;
            break;
          }
          GoingFacts(d, mem0, lab0, mem, lab, exact, from, n, addr, count, lvl);
        }
      }
      if !failed {
        GoingFacts(d, mem0, lab0, mem, lab, exact, from, n, addr, count, lvl);
      }
    }

    /**
     The search pass. With an address it takes free entries whole where they fit and puts tables
     behind the others until n pages are found, or stops at the first conflict. Without one it looks
     for the first free run; it stops, and says so, where addresses end and those of the program
     start over at 0.
     */
    method FindFree(at: nat, n: nat) returns (vpage: nat, around: bool)
      requires Valid() && at <= INVALID_VA && n * PAGE_SIZE <= d.Span()
      requires at == INVALID_VA ==> 4 * d.Span() <= VA_LIMIT
      modifies this
      ensures Valid() && SameView(d, old(mem), old(lab), mem, lab) && Finer(d, old(mem), old(lab), mem, lab)
      ensures vpage == INVALID_VA || Found(d, old(mem), old(lab), mem, lab, vpage, n)
      ensures Answered(d, old(mem), old(lab), at, n, vpage, around)
    {
      hide Pow2, Descriptor.Span, Going, SameView, Finer, Answered, Taken, InOneTable, Turns, OnTheWay, Found,
        WellFormed, PagesFrom, Descriptor.Valid;
      var exact := at != INVALID_VA;
      var lvl: nat, count: nat, addr: nat, failed := 0, 0, if exact then at else 0, false;
      vpage, around := INVALID_VA, false;
      if addr % PAGE_SIZE != 0 {
        Misaligned(d, mem, lab, at, n);
        return;
      }
      ghost var mem0, lab0 := mem, lab;
      ghost var from: nat, pl: nat, pa: nat := addr, 0, addr;
      GoStart(d, mem, lab, exact, addr, n);
      GoingFacts(d, mem0, lab0, mem, lab, exact, addr, n, addr, 0, 0);
      SetOut(d, mem, lab, addr, n);
      while count < n && !failed
        invariant Valid() && SameView(d, mem0, lab0, mem, lab) && Finer(d, mem0, lab0, mem, lab)
        invariant failed ==> vpage == INVALID_VA && Answered(d, mem0, lab0, at, n, vpage, false)
        invariant !failed ==> Going(d, mem0, lab0, mem, lab, exact, from, n, addr, count, lvl) && count <= n
        invariant !failed ==> from % PAGE_SIZE == 0 && vpage == if count == 0 then INVALID_VA else from
        invariant exact && !failed ==> from == at && OnTheWay(d, mem0, lab0, at, n, addr, count, pl, pa)
        decreases if failed then 0 else 1, VA_LIMIT - addr, d.Lvls() - lvl
      {
        GoingFacts(d, mem0, lab0, mem, lab, exact, from, n, addr, count, lvl);
        if exact {
          BelowEnd(d, mem0, lab0, at, n, addr, count, pl, pa);
        } else if VA_LIMIT <= addr {
          NoneFound(d, mem0, lab0, mem, lab, from, n, addr, count, lvl);
          return INVALID_VA, true;
        }
        CheckSays(n, addr);
        var fullAs := addr == 0;
        if !fullAs && PagesFrom(addr) < n {
          if exact {
            TooLate(d, mem0, lab0, at, n, addr, count, pl, pa);
          } else {
            NoneFound(d, mem0, lab0, mem, lab, from, n, addr, count, lvl);
          }
          vpage := INVALID_VA;
          failed := true;
          break;
        }
        ghost var lvl0, count0, addr0 := lvl, count, addr;
        lvl, count, addr, vpage, failed, from := ScanTable(exact, n, lvl, count, addr, vpage, from, mem0, lab0);
        if failed {
          IsTaken(d, mem0, lab0, at, n);
        } else {
          GoingFacts(d, mem0, lab0, mem, lab, exact, from, n, addr, count, lvl);
          if exact {
            NextTable(d, mem0, lab0, at, n, addr0, count0, pl, pa, lvl0, addr, count);
            pl, pa := lvl0, addr0;
          }
        }
      }
      if n == 0 {
        NothingAsked(d, mem0, lab0, at);
      } else if !failed && exact {
        NotRefused(d, mem0, lab0, mem, lab, at, n, addr, lvl, pl, pa);
      } else if !failed {
        FirstFound(d, mem0, lab0, mem, lab, from, n, addr, lvl);
      }
    }

    /** Walks down from the root to the first entry of addr that is not valid. */
    method FirstInvalid(addr: nat) returns (lvl: nat, t: nat, i: nat)
      requires Valid() && Lookup(d, mem, lab, addr).1.Invalid?
      ensures lvl == Lookup(d, mem, lab, addr).0
      ensures t == TableAt(d, mem, lab, addr, lvl) && i == d.Index(addr, lvl)
    {
      lvl := 0;
      t, i := GetPte(lvl, addr);
      while lvl < d.Lvls() && !mem[t][i].Invalid?
        invariant lvl <= Lookup(d, mem, lab, addr).0
        invariant t == TableAt(d, mem, lab, addr, lvl) && i == d.Index(addr, lvl)
      {
        lvl := lvl + 1;
        t, i := GetPte(lvl, addr);
      }
    }

    /** The marking pass: sets the reservation of every terminal entry of the range. */
    method Reserve(at: nat, n: nat)
      requires Valid() && n * PAGE_SIZE <= d.Span()
      requires Within(d, mem, lab, at, at + n * PAGE_SIZE)
      requires forall w: nat | at <= w < at + n * PAGE_SIZE :: View(w) == Unmapped
      modifies this
      ensures Valid() && Within(d, mem, lab, at, at + n * PAGE_SIZE) && Finer(d, old(mem), old(lab), mem, lab)
      ensures forall w: nat | at <= w < at + n * PAGE_SIZE :: View(w) == Reserved
      ensures forall w: nat | Outside(d, w, at, at + n * PAGE_SIZE) :: View(w) == old(View(w))
    {
      hide Pow2, Descriptor.NEntries, Descriptor.Index, Descriptor.Block, Descriptor.Span;
      hide Outside, Marking, Within;
      ghost var hi := at + n * PAGE_SIZE;
      var count, addr := 0, at;
      forall w: nat | at <= w < hi
        ensures ViewOf(d, mem, lab, w) == Unmapped
      {
        assert View(w) == Unmapped;
      }
      MarkStart(d, mem, lab, at, hi);
      while count < n
        invariant addr == at + count * PAGE_SIZE
        invariant lab == old(lab) && Valid() && Marking(d, old(mem), lab, mem, at, addr, hi)
        invariant addr <= hi
        decreases n - count
      {
        MarkStep(d, old(mem), lab, mem, at, addr, hi);
        var lvl, t, i := FirstInvalid(addr);
        ghost var next := addr + d.LvlSize(lvl);
        assert Marking(d, old(mem), lab, Store(mem, t, i, Invalid(true)), at, next, hi);
        mem := Store(mem, t, i, Invalid(true));
        SizeInPages(d, lvl);
        addr := addr + d.LvlSize(lvl);
        count := count + d.LvlSize(lvl) / PAGE_SIZE;
      }
      MarkDone(d, old(mem), lab, mem, at, hi);
    }

    /**
     Reserves n pages of virtual memory, at the requested address if there is one. A request for any
     address that finds no room is refused, or its search comes to the end of all addresses and starts
     over, which around tells.
     */
    method AllocVpage(at: nat, n: nat) returns (vpage: nat, around: bool)
      requires Valid() && at <= INVALID_VA && n * PAGE_SIZE <= d.Span()
      requires at == INVALID_VA ==> 4 * d.Span() <= VA_LIMIT
      modifies this
      ensures Valid() && Answered(d, old(mem), old(lab), at, n, vpage, around) &&
        Finer(d, old(mem), old(lab), mem, lab)
      ensures vpage == INVALID_VA ==> SameView(d, old(mem), old(lab), mem, lab)
      ensures vpage != INVALID_VA ==>
        && 0 < n && vpage % PAGE_SIZE == 0 && vpage + n * PAGE_SIZE <= VA_LIMIT
        && Within(d, mem, lab, vpage, vpage + n * PAGE_SIZE)
        && (forall w: nat | vpage <= w < vpage + n * PAGE_SIZE :: old(View(w)) == Unmapped && View(w) == Reserved)
        && (forall w: nat | Outside(d, w, vpage, vpage + n * PAGE_SIZE) :: View(w) == old(View(w)))
    {
      hide Pow2, Outside, Within, Answered, Descriptor.Span;
      vpage, around := FindFree(at, n);
      if vpage != INVALID_VA {
        forall w: nat
          ensures View(w) == old(View(w))
        {
          assert ViewOf(d, mem, lab, w) == ViewOf(d, old(mem), old(lab), w);
        }
        forall w: nat | vpage <= w < vpage + n * PAGE_SIZE
          ensures View(w) == Unmapped
        {
          assert ViewOf(d, mem, lab, w) == Unmapped;
        }
        ghost var mid, midLab := mem, lab;
        Reserve(vpage, n);
        FinerStill(d, old(mem), old(lab), mid, midLab, mem, lab);
      }
    }

    /**
     Maps the pages from base at va, page by page, after the sweep. More pages than were swept need
     tables behind the range.
     */
    method Map(va: nat, base: nat, pages: nat, nrPages: nat, flags: nat, dfltFlags: nat)
      requires Valid() && nrPages * PAGE_SIZE <= d.Span() && pages * PAGE_SIZE <= d.Span()
      requires Within(d, mem, lab, va - va % PAGE_SIZE, va - va % PAGE_SIZE + nrPages * PAGE_SIZE)
      requires Paged(d, mem, lab, va - va % PAGE_SIZE + nrPages * PAGE_SIZE, va - va % PAGE_SIZE + pages * PAGE_SIZE)
      modifies this
      ensures Valid()
      ensures var at := va - va % PAGE_SIZE;
              && (forall w: nat | at <= w < at + pages * PAGE_SIZE ::
                    View(w) == Mapped(Target(base, at, w)) && Flags(w) == Some(flags))
              && (forall w: nat | at + pages * PAGE_SIZE <= w < at + nrPages * PAGE_SIZE ::
                    View(w) == old(View(w)) && Flags(w) == old(SplitFlags(d, mem, lab, dfltFlags, w)))
              && (forall w: nat | Outside(d, w, at, at + Larger(pages, nrPages) * PAGE_SIZE) ::
                    View(w) == old(View(w)) && Flags(w) == old(Flags(w)))
    {
      hide Pow2, Descriptor.NEntries, Descriptor.Index, Descriptor.Block, Descriptor.Span;
      hide Outside, Target, Mapping, Within, Lookup, ViewOf, FlagsOf, SplitFlags, SameView, SweptAll, Deeper, Paged,
        TableAt, Reaches, EntryOk, MaskAddr;
      var vaddr := va - va % PAGE_SIZE;
      ghost var at := vaddr;
      ghost var hi := at + Larger(pages, nrPages) * PAGE_SIZE;
      InflatePt(vaddr, nrPages * PAGE_SIZE, dfltFlags);
      StillPaged(d, old(mem), old(lab), mem, lab, at + nrPages * PAGE_SIZE, at + pages * PAGE_SIZE);
      ghost var mem0, lab0 := mem, lab;
      MapStart(d, mem, lab, base, flags, at, at + nrPages * PAGE_SIZE, hi);
      var i := 0;
      while i < pages
        invariant 0 <= i <= pages
        invariant vaddr == at + i * PAGE_SIZE && lab == lab0
        invariant Mapping(d, mem0, lab0, mem, base, flags, at, vaddr, hi)
      {
        MapFacts(d, mem0, lab0, mem, base, flags, at, vaddr, hi);
        MapStep(d, mem0, lab0, mem, base, at, vaddr, hi, flags);
        var t, e := GetPte(d.Lvls() - 1, vaddr);
        mem := Store(mem, t, e, Leaf(MaskAddr(base + i * PAGE_SIZE), flags));
        vaddr := vaddr + PAGE_SIZE;
        i := i + 1;
      }
      MapDone(d, old(mem), old(lab), mem0, lab0, mem, base, flags, dfltFlags, at, vaddr, at + nrPages * PAGE_SIZE, hi);
    }

    /** Reserves a range and maps the given pages there. */
    method AllocMap(base: nat, pages: nat, at: nat, nrPages: nat, flags: nat, dfltFlags: nat)
      returns (address: nat, around: bool)
      requires Valid() && at <= INVALID_VA && nrPages * PAGE_SIZE <= d.Span() && pages * PAGE_SIZE <= d.Span()
      requires if at == INVALID_VA then pages <= nrPages && 4 * d.Span() <= VA_LIMIT
               else Paged(d, mem, lab, at + nrPages * PAGE_SIZE, at + pages * PAGE_SIZE)
      modifies this
      ensures Valid() && Answered(d, old(mem), old(lab), at, nrPages, address, around)
      ensures address == INVALID_VA ==>
        SameView(d, old(mem), old(lab), mem, lab) && Finer(d, old(mem), old(lab), mem, lab)
      ensures address != INVALID_VA ==>
        && 0 < nrPages && address % PAGE_SIZE == 0
        && (forall w: nat | address <= w < address + nrPages * PAGE_SIZE :: old(View(w)) == Unmapped)
        && (forall w: nat | address <= w < address + pages * PAGE_SIZE ::
              View(w) == Mapped(Target(base, address, w)) && Flags(w) == Some(flags))
        && (forall w: nat | address + pages * PAGE_SIZE <= w < address + nrPages * PAGE_SIZE :: View(w) == Reserved)
        && (forall w: nat | Outside(d, w, address, address + Larger(pages, nrPages) * PAGE_SIZE) ::
              View(w) == old(View(w)) && Flags(w) == old(Flags(w)))
    {
      hide Pow2, Outside, Within, Target, Answered, Descriptor.Span, Paged, Finer, ViewOf, FlagsOf;
      ghost var lo, hi := nrPages * PAGE_SIZE, pages * PAGE_SIZE;
      address, around := AllocVpage(at, nrPages);
      if address != INVALID_VA {
        AnswerAt(d, old(mem), old(lab), at, nrPages, address, around);
        if pages <= nrPages {
          NonePaged(d, mem, lab, address + lo, address + hi);
        } else {
          FinerIsDeeper(d, old(mem), old(lab), mem, lab);
          StillPaged(d, old(mem), old(lab), mem, lab, address + lo, address + hi);
        }
        FinerFlags(d, old(mem), old(lab), mem, lab);
        ghost var top := address + Larger(pages, nrPages) * PAGE_SIZE;
        ghost var m, l := mem, lab;
        forall w: nat | Outside(d, w, address, top)
          ensures ViewOf(d, m, l, w) == old(View(w)) && FlagsOf(d, m, l, w) == old(Flags(w))
        {
          OutsideLess(d, address, address + nrPages * PAGE_SIZE, top, w);
          assert View(w) == old(View(w));
        }
        assert address - address % PAGE_SIZE == address;
        Map(address, base, pages, nrPages, flags, dfltFlags);
        forall w: nat | Outside(d, w, address, top)
          ensures View(w) == old(View(w)) && Flags(w) == old(Flags(w))
        {
          assert View(w) == ViewOf(d, m, l, w) && Flags(w) == FlagsOf(d, m, l, w);
        }
      }
    }

    /** As AllocMap, for a device region. */
    method AllocMapDev(at: nat, pa: nat, nrPages: nat, devFlags: nat, dfltFlags: nat)
      returns (address: nat, around: bool)
      requires Valid() && at <= INVALID_VA && nrPages * PAGE_SIZE <= d.Span()
      requires at == INVALID_VA ==> 4 * d.Span() <= VA_LIMIT
      modifies this
      ensures Valid() && Answered(d, old(mem), old(lab), at, nrPages, address, around)
      ensures address == INVALID_VA ==>
        SameView(d, old(mem), old(lab), mem, lab) && Finer(d, old(mem), old(lab), mem, lab)
      ensures address != INVALID_VA ==>
        && 0 < nrPages && address % PAGE_SIZE == 0
        && (forall w: nat | address <= w < address + nrPages * PAGE_SIZE ::
              && old(View(w)) == Unmapped && View(w) == Mapped(Target(pa, address, w))
              && Flags(w) == Some(devFlags))
        && (forall w: nat | Outside(d, w, address, address + nrPages * PAGE_SIZE) ::
              View(w) == old(View(w)) && Flags(w) == old(Flags(w)))
    {
      hide Pow2, Outside, Within, Target, Answered, Descriptor.Span, Paged;
      NonePaged(d, mem, lab, at + nrPages * PAGE_SIZE, at + nrPages * PAGE_SIZE);
      address, around := AllocMap(pa, nrPages, at, nrPages, devFlags, dfltFlags);
    }
  }

  lemma MapStart(d: Descriptor, mem: Memory, lab: seq<Label>, base: nat, flags: nat, at: nat, mid: nat, hi: nat)
    requires WellFormed(d, mem, lab) && at <= hi <= at + d.Span() && at % PAGE_SIZE == 0
    requires forall w: nat | at <= w < mid :: Lookup(d, mem, lab, w).0 == d.Lvls() - 1
    requires mid < hi ==> Paged(d, mem, lab, mid, hi)
    ensures Mapping(d, mem, lab, mem, base, flags, at, at, hi)
  {
    hide Outside, Lookup, Pow2, Descriptor.Span, Target;
    forall w: nat
      ensures Written(d, mem, lab, mem, base, flags, at, at, hi, w)
    {
    }
  }

  /** The attributes of an address whose entry is split down to page level. */
  ghost function SplitFlags(d: Descriptor, mem: Memory, lab: seq<Label>, flags: nat, w: nat): Option<nat>
    requires WellFormed(d, mem, lab)
  {
    if FlagsOf(d, mem, lab, w).Some? && Lookup(d, mem, lab, w).0 < d.Lvls() - 1 then Some(flags)
    else FlagsOf(d, mem, lab, w)
  }

  lemma MapDone(d: Descriptor, memA: Memory, labA: seq<Label>, mem0: Memory, lab0: seq<Label>, mem: Memory, base: nat,
      flags: nat, dflt: nat, at: nat, vaddr: nat, mid: nat, hi: nat)
    requires WellFormed(d, memA, labA) && WellFormed(d, mem0, lab0)
    requires SweptAll(d, memA, labA, mem0, lab0, at, mid, dflt) && mid <= hi
    requires Mapping(d, mem0, lab0, mem, base, flags, at, vaddr, hi)
    ensures WellFormed(d, mem, lab0)
    ensures forall w: nat | at <= w < vaddr ::
      ViewOf(d, mem, lab0, w) == Mapped(Target(base, at, w)) && FlagsOf(d, mem, lab0, w) == Some(flags)
    ensures forall w: nat | vaddr <= w < hi ::
      ViewOf(d, mem, lab0, w) == ViewOf(d, memA, labA, w) &&
        FlagsOf(d, mem, lab0, w) == SplitFlags(d, memA, labA, dflt, w)
    ensures forall w: nat | Outside(d, w, at, hi) ::
      ViewOf(d, mem, lab0, w) == ViewOf(d, memA, labA, w) && FlagsOf(d, mem, lab0, w) == FlagsOf(d, memA, labA, w)
  {
    hide Outside, Lookup, Pow2, Descriptor.Span, Target;
    forall w: nat
      ensures at <= w < vaddr ==>
        ViewOf(d, mem, lab0, w) == Mapped(Target(base, at, w)) && FlagsOf(d, mem, lab0, w) == Some(flags)
      ensures vaddr <= w < hi || Outside(d, w, at, hi) ==> ViewOf(d, mem, lab0, w) == ViewOf(d, memA, labA, w)
      ensures vaddr <= w < hi ==> FlagsOf(d, mem, lab0, w) == SplitFlags(d, memA, labA, dflt, w)
      ensures Outside(d, w, at, hi) ==> FlagsOf(d, mem, lab0, w) == FlagsOf(d, memA, labA, w)
    {
      assert Written(d, mem0, lab0, mem, base, flags, at, vaddr, hi, w);
      assert Swept(d, memA, labA, mem0, lab0, at, mid, dflt, w);
      if Outside(d, w, at, hi) {
        OutsideLess(d, at, mid, hi, w);
      }
    }
  }

  lemma MapFacts(d: Descriptor, mem0: Memory, lab: seq<Label>, mem: Memory, base: nat, flags: nat, at: nat,
      vaddr: nat, hi: nat)
    requires Mapping(d, mem0, lab, mem, base, flags, at, vaddr, hi)
    ensures WellFormed(d, mem0, lab) && WellFormed(d, mem, lab)
  {
  }

  function Larger(a: nat, b: nat): nat {
    if a < b then b else a
  }

  lemma FinerStill(d: Descriptor, mem0: Memory, lab0: seq<Label>, mem1: Memory, lab1: seq<Label>, mem: Memory,
      lab: seq<Label>)
    requires WellFormed(d, mem0, lab0) && WellFormed(d, mem1, lab1) && WellFormed(d, mem, lab)
    requires Finer(d, mem0, lab0, mem1, lab1) && Finer(d, mem1, lab1, mem, lab)
    ensures Finer(d, mem0, lab0, mem, lab)
  {
    hide Lookup, FlagsOf;
    forall w: nat
      ensures Lookup(d, mem0, lab0, w).0 <= Lookup(d, mem, lab, w).0
      ensures FlagsOf(d, mem, lab, w) == FlagsOf(d, mem0, lab0, w)
    {
      assert Lookup(d, mem0, lab0, w).0 <= Lookup(d, mem1, lab1, w).0;
      assert FlagsOf(d, mem1, lab1, w) == FlagsOf(d, mem0, lab0, w);
    }
  }

  lemma FinerIsDeeper(d: Descriptor, mem: Memory, lab: seq<Label>, mem': Memory, lab': seq<Label>)
    requires WellFormed(d, mem, lab) && WellFormed(d, mem', lab') && Finer(d, mem, lab, mem', lab')
    ensures Deeper(d, mem, lab, mem', lab')
  {
  }

  lemma FinerFlags(d: Descriptor, mem: Memory, lab: seq<Label>, mem': Memory, lab': seq<Label>)
    requires WellFormed(d, mem, lab) && WellFormed(d, mem', lab') && Finer(d, mem, lab, mem', lab')
    ensures forall w: nat :: FlagsOf(d, mem', lab', w) == FlagsOf(d, mem, lab, w)
  {
    hide FlagsOf;
  }

  lemma AnswerAt(d: Descriptor, mem: Memory, lab: seq<Label>, at: nat, n: nat, vpage: nat, around: bool)
    requires WellFormed(d, mem, lab) && Answered(d, mem, lab, at, n, vpage, around) && vpage != INVALID_VA
    ensures at != INVALID_VA ==> vpage == at
  {
    hide Refused, FirstFit;
  }

  lemma NonePaged(d: Descriptor, mem: Memory, lab: seq<Label>, lo: nat, hi: nat)
    requires WellFormed(d, mem, lab) && hi <= lo
    ensures Paged(d, mem, lab, lo, hi)
  {
  }

  /** What is outside a longer range is outside the shorter one. */
  lemma OutsideLess(d: Descriptor, lo: nat, mid: nat, hi: nat, w: nat)
    requires d.Valid() && mid <= hi && Outside(d, w, lo, hi)
    ensures Outside(d, w, lo, mid)
  {
    hide Pow2, Descriptor.Span;
    BlockOfAlias(d, w, 0);
  }

  lemma ExpandedPageRefines(d: Descriptor, lvl: nat, pte: Pte, page: seq<Pte>, flags: nat)
    requires d.Valid() && lvl + 1 < d.Lvls() && !pte.Table?
    requires pte.Leaf? ==> d.term[lvl] && pte.pa % PAGE_SIZE == 0 && pte.pa + d.LvlSize(lvl) <= OUTPUT_LIMIT
    requires Replica(d, lvl + 1, pte, page, flags)
    ensures Refines(d, lvl, pte, page)
  {
    var s, n := d.LvlSize(lvl + 1), d.NEntries(lvl + 1);
    SizeInPages(d, lvl + 1);
    Sizes(d, lvl + 1);
    if pte.Leaf? {
      forall j | 0 <= j < |page|
        ensures page[j] == Leaf(SubBlock(pte.pa, j, s), flags)
        ensures (pte.pa + j * s) % PAGE_SIZE == 0 && pte.pa + j * s + s <= OUTPUT_LIMIT
      {
        IndexFits(j, n, s);
        MultipleSum(pte.pa, j, s, PAGE_SIZE);
      }
    }
  }

  /** The page mem_expand_pte builds for an entry. */
  ghost predicate Replica(d: Descriptor, lvl: nat, pte: Pte, page: seq<Pte>, flags: nat)
    requires d.Valid() && lvl < d.Lvls()
  {
    && |page| == d.NEntries(lvl)
    && forall j | 0 <= j < |page| ::
        page[j] == if pte.Leaf? then Leaf(MaskAddr(SubBlock(pte.pa, j, d.LvlSize(lvl))), flags) else pte
  }

  lemma SplitPage(mem: Memory, t: nat, i: nat, p: seq<Pte>, q: seq<Pte>)
    requires t < |mem| && i < |mem[t]|
    ensures Split(mem, t, i, p)[|mem| := q] == Split(mem, t, i, q)
  {
  }

  lemma ExpandedEverywhere(d: Descriptor, mem: Memory, lab: seq<Label>, va: nat, l: nat, page: seq<Pte>, flags: nat)
    requires WellFormed(d, mem, lab) && l + 1 < d.Lvls() && Lookup(d, mem, lab, va).0 == l
    requires Replica(d, l + 1, Lookup(d, mem, lab, va).1, page, flags)
    ensures var t, i := TableAt(d, mem, lab, va, l), d.Index(va, l);
            var mem', lab' := Split(mem, t, i, page), SplitLabels(d, lab, t, i);
            && WellFormed(d, mem', lab')
            && Reaches(d, mem', lab', va, l + 1)
            && forall w: nat :: Expanded(d, mem, lab, mem', lab', va, l, flags, w)
  {
    var t, i := TableAt(d, mem, lab, va, l), d.Index(va, l);
    var mem', lab' := Split(mem, t, i, page), SplitLabels(d, lab, t, i);
    assert EntryOk(d, lab, t, i, mem[t][i]);
    ExpandedPageRefines(d, l, Lookup(d, mem, lab, va).1, page, flags);
    SplitWellFormed(d, mem, lab, t, i, page);
    forall w: nat
      ensures Expanded(d, mem, lab, mem', lab', va, l, flags, w)
    {
      SplitExpands(d, mem, lab, va, l, page, flags, w);
    }
    SplitLookup(d, mem, lab, va, l, page, va);
  }
}
