/**
 Stage-2 page tables: descriptors, entries, the table walk and the view of an
 address that the walk gives.

 Tables live in a memory indexed by table address; an entry that is a table holds
 the address of the next-level table. Every table carries a ghost label, the level
 it serves and the number of the block it translates, and the one invariant that
 matters is local: the table an entry points to is labelled with that entry's block.
 */
module PageTableModel {
  import opened Basics
  import opened Arith

  const PAGE_SHIFT: nat := 12
  const ADDRESS_BITS: nat := 64
  const VA_LIMIT: nat := 0x1_0000_0000_0000_0000
  /** Output addresses are kept in bits 47..12 of an entry. */
  const OUTPUT_LIMIT: nat := 0x1_0000_0000_0000

  lemma Pow2Whole()
    ensures Pow2(ADDRESS_BITS) == VA_LIMIT
  {
    Pow2Page();
    Pow2Add(12, 12);
    Pow2Add(24, 24);
    Pow2Add(48, 12);
    Pow2Add(60, 4);
    assert Pow2(4) == 16;
  }

  lemma {:induction false} Pow2Limit(n: nat)
    requires n <= ADDRESS_BITS
    ensures Pow2(n) <= VA_LIMIT
    decreases ADDRESS_BITS - n
  {
    if n < ADDRESS_BITS {
      Pow2Limit(n + 1);
    } else {
      Pow2Whole();
    }
  }

  lemma Pow2Page()
    ensures Pow2(PAGE_SHIFT) == PAGE_SIZE
  {
    assert Pow2(4) == 16;
    Pow2Add(4, 4);
    Pow2Add(8, 4);
  }

  // ---- descriptors

  datatype Descriptor = Descriptor(off: seq<nat>, wdt: seq<nat>, term: seq<bool>) {

    function Lvls(): nat { |off| }

    ghost predicate Valid() {
      && 1 <= |off| == |wdt| == |term|
      && off[|off| - 1] == PAGE_SHIFT
      && wdt[0] <= ADDRESS_BITS
      && term[|off| - 1]
      && (forall l | 0 <= l < |off| :: off[l] < wdt[l])
      && (forall l | 0 < l < |off| :: wdt[l] == off[l - 1])
      && (forall l | 0 < l < |off| :: term[l - 1] ==> term[l])
    }

    function LvlSize(l: nat): (r: nat)
      requires l < |off|
      ensures r >= 1
    {
      Pow2(off[l])
    }

    /** (1 << wdt) >> off */
    function NEntries(l: nat): (r: nat)
      requires Valid() && l < |off|
      ensures r >= 1
    {
      Pow2(wdt[l] - off[l])
    }

    function Index(va: nat, l: nat): (i: nat)
      requires Valid() && l < |off|
      ensures i < NEntries(l)
    {
      ModRange(va, LvlSize(l));
      (va / LvlSize(l)) % NEntries(l)
    }

    /** Number of level-l blocks in the whole input address space. */
    ghost function Blocks(l: nat): (r: nat)
      requires Valid() && l < |off|
      ensures r >= 1
    {
      OffBelow(this, l);
      Pow2(wdt[0] - off[l])
    }

    /** Size of the input address space. */
    ghost function Span(): nat
      requires Valid()
    {
      Pow2(wdt[0])
    }

    /** The level-l block that holds va; addresses beyond the space alias into it. */
    ghost function Block(va: nat, l: nat): (b: nat)
      requires Valid() && l < |off|
      ensures b < Blocks(l)
    {
      (va / LvlSize(l)) % Blocks(l)
    }

    /** The block translated by the level-l table that serves va. */
    ghost function Serves(va: nat, l: nat): nat
      requires Valid() && l < |off|
    {
      if l == 0 then 0 else Block(va, l - 1)
    }

    /** First address of the level-l block of va, before aliasing. */
    function Base(va: nat, l: nat): (b: nat)
      requires l < |off|
      ensures b <= va < b + LvlSize(l)
    {
      ModRange(va, LvlSize(l));
      va - va % LvlSize(l)
    }
  }

  /** The 64-bit descriptor shared by both translation stages. */
  const ARMV8_PT_DSCR: Descriptor :=
    Descriptor([39, 30, 21, 12], [48, 39, 30, 21], [false, true, true, true])

  /** The 32-bit stage-2 descriptor. */
  const ARMV8_AARCH32_S2_DSCR: Descriptor :=
    Descriptor([30, 21, 12], [39, 30, 21], [true, true, true])

  lemma DescriptorsValid()
    ensures ARMV8_PT_DSCR.Valid() && ARMV8_AARCH32_S2_DSCR.Valid()
    ensures 4 * ARMV8_PT_DSCR.Span() <= VA_LIMIT && 4 * ARMV8_AARCH32_S2_DSCR.Span() <= VA_LIMIT
  {
    hide Pow2;
    FourTimes(48);
    FourTimes(39);
  }

  /** Tables of 512 entries over blocks of 512 GiB, 1 GiB, 2 MiB and 4 KiB, and leaves from 1 GiB down. */
  lemma LevelSizes()
    ensures ARMV8_PT_DSCR.Valid() && ARMV8_PT_DSCR.Lvls() == 4 && ARMV8_PT_DSCR.Span() == 0x1_0000_0000_0000
    ensures var d := ARMV8_PT_DSCR;
            && d.LvlSize(0) == 0x80_0000_0000 && d.LvlSize(1) == 0x4000_0000
            && d.LvlSize(2) == 0x20_0000 && d.LvlSize(3) == 0x1000
            && !d.term[0] && d.term[1] && d.term[2] && d.term[3]
            && forall l | 0 <= l < 4 :: d.NEntries(l) == 512
    ensures ARMV8_AARCH32_S2_DSCR.Valid() && ARMV8_AARCH32_S2_DSCR.Lvls() == 3
    ensures var d := ARMV8_AARCH32_S2_DSCR;
            && d.Span() == 0x80_0000_0000 && d.LvlSize(0) == 0x4000_0000
            && d.LvlSize(1) == 0x20_0000 && d.LvlSize(2) == 0x1000
            && forall l | 0 <= l < 3 :: d.term[l] && d.NEntries(l) == 512
  {
    hide Pow2;
    Powers();
  }

  lemma Powers()
    ensures Pow2(9) == 512 && Pow2(12) == 0x1000 && Pow2(21) == 0x20_0000 && Pow2(30) == 0x4000_0000
    ensures Pow2(39) == 0x80_0000_0000 && Pow2(48) == 0x1_0000_0000_0000
  {
    NextPower(9, 0);
    NextPower(3, 9);
    NextPower(9, 12);
    NextPower(9, 21);
    NextPower(9, 30);
    NextPower(9, 39);
  }

  lemma {:induction false} NextPower(n: nat, m: nat)
    requires n <= 9
    ensures Pow2(m + n) == Pow2(m) * [1, 2, 4, 8, 16, 32, 64, 128, 256, 512][n]
  {
    if n > 0 {
      NextPower(n - 1, m);
    }
  }

  lemma FourTimes(n: nat)
    requires n + 2 <= ADDRESS_BITS
    ensures 4 * Pow2(n) <= VA_LIMIT
  {
    Pow2Limit(n + 2);
    assert Pow2(n + 2) == 2 * Pow2(n + 1);
  }

  lemma {:induction false} OffBelow(d: Descriptor, l: nat)
    requires d.Valid() && l < d.Lvls()
    ensures d.off[l] < d.wdt[l] <= d.wdt[0]
  {
    if l > 0 { OffBelow(d, l - 1); }
  }

  lemma Sizes(d: Descriptor, l: nat)
    requires d.Valid() && l < d.Lvls()
    ensures d.NEntries(l) * d.LvlSize(l) == Pow2(d.wdt[l])
    ensures l > 0 ==> d.LvlSize(l - 1) == d.LvlSize(l) * d.NEntries(l)
  {
    Pow2Add(d.wdt[l] - d.off[l], d.off[l]);
  }

  lemma LastSize(d: Descriptor)
    requires d.Valid()
    ensures d.LvlSize(d.Lvls() - 1) == PAGE_SIZE
  {
    Pow2Page();
  }

  lemma BlockCount(d: Descriptor, l: nat)
    requires d.Valid() && l < d.Lvls()
    ensures l == 0 ==> d.Blocks(0) == d.NEntries(0)
    ensures l > 0 ==> d.Blocks(l) == d.Blocks(l - 1) * d.NEntries(l)
    ensures d.Blocks(l) * d.LvlSize(l) == d.Span()
  {
    hide Pow2;
    Sizes(d, l);
    OffBelow(d, l);
    Pow2Add(d.wdt[0] - d.off[l], d.off[l]);
    if l > 0 {
      OffBelow(d, l - 1);
      Pow2Add(d.wdt[0] - d.off[l - 1], d.wdt[l] - d.off[l]);
    }
  }

  /** A block is its table's block and the index inside the table. */
  lemma BlockSplit(d: Descriptor, va: nat, l: nat)
    requires d.Valid() && l < d.Lvls()
    ensures d.Block(va, l) == d.Serves(va, l) * d.NEntries(l) + d.Index(va, l)
  {
    Sizes(d, l);
    BlockCount(d, l);
    if l > 0 {
      var s, n := d.LvlSize(l), d.NEntries(l);
      ModRange(va, s);
      DivDiv(va, s, n);
      ModSplit(va / s, d.Blocks(l - 1), n);
    }
  }

  /** Same block at level l means same table and same index there, and conversely. */
  lemma SameBlockSplit(d: Descriptor, va: nat, w: nat, l: nat)
    requires d.Valid() && l < d.Lvls()
    ensures d.Block(va, l) == d.Block(w, l) <==>
            d.Serves(va, l) == d.Serves(w, l) && d.Index(va, l) == d.Index(w, l)
  {
    BlockSplit(d, va, l);
    BlockSplit(d, w, l);
    if d.Block(va, l) == d.Block(w, l) {
      DivUnique(d.Block(va, l), d.NEntries(l), d.Serves(va, l), d.Index(va, l));
      DivUnique(d.Block(w, l), d.NEntries(l), d.Serves(w, l), d.Index(w, l));
    }
  }

  /** Same block at some level means same block at every level above it. */
  lemma {:induction false} SameBlockUp(d: Descriptor, va: nat, w: nat, l: nat, k: nat)
    requires d.Valid() && k <= l < d.Lvls()
    requires d.Block(va, l) == d.Block(w, l)
    ensures d.Block(va, k) == d.Block(w, k)
    decreases l
  {
    if k < l {
      SameBlockSplit(d, va, w, l);
      SameBlockUp(d, va, w, l - 1, k);
    }
  }

  /** The offset inside a block continues into the next level's index. */
  lemma OffsetSplit(d: Descriptor, va: nat, l: nat)
    requires d.Valid() && l + 1 < d.Lvls()
    ensures va % d.LvlSize(l) == d.Index(va, l + 1) * d.LvlSize(l + 1) + va % d.LvlSize(l + 1)
  {
    Sizes(d, l + 1);
    DivDiv(va, d.LvlSize(l + 1), d.NEntries(l + 1));
  }

  // ---- entries and memory

  datatype Pte = Invalid(reserved: bool) | Table(addr: nat) | Leaf(pa: nat, flags: nat)

  type Memory = seq<seq<Pte>>

  datatype Label = Label(lvl: nat, block: nat)

  /** Storing an output address keeps bits 47..12 only. */
  function MaskAddr(a: nat): (r: nat)
    ensures r % PAGE_SIZE == 0 && r + PAGE_SIZE <= OUTPUT_LIMIT
    ensures a % PAGE_SIZE == 0 && a < OUTPUT_LIMIT ==> r == a
  {
    (a % OUTPUT_LIMIT) / PAGE_SIZE * PAGE_SIZE
  }

  ghost predicate EntryOk(d: Descriptor, lab: seq<Label>, t: nat, i: nat, e: Pte)
    requires d.Valid() && t < |lab| && lab[t].lvl < d.Lvls()
  {
    match e
    case Invalid(_) => true
    case Table(a) =>
      && lab[t].lvl + 1 < d.Lvls()
      && a < |lab|
      && lab[a] == Label(lab[t].lvl + 1, lab[t].block * d.NEntries(lab[t].lvl) + i)
    case Leaf(pa, _) =>
      && d.term[lab[t].lvl]
      && pa % PAGE_SIZE == 0
      && pa + d.LvlSize(lab[t].lvl) <= OUTPUT_LIMIT
  }

  ghost predicate WellFormed(d: Descriptor, mem: Memory, lab: seq<Label>) {
    && d.Valid()
    && 1 <= |mem| == |lab|
    && lab[0] == Label(0, 0)
    && (forall t | 0 <= t < |mem| :: lab[t].lvl < d.Lvls() && |mem[t]| == d.NEntries(lab[t].lvl))
    && (forall t, i | 0 <= t < |mem| && 0 <= i < |mem[t]| :: EntryOk(d, lab, t, i, mem[t][i]))
  }

  // ---- the walk

  /** The terminal entry for va below table t, with its level. */
  ghost function Find(d: Descriptor, mem: Memory, lab: seq<Label>, t: nat, va: nat): (r: (nat, Pte))
    requires WellFormed(d, mem, lab) && t < |mem|
    ensures lab[t].lvl <= r.0 < d.Lvls() && !r.1.Table?
    decreases d.Lvls() - lab[t].lvl
  {
    var e := mem[t][d.Index(va, lab[t].lvl)];
    assert EntryOk(d, lab, t, d.Index(va, lab[t].lvl), e);
    match e
    case Table(a) => Find(d, mem, lab, a, va)
    case _ => (lab[t].lvl, e)
  }

  /** The terminal entry the hardware walk reaches for va, with its level. */
  ghost function Lookup(d: Descriptor, mem: Memory, lab: seq<Label>, va: nat): (r: (nat, Pte))
    requires WellFormed(d, mem, lab)
    ensures r.0 < d.Lvls() && !r.1.Table?
  {
    Find(d, mem, lab, 0, va)
  }

  /** All entries for va above level l are tables. */
  ghost predicate Reaches(d: Descriptor, mem: Memory, lab: seq<Label>, va: nat, l: nat)
    requires WellFormed(d, mem, lab)
  {
    l <= Lookup(d, mem, lab, va).0
  }

  /** The level-l table on the walk of va. */
  ghost function TableAt(d: Descriptor, mem: Memory, lab: seq<Label>, va: nat, l: nat): (t: nat)
    requires WellFormed(d, mem, lab) && Reaches(d, mem, lab, va, l)
    ensures t < |mem|
    ensures lab[t] == Label(l, d.Serves(va, l))
    ensures Lookup(d, mem, lab, va) == Find(d, mem, lab, t, va)
  {
    if l == 0 then 0
    else
      var p := TableAt(d, mem, lab, va, l - 1);
      assert EntryOk(d, lab, p, d.Index(va, l - 1), mem[p][d.Index(va, l - 1)]);
      BlockSplit(d, va, l - 1);
      mem[p][d.Index(va, l - 1)].addr
  }

  /** What the tables say about one address. */
  datatype View = Unmapped | Reserved | Mapped(pa: nat)

  /** The view an entry gives an address of its block. */
  ghost function EntryView(d: Descriptor, l: nat, e: Pte, va: nat): View
    requires l < d.Lvls() && !e.Table?
  {
    match e
    case Leaf(pa, _) => Mapped(pa + va % d.LvlSize(l))
    case Invalid(rsv) => if rsv then Reserved else Unmapped
  }

  ghost function ViewOf(d: Descriptor, mem: Memory, lab: seq<Label>, va: nat): View
    requires WellFormed(d, mem, lab)
  {
    EntryView(d, Lookup(d, mem, lab, va).0, Lookup(d, mem, lab, va).1, va)
  }

  /** The attributes of the leaf that translates an address. */
  ghost function FlagsOf(d: Descriptor, mem: Memory, lab: seq<Label>, va: nat): Option<nat>
    requires WellFormed(d, mem, lab)
  {
    var e := Lookup(d, mem, lab, va).1;
    if e.Leaf? then Some(e.flags) else None
  }

  ghost predicate SameView(d: Descriptor, mem: Memory, lab: seq<Label>, mem': Memory, lab': seq<Label>)
    requires WellFormed(d, mem, lab) && WellFormed(d, mem', lab')
  {
    forall va: nat :: ViewOf(d, mem', lab', va) == ViewOf(d, mem, lab, va)
  }

  lemma InTable(d: Descriptor, mem: Memory, lab: seq<Label>, va: nat, l: nat)
    requires WellFormed(d, mem, lab) && l < d.Lvls() && Reaches(d, mem, lab, va, l)
    ensures d.Index(va, l) < |mem[TableAt(d, mem, lab, va, l)]| == d.NEntries(l)
  {
  }

  /** The entry under addr ends the walk, or sends it one level down. */
  lemma EntryUnder(d: Descriptor, mem: Memory, lab: seq<Label>, addr: nat, lvl: nat)
    requires WellFormed(d, mem, lab) && lvl < d.Lvls() && Reaches(d, mem, lab, addr, lvl)
    ensures var pte := mem[TableAt(d, mem, lab, addr, lvl)][d.Index(addr, lvl)];
            && (pte.Table? <==> Lookup(d, mem, lab, addr).0 > lvl)
            && (pte.Table? ==> lvl + 1 < d.Lvls() && TableAt(d, mem, lab, addr, lvl + 1) == pte.addr)
            && (!pte.Table? ==> Lookup(d, mem, lab, addr) == (lvl, pte))
  {
    var t, i := TableAt(d, mem, lab, addr, lvl), d.Index(addr, lvl);
    assert EntryOk(d, lab, t, i, mem[t][i]);
  }

  /** Addresses that share a block share the table that serves it. */
  lemma {:induction false} TableAtShared(d: Descriptor, mem: Memory, lab: seq<Label>, va: nat, w: nat, l: nat)
    requires WellFormed(d, mem, lab) && Reaches(d, mem, lab, va, l) && l < d.Lvls()
    requires d.Serves(va, l) == d.Serves(w, l)
    ensures Reaches(d, mem, lab, w, l)
    ensures TableAt(d, mem, lab, w, l) == TableAt(d, mem, lab, va, l)
    decreases l
  {
    hide Pow2, Descriptor.NEntries, Descriptor.Index, Descriptor.Block, EntryOk, Lookup;
    if l > 0 {
      SameBlockSplit(d, va, w, l - 1);
      TableAtShared(d, mem, lab, va, w, l - 1);
      EntryUnder(d, mem, lab, va, l - 1);
      EntryUnder(d, mem, lab, w, l - 1);
    }
  }

  /** A terminal block is terminal, with the same entry, for all its addresses. */
  lemma LookupShared(d: Descriptor, mem: Memory, lab: seq<Label>, va: nat, w: nat)
    requires WellFormed(d, mem, lab)
    requires var l := Lookup(d, mem, lab, va).0; d.Block(va, l) == d.Block(w, l)
    ensures Lookup(d, mem, lab, w) == Lookup(d, mem, lab, va)
  {
    var l := Lookup(d, mem, lab, va).0;
    SameBlockSplit(d, va, w, l);
    TableAtShared(d, mem, lab, va, w, l);
    EntryUnder(d, mem, lab, va, l);
    EntryUnder(d, mem, lab, w, l);
  }

  // ---- rewriting one entry

  /** mem' differs from mem in entry (t, i) only, and may hold further tables. */
  ghost predicate Patched(d: Descriptor, mem: Memory, lab: seq<Label>, mem': Memory, lab': seq<Label>, t: nat, i: nat)
  {
    && WellFormed(d, mem, lab) && WellFormed(d, mem', lab')
    && t < |mem| <= |mem'| && i < |mem[t]|
    && lab == lab'[..|lab|]
    && (forall u, j | 0 <= u < |mem| && 0 <= j < |mem[u]| :: (u == t && j == i) || mem'[u][j] == mem[u][j])
  }

  /** Walks that do not enter the rewritten block end where they did. */
  lemma {:induction false} FindElsewhere(d: Descriptor, mem: Memory, lab: seq<Label>, mem': Memory, lab': seq<Label>,
                                         t: nat, i: nat, u: nat, va: nat)
    requires Patched(d, mem, lab, mem', lab', t, i) && u < |mem|
    requires lab[u].block == d.Serves(va, lab[u].lvl)
    requires d.Block(va, lab[t].lvl) != lab[t].block * d.NEntries(lab[t].lvl) + i
    ensures Find(d, mem', lab', u, va) == Find(d, mem, lab, u, va)
    decreases d.Lvls() - lab[u].lvl
  {
    hide Pow2, Descriptor.NEntries, Descriptor.Index, Descriptor.Block;
    var l := lab[u].lvl;
    var j := d.Index(va, l);
    BlockSplit(d, va, l);
    assert lab'[u] == lab[u];
    assert !(u == t && j == i);
    assert EntryOk(d, lab, u, j, mem[u][j]);
    if mem[u][j].Table? {
      var a := mem[u][j].addr;
      assert lab'[a] == lab[a];
      FindElsewhere(d, mem, lab, mem', lab', t, i, a, va);
    }
  }

  lemma LookupElsewhere(d: Descriptor, mem: Memory, lab: seq<Label>, mem': Memory, lab': seq<Label>,
                        t: nat, i: nat, va: nat)
    requires Patched(d, mem, lab, mem', lab', t, i)
    requires d.Block(va, lab[t].lvl) != lab[t].block * d.NEntries(lab[t].lvl) + i
    ensures Lookup(d, mem', lab', va) == Lookup(d, mem, lab, va)
  {
    FindElsewhere(d, mem, lab, mem', lab', t, i, 0, va);
  }

  /** Walks that enter the rewritten block still reach the table that holds it. */
  lemma {:induction false} TableAtKept(d: Descriptor, mem: Memory, lab: seq<Label>, mem': Memory, lab': seq<Label>,
                                       t: nat, i: nat, va: nat, l: nat)
    requires Patched(d, mem, lab, mem', lab', t, i)
    requires l <= lab[t].lvl && Reaches(d, mem, lab, va, l)
    ensures Reaches(d, mem', lab', va, l)
    ensures TableAt(d, mem', lab', va, l) == TableAt(d, mem, lab, va, l)
    decreases l
  {
    hide Pow2, Descriptor.NEntries, Descriptor.Index, Descriptor.Block, Descriptor.Serves, Descriptor.Valid;
    hide EntryOk, Lookup, WellFormed, Patched, TableAt;
    PatchedFacts(d, mem, lab, mem', lab', t, i);
    if l == 0 {
      RootTable(d, mem, lab, va);
      RootTable(d, mem', lab', va);
    } else {
      TableAtKept(d, mem, lab, mem', lab', t, i, va, l - 1);
      var p, j := TableAt(d, mem, lab, va, l - 1), d.Index(va, l - 1);
      InTable(d, mem, lab, va, l - 1);
      PatchedOther(d, mem, lab, mem', lab', t, i, p, j);
      EntryUnder(d, mem, lab, va, l - 1);
      EntryUnder(d, mem', lab', va, l - 1);
    }
  }

  lemma RootTable(d: Descriptor, mem: Memory, lab: seq<Label>, va: nat)
    requires WellFormed(d, mem, lab)
    ensures Reaches(d, mem, lab, va, 0) && TableAt(d, mem, lab, va, 0) == 0
  {
  }

  lemma PatchedFacts(d: Descriptor, mem: Memory, lab: seq<Label>, mem': Memory, lab': seq<Label>, t: nat, i: nat)
    requires Patched(d, mem, lab, mem', lab', t, i)
    ensures WellFormed(d, mem, lab) && WellFormed(d, mem', lab') && |lab| == |mem| && t < |mem| && lab[t].lvl < d.Lvls()
  {
  }

  lemma PatchedOther(d: Descriptor, mem: Memory, lab: seq<Label>, mem': Memory, lab': seq<Label>, t: nat, i: nat,
      p: nat, j: nat)
    requires Patched(d, mem, lab, mem', lab', t, i) && p < |mem| && p != t && j < |mem[p]|
    ensures p < |mem'| && j < |mem'[p]| && mem'[p][j] == mem[p][j]
  {
    assert lab'[p] == lab'[..|lab|][p] == lab[p];
  }

  /** The walk of an address inside the rewritten block continues from the new entry. */
  lemma LookupInside(d: Descriptor, mem: Memory, lab: seq<Label>, mem': Memory, lab': seq<Label>,
                     va: nat, l: nat, w: nat)
    requires WellFormed(d, mem, lab) && Reaches(d, mem, lab, va, l) && l < d.Lvls()
    requires Patched(d, mem, lab, mem', lab', TableAt(d, mem, lab, va, l), d.Index(va, l))
    requires d.Block(w, l) == d.Block(va, l)
    ensures Reaches(d, mem', lab', w, l)
    ensures TableAt(d, mem', lab', w, l) == TableAt(d, mem, lab, va, l)
    ensures d.Index(w, l) == d.Index(va, l)
    ensures Lookup(d, mem', lab', w) == Find(d, mem', lab', TableAt(d, mem, lab, va, l), w)
  {
    SameBlockSplit(d, va, w, l);
    TableAtShared(d, mem, lab, va, w, l);
    TableAtKept(d, mem, lab, mem', lab', TableAt(d, mem, lab, va, l), d.Index(va, l), w, l);
  }

  // ---- addresses that share a block

  /** The address inside the space that va stands for, block by block. */
  lemma BlockOfAlias(d: Descriptor, va: nat, l: nat)
    requires d.Valid() && l < d.Lvls()
    ensures d.Span() > 0
    ensures va % d.Span() == d.Block(va, l) * d.LvlSize(l) + va % d.LvlSize(l)
    ensures (va % d.Span()) / d.LvlSize(l) == d.Block(va, l)
  {
    hide Pow2;
    BlockCount(d, l);
    BlockReduce(va, d.LvlSize(l), d.Blocks(l));
  }

  /** The addresses of one aligned block share it. */
  lemma InBlock(d: Descriptor, addr: nat, w: nat, l: nat)
    requires d.Valid() && l < d.Lvls()
    requires addr % d.LvlSize(l) == 0 && addr <= w < addr + d.LvlSize(l)
    ensures d.Block(w, l) == d.Block(addr, l) && d.Base(w, l) == addr
  {
    var s := d.LvlSize(l);
    ModRange(addr, s);
    DivUnique(w, s, addr / s, w - addr);
  }

  /** A block of one level lies inside the block of the level above. */
  lemma BaseNested(d: Descriptor, w: nat, l: nat)
    requires d.Valid() && l + 1 < d.Lvls()
    ensures d.Base(w, l) <= d.Base(w, l + 1)
    ensures d.Base(w, l + 1) + d.LvlSize(l + 1) <= d.Base(w, l) + d.LvlSize(l)
  {
    OffsetSplit(d, w, l);
    Sizes(d, l + 1);
    IndexFits(d.Index(w, l + 1), d.NEntries(l + 1), d.LvlSize(l + 1));
  }

  /** An aligned block and an address that aliases into it, at a distance. */
  lemma FarAlias(d: Descriptor, addr: nat, w: nat, l: nat)
    requires d.Valid() && l < d.Lvls()
    requires addr % d.LvlSize(l) == 0 && addr + d.LvlSize(l) <= w
    requires d.Block(w, l) == d.Block(addr, l)
    ensures w >= addr + d.Span()
  {
    BlockCount(d, l);
    FarMultiple(addr, w, d.LvlSize(l), d.Blocks(l));
  }

  /** The page of a block that an aliasing address stands for. */
  lemma AliasInBlock(d: Descriptor, addr: nat, w: nat, l: nat)
    requires d.Valid() && l < d.Lvls()
    requires addr % d.LvlSize(l) == 0 && d.Block(w, l) == d.Block(addr, l)
    ensures var x := addr + w % d.LvlSize(l);
            addr <= x < addr + d.LvlSize(l) && d.Span() > 0 && x % d.Span() == w % d.Span()
  {
    var s := d.LvlSize(l);
    ModRange(w, s);
    var x := addr + w % s;
    InBlock(d, addr, x, l);
    ModRange(addr, s);
    DivUnique(x, s, addr / s, w % s);
    BlockOfAlias(d, x, l);
    BlockOfAlias(d, w, l);
  }

  /** Stepping over an entry that is not the last one of its table. */
  lemma NextEntry(d: Descriptor, addr: nat, l: nat)
    requires d.Valid() && l < d.Lvls()
    requires addr % d.LvlSize(l) == 0 && d.Index(addr, l) + 1 < d.NEntries(l)
    ensures d.Index(addr + d.LvlSize(l), l) == d.Index(addr, l) + 1
    ensures d.Serves(addr + d.LvlSize(l), l) == d.Serves(addr, l)
  {
    hide Pow2;
    Sizes(d, l);
    NextInGroup(addr, d.LvlSize(l), d.NEntries(l));
  }

  /** Block sizes are whole pages. */
  lemma SizeInPages(d: Descriptor, l: nat)
    requires d.Valid() && l < d.Lvls()
    ensures d.LvlSize(l) % PAGE_SIZE == 0 && d.LvlSize(l) >= PAGE_SIZE
    decreases d.Lvls() - l
  {
    hide Pow2;
    Pow2Page();
    if l + 1 < d.Lvls() {
      SizeInPages(d, l + 1);
      Sizes(d, l + 1);
      var s, n := d.LvlSize(l + 1), d.NEntries(l + 1);
      MultipleSum(0, n, s, PAGE_SIZE);
      MulMono(1, n, s);
    }
  }

  // ---- splitting an entry into a next-level table

  function Split(mem: Memory, t: nat, i: nat, page: seq<Pte>): (r: Memory)
    requires t < |mem| && i < |mem[t]|
  {
    mem[t := mem[t][i := Table(|mem|)]] + [page]
  }

  ghost function SplitLabels(d: Descriptor, lab: seq<Label>, t: nat, i: nat): seq<Label>
    requires d.Valid() && t < |lab| && lab[t].lvl < d.Lvls()
  {
    lab + [Label(lab[t].lvl + 1, lab[t].block * d.NEntries(lab[t].lvl) + i)]
  }

  /** A page of entries that can stand as a table at the given level. */
  ghost predicate PageOk(d: Descriptor, l: nat, page: seq<Pte>)
    requires d.Valid()
  {
    && l < d.Lvls()
    && |page| == d.NEntries(l)
    && (forall j | 0 <= j < |page| ::
          match page[j]
          case Invalid(_) => true
          case Table(_) => false
          case Leaf(pa, _) => d.term[l] && pa % PAGE_SIZE == 0 && pa + d.LvlSize(l) <= OUTPUT_LIMIT)
  }

  lemma SplitWellFormed(d: Descriptor, mem: Memory, lab: seq<Label>, t: nat, i: nat, page: seq<Pte>)
    requires WellFormed(d, mem, lab) && t < |mem| && i < |mem[t]|
    requires PageOk(d, lab[t].lvl + 1, page)
    ensures Patched(d, mem, lab, Split(mem, t, i, page), SplitLabels(d, lab, t, i), t, i)
  {
    var mem', lab' := Split(mem, t, i, page), SplitLabels(d, lab, t, i);
    forall u, j | 0 <= u < |mem'| && 0 <= j < |mem'[u]|
      ensures EntryOk(d, lab', u, j, mem'[u][j])
    {
      if u < |mem| {
        assert EntryOk(d, lab, u, j, mem[u][j]);
      }
    }
  }

  /** After a split, addresses of the block find their entry in the new page. */
  lemma SplitLookup(d: Descriptor, mem: Memory, lab: seq<Label>, va: nat, l: nat, page: seq<Pte>, w: nat)
    requires WellFormed(d, mem, lab) && Reaches(d, mem, lab, va, l) && PageOk(d, l + 1, page)
    ensures var t, i := TableAt(d, mem, lab, va, l), d.Index(va, l);
            var mem', lab' := Split(mem, t, i, page), SplitLabels(d, lab, t, i);
            && Patched(d, mem, lab, mem', lab', t, i)
            && Lookup(d, mem', lab', w) ==
                 if d.Block(w, l) == d.Block(va, l) then (l + 1, page[d.Index(w, l + 1)]) else Lookup(d, mem, lab, w)
  {
    hide Pow2, Descriptor.NEntries, Descriptor.Index, Descriptor.Block, Descriptor.Serves, EntryOk, Reaches, TableAt;
    var t, i := TableAt(d, mem, lab, va, l), d.Index(va, l);
    var mem', lab' := Split(mem, t, i, page), SplitLabels(d, lab, t, i);
    SplitWellFormed(d, mem, lab, t, i, page);
    BlockSplit(d, va, l);
    if d.Block(w, l) == d.Block(va, l) {
      LookupInside(d, mem, lab, mem', lab', va, l, w);
      assert mem'[t][i] == Table(|mem|);
      assert lab'[|mem|].lvl == l + 1;
    } else {
      LookupElsewhere(d, mem, lab, mem', lab', t, i, w);
    }
  }

  /** Output address of the j-th part, of size s, of a block that starts at pa. */
  function SubBlock(pa: nat, j: nat, s: nat): nat {
    MulMono(0, j, s);
    pa + j * s
  }

  /** The page says what the entry it replaces said. */
  ghost predicate Refines(d: Descriptor, l: nat, e: Pte, page: seq<Pte>)
    requires d.Valid() && l + 1 < d.Lvls()
  {
    && PageOk(d, l + 1, page)
    && (forall j | 0 <= j < |page| ::
          match e
          case Invalid(rsv) => page[j] == Invalid(rsv)
          case Table(_) => false
          case Leaf(pa, _) => page[j].Leaf? && page[j].pa == SubBlock(pa, j, d.LvlSize(l + 1)))
  }

  /** Splitting with a page that refines the entry leaves every address's view as it was. */
  lemma SplitKeepsView(d: Descriptor, mem: Memory, lab: seq<Label>, va: nat, l: nat, page: seq<Pte>, w: nat)
    requires WellFormed(d, mem, lab) && l + 1 < d.Lvls()
    requires Lookup(d, mem, lab, va).0 == l && Refines(d, l, Lookup(d, mem, lab, va).1, page)
    ensures var t, i := TableAt(d, mem, lab, va, l), d.Index(va, l);
            var mem', lab' := Split(mem, t, i, page), SplitLabels(d, lab, t, i);
            && WellFormed(d, mem', lab')
            && ViewOf(d, mem', lab', w) == ViewOf(d, mem, lab, w)
  {
    SplitLookup(d, mem, lab, va, l, page, w);
    if d.Block(w, l) == d.Block(va, l) {
      LookupShared(d, mem, lab, va, w);
      RefinedEntry(d, l, Lookup(d, mem, lab, va).1, page, w);
    }
  }

  lemma RefinedEntry(d: Descriptor, l: nat, e: Pte, page: seq<Pte>, w: nat)
    requires d.Valid() && l + 1 < d.Lvls() && !e.Table? && Refines(d, l, e, page)
    ensures var j := d.Index(w, l + 1);
            !page[j].Table? && EntryView(d, l + 1, page[j], w) == EntryView(d, l, e, w)
  {
    OffsetSplit(d, w, l);
  }

  // ---- ranges whose blocks do not cross their ends

  /** Every address of the range is translated by a block that lies inside the range. */
  ghost predicate Within(d: Descriptor, mem: Memory, lab: seq<Label>, lo: nat, hi: nat)
    requires WellFormed(d, mem, lab)
  {
    forall w: nat | lo <= w < hi ::
      var l := Lookup(d, mem, lab, w).0;
      lo <= d.Base(w, l) && d.Base(w, l) + d.LvlSize(l) <= hi
  }

  /** Splitting an entry keeps a range that its blocks do not cross. */
  lemma SplitKeepsWithin(d: Descriptor, mem: Memory, lab: seq<Label>, va: nat, l: nat, page: seq<Pte>, lo: nat, hi: nat)
    requires WellFormed(d, mem, lab) && PageOk(d, l + 1, page) && Lookup(d, mem, lab, va).0 == l
    requires Within(d, mem, lab, lo, hi)
    ensures var t, i := TableAt(d, mem, lab, va, l), d.Index(va, l);
            var mem', lab' := Split(mem, t, i, page), SplitLabels(d, lab, t, i);
            WellFormed(d, mem', lab') && Within(d, mem', lab', lo, hi)
  {
    var t, i := TableAt(d, mem, lab, va, l), d.Index(va, l);
    var mem', lab' := Split(mem, t, i, page), SplitLabels(d, lab, t, i);
    SplitWellFormed(d, mem, lab, t, i, page);
    forall w: nat | lo <= w < hi
      ensures var k := Lookup(d, mem', lab', w).0;
              lo <= d.Base(w, k) && d.Base(w, k) + d.LvlSize(k) <= hi
    {
      SplitLookup(d, mem, lab, va, l, page, w);
      if d.Block(w, l) == d.Block(va, l) {
        LookupShared(d, mem, lab, va, w);
        BaseNested(d, w, l);
      }
    }
  }

  /** A terminal block that starts where the range ends extends it. */
  lemma ExtendWithin(d: Descriptor, mem: Memory, lab: seq<Label>, lo: nat, addr: nat)
    requires WellFormed(d, mem, lab) && Within(d, mem, lab, lo, addr) && lo <= addr
    requires addr % d.LvlSize(Lookup(d, mem, lab, addr).0) == 0
    ensures var l := Lookup(d, mem, lab, addr).0;
            && Within(d, mem, lab, lo, addr + d.LvlSize(l))
            && (forall w: nat | addr <= w < addr + d.LvlSize(l) ::
                  Lookup(d, mem, lab, w) == Lookup(d, mem, lab, addr))
  {
    var l := Lookup(d, mem, lab, addr).0;
    forall w: nat | addr <= w < addr + d.LvlSize(l)
      ensures d.Base(w, l) == addr && Lookup(d, mem, lab, w) == Lookup(d, mem, lab, addr)
    {
      InBlock(d, addr, w, l);
      LookupShared(d, mem, lab, addr, w);
    }
  }

  // ---- rewriting a terminal entry

  function Store(mem: Memory, t: nat, i: nat, e: Pte): Memory
    requires t < |mem| && i < |mem[t]|
  {
    mem[t := mem[t][i := e]]
  }

  /** Rewriting the terminal entry of va changes exactly the addresses of its block. */
  lemma StoreLookup(d: Descriptor, mem: Memory, lab: seq<Label>, va: nat, l: nat, e: Pte, w: nat)
    requires WellFormed(d, mem, lab) && Lookup(d, mem, lab, va).0 == l && !e.Table?
    requires EntryOk(d, lab, TableAt(d, mem, lab, va, l), d.Index(va, l), e)
    ensures var mem' := Store(mem, TableAt(d, mem, lab, va, l), d.Index(va, l), e);
            && WellFormed(d, mem', lab)
            && Lookup(d, mem', lab, w) ==
                 if d.Block(w, l) == d.Block(va, l) then (l, e) else Lookup(d, mem, lab, w)
  {
    var t, i := TableAt(d, mem, lab, va, l), d.Index(va, l);
    var mem' := Store(mem, t, i, e);
    forall u, j | 0 <= u < |mem'| && 0 <= j < |mem'[u]|
      ensures EntryOk(d, lab, u, j, mem'[u][j])
    {
      assert EntryOk(d, lab, u, j, mem[u][j]);
    }
    assert Patched(d, mem, lab, mem', lab, t, i);
    BlockSplit(d, va, l);
    if d.Block(w, l) == d.Block(va, l) {
      LookupInside(d, mem, lab, mem', lab, va, l, w);
    } else {
      LookupElsewhere(d, mem, lab, mem', lab, t, i, w);
    }
  }
}
