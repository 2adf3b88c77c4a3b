/**
 A run of requests after which the page pool refuses an aligned one although an aligned run is free.
 */
module PoolMiss {
  import opened Basics
  import opened Arith
  import opened Granule
  import opened Bitmap
  import opened PoolSearch
  import opened PagePool

  /** Exactly the pages of [lo, hi) are free. */
  ghost predicate FreeOnly(m: seq<Word>, size: nat, lo: nat, hi: nat)
    requires size <= |m| * LEN
  {
    forall p: nat | p < size :: Get(m, p) <==> !(lo <= p < hi)
  }

  /** The pages of [lo, hi) have been handed out one by one. */
  ghost predicate Singles(live: set<Range>, lo: nat, hi: nat) {
    forall k: nat | lo <= k < hi :: Range(k, 1) in live
  }

  /** A request for a single page takes the first free one from the hint on. */
  lemma SingleChoice(m: seq<Word>, size: nat, base: nat, i: nat, hi: nat)
    requires Searchable(m, size) && i < hi <= size && FreeOnly(m, size, i, hi)
    ensures Choice(m, size, base, i, 1, false) == Some(i)
  {
    hide Pick, Get;
    assert FirstStop(base, i, 1, false) == i;
    PickFirst(m, size, 1, i);
    assert Fits(m, size, i, 1, false);
  }

  /** One page more is taken, or given back. */
  lemma OneMore(m: seq<Word>, m': seq<Word>, size: nat, live: set<Range>, i: nat, hi: nat)
    requires size <= |m| * LEN && size <= |m'| * LEN && i < hi <= size
    requires Marks(m, size, live) && Marks(m', size, live + {Range(i, 1)}) && FreeOnly(m, size, i, hi)
    ensures FreeOnly(m', size, i + 1, hi)
  {
    hide Get;
    forall p: nat | p < size
      ensures Covered(live + {Range(i, 1)}, p) <==> Covered(live, p) || p == i
    {
      if Covered(live, p) {
        var r :| r in live && r.Has(p);
        assert r in live + {Range(i, 1)};
      }
      assert Range(i, 1) in live + {Range(i, 1)};
    }
  }

  lemma OneLess(m: seq<Word>, m': seq<Word>, size: nat, live: set<Range>, lo: nat, k: nat)
    requires size <= |m| * LEN && size <= |m'| * LEN && lo <= k < size && Range(k, 1) in live && Apart(live, size)
    requires Marks(m, size, live) && Marks(m', size, live - {Range(k, 1)}) && FreeOnly(m, size, lo, k)
    ensures FreeOnly(m', size, lo, k + 1)
  {
    hide Get;
    var left := live - {Range(k, 1)};
    forall p: nat | p < size
      ensures Covered(left, p) <==> Covered(live, p) && p != k
    {
      if Covered(live, p) && p != k {
        var r :| r in live && r.Has(p);
        assert r in left;
      }
      forall r | r in left ensures !r.Has(k) { assert Disjoint(r, Range(k, 1)); }
    }
  }

  /** Hands out every page that the pool does not keep for itself. */
  method TakeAll(pool: Pool, own: nat)
    requires pool.Valid() && own < pool.nrPages && pool.last == 0
    requires FreeOnly(pool.bitmap[..], pool.nrPages, 0, pool.nrPages - own)
    modifies pool, pool.bitmap
    ensures pool.Valid() && pool.last == pool.nrPages - own && Singles(pool.live, 0, pool.nrPages - own)
    ensures forall p: nat | p < pool.nrPages :: Get(pool.bitmap[..], p)
  {
    hide Choice, Get, Apart, Unset, Exhaustive;
    var hi := pool.nrPages - own;
    var i := 0;
    while i < hi
      invariant 0 <= i <= hi && pool.Valid() && pool.last == i && Singles(pool.live, 0, i)
      invariant FreeOnly(pool.bitmap[..], pool.nrPages, i, hi)
    {
      ghost var m, live := pool.bitmap[..], pool.live;
      SingleChoice(m, pool.nrPages, pool.base / PAGE_SIZE, i, hi);
      assert Fits(m, pool.nrPages, i, 1, false);
      var ok, at, pages := pool.Alloc(1, false);
      OneMore(m, pool.bitmap[..], pool.nrPages, live, i, hi);
      i := i + 1;
    }
  }

  /** Takes back the pages of [lo, hi), handed out one by one. */
  method GiveBack(pool: Pool, lo: nat, hi: nat)
    requires pool.Valid() && 1 <= lo <= hi <= pool.nrPages && Singles(pool.live, lo, hi)
    requires forall p: nat | p < pool.nrPages :: Get(pool.bitmap[..], p)
    modifies pool, pool.bitmap
    ensures pool.Valid() && pool.last == old(pool.last) && FreeOnly(pool.bitmap[..], pool.nrPages, lo, hi)
  {
    hide Get, Apart, Unset, Marks, FreeOnly;
    NoneFree(pool.bitmap[..], pool.nrPages, lo);
    var k := lo;
    while k < hi
      invariant lo <= k <= hi && pool.Valid() && pool.last == old(pool.last) && Singles(pool.live, k, hi)
      invariant FreeOnly(pool.bitmap[..], pool.nrPages, lo, k)
    {
      ghost var m, live := pool.bitmap[..], pool.live;
      PageAddress(pool.base, k, 1);
      var ok := pool.Free(pool.base + k * PAGE_SIZE, 1);
      OneLess(m, pool.bitmap[..], pool.nrPages, live, lo, k);
      k := k + 1;
    }
  }

  lemma NoneFree(m: seq<Word>, size: nat, lo: nat)
    requires size <= |m| * LEN && forall p: nat | p < size :: Get(m, p)
    ensures FreeOnly(m, size, lo, lo)
  {
  }

  lemma FreshPool(m: seq<Word>, size: nat, own: nat)
    requires own <= size <= |m| * LEN && Marks(m, size, {Range(size - own, own)})
    ensures FreeOnly(m, size, 0, size - own)
  {
    hide Get;
    var live := {Range(size - own, own)};
    forall p: nat | p < size
      ensures Covered(live, p) <==> p >= size - own
    {
      assert Range(size - own, own) in live;
    }
  }

  /**
   All pages are handed out one by one and some of them taken back. In every pool for which an aligned
   search is not exhaustive, counting the pages that the pool keeps for itself as taken, the aligned
   request then fails although an aligned run is free.
   */
  method MissedRun(page: nat, size: nat, own: nat, nr: nat) returns (ok: bool, pool: Pool)
    requires size % LEN == 0 && size < 0x8000_0000 && 1 <= own < size && 1 <= nr
    requires !Exhaustive(page, size - own, nr)
    ensures fresh(pool) && pool.Valid() && pool.base == page * PAGE_SIZE && pool.nrPages == size
    ensures !ok && AlignedFit(pool.bitmap[..], size, page % nr, nr, FirstAligned(page, nr) + nr)
  {
    hide Get, Apart, Unset, Marks, FreeOnly, Fits, Choice, FirstAligned;
    DivMulCancel(page, PAGE_SIZE);
    pool := new Pool(page * PAGE_SIZE, size, own);
    FreshPool(pool.bitmap[..], size, own);
    TakeAll(pool, own);
    var a := FirstAligned(page, nr);
    GiveBack(pool, a + nr - 1, a + 2 * nr);
    GapIs(pool.bitmap[..], size, a, nr);
    ChoiceMisses(pool.bitmap[..], size, page, pool.last, nr);
    var at, pages;
    ok, at, pages := pool.Alloc(nr, true);
  }

  lemma GapIs(m: seq<Word>, size: nat, a: nat, nr: nat)
    requires size <= |m| * LEN && 1 <= nr && FreeOnly(m, size, a + nr - 1, a + 2 * nr)
    ensures Gap(m, size, a, nr)
  {
  }
}
