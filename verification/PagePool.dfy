/**
 The pool of physical pages: a bitmap with one bit per page, a count of free pages and a hint
 where to search. The ghost field live holds the ranges that are handed out.
 */
module PagePool {
  import opened Basics
  import opened Arith
  import opened Granule
  import opened Bitmap
  import opened PoolSearch

  datatype Range = Range(first: nat, len: nat) {
    ghost predicate Has(p: nat) {
      first <= p < first + len
    }
  }

  ghost predicate Disjoint(r: Range, s: Range) {
    r.first + r.len <= s.first || s.first + s.len <= r.first
  }

  /** Ranges inside the pool, no two of which share a page. */
  ghost predicate Apart(live: set<Range>, size: nat) {
    && (forall r | r in live :: 1 <= r.len && r.first + r.len <= size)
    && (forall r, s | r in live && s in live && r != s :: Disjoint(r, s))
  }

  ghost predicate Covered(live: set<Range>, p: nat) {
    exists r | r in live :: r.Has(p)
  }

  /** A page's bit is set exactly when a live range holds the page. */
  ghost predicate Marks(m: seq<Word>, size: nat, live: set<Range>)
    requires size <= |m| * LEN
  {
    forall p: nat | p < size :: Get(m, p) <==> Covered(live, p)
  }

  /** The number of clear bits below size. */
  ghost function Unset(m: seq<Word>, size: nat): (c: nat)
    requires size <= |m| * LEN
    ensures c <= size
  {
    if size == 0 then 0 else Unset(m, size - 1) + if Get(m, size - 1) then 0 else 1
  }

  /** How much of [lo, hi) lies below k. */
  ghost function Below(lo: nat, hi: nat, k: nat): (c: nat)
    requires lo <= hi
  {
    if k <= lo then 0 else if k <= hi then k - lo else hi - lo
  }

  /** Setting clear bits, or clearing set ones, moves the count by their number. */
  lemma {:induction false} UnsetPainted(m: seq<Word>, m': seq<Word>, lo: nat, hi: nat, val: bool, k: nat)
    requires k <= |m| * LEN && lo <= hi <= |m| * LEN
    requires Painted(m, m', lo, hi, val) && Run(m, lo, hi, !val)
    ensures Unset(m', k) == if val then Unset(m, k) - Below(lo, hi, k) else Unset(m, k) + Below(lo, hi, k)
    decreases k
  {
    hide Get;
    if k > 0 {
      UnsetPainted(m, m', lo, hi, val, k - 1);
      assert Get(m', k - 1) == if lo <= k - 1 < hi then val else Get(m, k - 1);
      if lo <= k - 1 < hi { assert Get(m, k - 1) == !val; }
    }
  }

  /** A free run is apart from everything live, and becomes live. */
  lemma Take(m: seq<Word>, m': seq<Word>, size: nat, live: set<Range>, r: Range)
    requires size <= |m| * LEN && Apart(live, size) && Marks(m, size, live)
    requires 1 <= r.len && Fits(m, size, r.first, r.len, false)
    requires Painted(m, m', r.first, r.first + r.len, true)
    ensures r !in live && Apart(live + {r}, size) && Marks(m', size, live + {r})
    ensures Unset(m', size) == Unset(m, size) - r.len
  {
    hide Get;
    forall s | s in live
      ensures Disjoint(r, s)
    {
      var p := if r.first <= s.first then s.first else r.first;
      if r.Has(p) {
        assert !Get(m, p);
        assert !Covered(live, p);
      }
    }
    forall p: nat | p < size
      ensures Get(m', p) <==> Covered(live + {r}, p)
    {
      assert Get(m', p) == if r.first <= p < r.first + r.len then true else Get(m, p);
      if r.Has(p) {
        assert r in live + {r};
      } else if Covered(live, p) {
        var s :| s in live && s.Has(p);
        assert s in live + {r};
      }
    }
    UnsetPainted(m, m', r.first, r.first + r.len, true, size);
  }

  /** Giving back a live range frees exactly its pages. */
  lemma Give(m: seq<Word>, m': seq<Word>, size: nat, live: set<Range>, r: Range)
    requires size <= |m| * LEN && Apart(live, size) && Marks(m, size, live) && r in live
    requires Painted(m, m', r.first, r.first + r.len, false)
    ensures Apart(live - {r}, size) && Marks(m', size, live - {r})
    ensures Unset(m', size) == Unset(m, size) + r.len
    ensures Fits(m', size, r.first, r.len, false)
  {
    hide Get;
    forall p: nat | r.first <= p < r.first + r.len
      ensures Get(m, p)
    {
      assert r.Has(p);
      assert Covered(live, p);
    }
    forall p: nat | p < size
      ensures Get(m', p) <==> Covered(live - {r}, p)
    {
      assert Get(m', p) == if r.first <= p < r.first + r.len then false else Get(m, p);
      if r.Has(p) {
        forall s | s in live - {r} ensures !s.Has(p) { assert Disjoint(r, s); }
      } else if Covered(live, p) {
        var s :| s in live && s.Has(p);
        assert s in live - {r};
      }
    }
    UnsetPainted(m, m', r.first, r.first + r.len, false, size);
  }

  class Pool {
    const base: nat
    const nrPages: nat
    const bitmap: array<Word>
    var free: nat
    var last: nat
    ghost var live: set<Range>

    ghost predicate Valid()
      reads this, bitmap
    {
      && base % PAGE_SIZE == 0
      && nrPages % LEN == 0 && nrPages < 0x8000_0000
      && nrPages / LEN < bitmap.Length
      && Apart(live, nrPages)
      && Marks(bitmap[..], nrPages, live)
      && free == Unset(bitmap[..], nrPages)
    }

    /** The pool of size pages from start on; the last own pages hold the bitmap itself. */
    constructor (start: nat, size: nat, own: nat)
      requires start % PAGE_SIZE == 0 && size % LEN == 0 && size < 0x8000_0000
      requires 1 <= own < size
      ensures Valid() && fresh(bitmap)
      ensures base == start && nrPages == size && live == {Range(size - own, own)} && free == size - own
      ensures last == 0
    {
      base, nrPages, last, live := start, size, 0, {};
      bitmap := new Word[size / LEN + 1](_ => 0);
      free := size;
      new;
      AllClear(bitmap[..], size);
      ghost var m := bitmap[..];
      SetConsecutive(bitmap, size - own, own);
      Take(m, bitmap[..], size, {}, Range(size - own, own));
      free := free - own;
      live := {Range(size - own, own)};
      assert {} + {Range(size - own, own)} == live;
    }

    /** One search from curr0 on for a run that suits; a failed one says where to search next. */
    method Pass(nr: nat, aligned: bool, start: nat, curr0: nat) returns (found: Option<nat>, curr: nat)
      requires Valid() && 1 <= nr && start == Start(base / PAGE_SIZE, nr, aligned)
      ensures found == if free == 0 then None else Pick(bitmap[..], nrPages, start, nr, aligned, curr0)
      ensures found.None? && free > 0 ==> curr == Restart(base / PAGE_SIZE, nr, aligned)
    {
      hide Search, Pick, Apart, Marks, Unset, Restart, Start;
      ghost var m := bitmap[..];
      curr := curr0;
      while free != 0
        invariant Pick(m, nrPages, start, nr, aligned, curr) == Pick(m, nrPages, start, nr, aligned, curr0)
        decreases nrPages - curr
      {
        var bit := FindConsec(bitmap, nrPages, curr, nr, false);
        PickStep(m, nrPages, start, nr, aligned, curr);
        if bit.None? {
          curr := Restart(base / PAGE_SIZE, nr, aligned);
          return None, curr;
        } else if aligned && (bit.value + start) % nr != 0 {
          curr := bit.value + (bit.value + start) % nr;
        } else {
          return bit, curr;
        }
      }
      return None, curr;
    }

    /** The new state after r has been handed out. */
    ghost predicate Taken(live0: set<Range>, free0: nat, r: Range)
      reads this
    {
      r !in live0 && live == live0 + {r} && free == free0 - r.len && last == r.first + r.len && last <= nrPages
    }

    method Claim(bit: nat, nr: nat)
      requires Valid() && 1 <= nr && Fits(bitmap[..], nrPages, bit, nr, false)
      modifies this, bitmap
      ensures Valid() && Taken(old(live), old(free), Range(bit, nr))
    {
      hide Apart, Marks, Unset, Painted;
      ghost var m := bitmap[..];
      SetConsecutive(bitmap, bit, nr);
      Take(m, bitmap[..], nrPages, live, Range(bit, nr));
      free := free - nr;
      last := bit + nr;
      live := live + {Range(bit, nr)};
    }

    /** Hands out nr pages in a row, aligned to their number if so requested. */
    method Alloc(nr: nat, aligned: bool) returns (ok: bool, pagesBase: nat, pages: nat)
      requires Valid()
      modifies this, bitmap
      ensures Valid() && Searchable(old(bitmap[..]), nrPages)
      ensures nr == 0 ==> ok && pages == 0
      ensures nr == 0 || !ok ==>
        live == old(live) && free == old(free) && last == old(last) && bitmap[..] == old(bitmap[..]) && pages == 0
      ensures nr > 0 && ok ==>
        && pages == nr && base <= pagesBase && pagesBase % PAGE_SIZE == 0
        && Taken(old(live), old(free), Range((pagesBase - base) / PAGE_SIZE, nr))
        && (aligned ==> pagesBase / PAGE_SIZE % nr == 0)
        && Choice(old(bitmap[..]), nrPages, base / PAGE_SIZE, old(last), nr, aligned) ==
          Some((pagesBase - base) / PAGE_SIZE)
      ensures !ok && !aligned ==> forall j: nat :: !Fits(old(bitmap[..]), nrPages, j, nr, false)
      ensures !ok && aligned ==>
        forall top: nat, j: nat | TakenFrom(old(bitmap[..]), nrPages, top) && Exhaustive(base / PAGE_SIZE, top, nr) ::
          !AlignedFit(old(bitmap[..]), nrPages, base / PAGE_SIZE % nr, nr, j)
    {
      hide Apart, Marks, Unset, Fits, Pick, AlignedFit;
      pagesBase, pages := base, 0;
      if nr == 0 {
        return true, pagesBase, pages;
      }
      var found := Find(nr, aligned);
      ok := found.Some?;
      if !ok {
        Exhausted(nr, aligned);
        return;
      }
      PageAddress(base, found.value, nr);
      pagesBase := base + found.value * PAGE_SIZE;
      pages := nr;
      Claim(found.value, nr);
    }

    /** The two searches. */
    method Find(nr: nat, aligned: bool) returns (found: Option<nat>)
      requires Valid() && 1 <= nr
      ensures found == if free == 0 then None else Choice(bitmap[..], nrPages, base / PAGE_SIZE, last, nr, aligned)
      ensures found.Some? ==> Fits(bitmap[..], nrPages, found.value, nr, false)
      ensures found.Some? && aligned ==> (found.value + base / PAGE_SIZE % nr) % nr == 0
    {
      hide Apart, Marks, Unset, Fits, Pick, Restart, FirstStop;
      var page := base / PAGE_SIZE;
      var start := Start(page, nr, aligned);
      var curr := FirstStop(page, last, nr, aligned);
      found := None;
      var i := 0;
      while i < 2 && found.None?
        invariant 0 <= i <= 2
        invariant free == 0 ==> found.None?
        invariant i == 0 ==> found.None? && curr == FirstStop(page, last, nr, aligned)
        invariant i == 1 && free > 0 ==>
          found == Pick(bitmap[..], nrPages, start, nr, aligned, FirstStop(page, last, nr, aligned))
        invariant i == 1 && free > 0 && found.None? ==> curr == Restart(page, nr, aligned)
        invariant i == 2 && free > 0 ==> found == Choice(bitmap[..], nrPages, page, last, nr, aligned)
      {
        found, curr := Pass(nr, aligned, start, curr);
        i := i + 1;
      }
    }

    /** What a request that finds nothing says about the pages. */
    lemma Exhausted(nr: nat, aligned: bool)
      requires Valid() && 1 <= nr
      requires free == 0 || Choice(bitmap[..], nrPages, base / PAGE_SIZE, last, nr, aligned).None?
      ensures !aligned ==> forall j: nat :: !Fits(bitmap[..], nrPages, j, nr, false)
      ensures aligned ==>
        forall top: nat, j: nat | TakenFrom(bitmap[..], nrPages, top) && Exhaustive(base / PAGE_SIZE, top, nr) ::
          !AlignedFit(bitmap[..], nrPages, base / PAGE_SIZE % nr, nr, j)
    {
      hide Apart, Marks, Unset, Fits, Choice;
      if free == 0 {
        NothingFree(bitmap[..], nrPages, nr);
      } else if !aligned {
        ChoiceUnaligned(bitmap[..], nrPages, base / PAGE_SIZE, last, nr);
      } else {
        forall top: nat, j: nat | TakenFrom(bitmap[..], nrPages, top) && Exhaustive(base / PAGE_SIZE, top, nr)
          ensures !AlignedFit(bitmap[..], nrPages, base / PAGE_SIZE % nr, nr, j)
        {
          ChoiceExhaustive(bitmap[..], nrPages, top, base / PAGE_SIZE, last, nr, j);
        }
      }
    }

    /** Takes back a range that was handed out; a request that is out of bounds changes nothing. */
    method Free(page: nat, nr: nat) returns (ok: bool)
      requires Valid()
      requires page != 0 && nr != 0 && base <= page && (page - base) / PAGE_SIZE < nrPages ==>
                 Range((page - base) / PAGE_SIZE, nr) in live
      modifies this, bitmap
      ensures Valid()
      ensures ok <==> page != 0 && nr != 0 && base <= page && (page - base) / PAGE_SIZE < nrPages
      ensures last == old(last)
      ensures !ok ==> live == old(live) && free == old(free) && bitmap[..] == old(bitmap[..])
      ensures ok ==>
        && live == old(live) - {Range((page - base) / PAGE_SIZE, nr)} && free == old(free) + nr
        && Fits(bitmap[..], nrPages, (page - base) / PAGE_SIZE, nr, false)
    {
      hide Marks, Unset, Painted, Fits;
      if page == 0 || nr == 0 {
        return false;
      }
      if page < base || (page - base) / PAGE_SIZE >= nrPages {
        return false;
      }
      var bit := (page - base) / PAGE_SIZE;
      ghost var m := bitmap[..];
      assert Range(bit, nr).first + Range(bit, nr).len <= nrPages;
      ClearConsecutive(bitmap, bit, nr);
      Give(m, bitmap[..], nrPages, live, Range(bit, nr));
      free := free + nr;
      live := live - {Range(bit, nr)};
      return true;
    }
  }

  /** The pages that a pool keeps for itself are taken for as long as nobody gives them back. */
  lemma KeptTaken(m: seq<Word>, size: nat, live: set<Range>, own: nat)
    requires own <= size <= |m| * LEN && Marks(m, size, live) && Range(size - own, own) in live
    ensures TakenFrom(m, size, size - own)
  {
    hide Get;
    forall p: nat | size - own <= p < size
      ensures Get(m, p)
    {
      assert Range(size - own, own).Has(p);
    }
  }

  /** The address of a page, and its alignment from that of its index. */
  lemma PageAddress(base: nat, bit: nat, nr: nat)
    requires base % PAGE_SIZE == 0 && 1 <= nr
    ensures var a := base + bit * PAGE_SIZE;
            && a % PAGE_SIZE == 0 && (a - base) / PAGE_SIZE == bit && a / PAGE_SIZE == base / PAGE_SIZE + bit
            && a / PAGE_SIZE % nr == (bit + base / PAGE_SIZE % nr) % nr
  {
    var x := base / PAGE_SIZE;
    ModRange(x, nr);
    ModRange(bit + x % nr, nr);
    var y := bit + x % nr;
    assert x + bit == (x / nr + y / nr) * nr + y % nr by {
      assert (x / nr + y / nr) * nr == (x / nr) * nr + (y / nr) * nr;
    }
    DivUnique(x + bit, nr, x / nr + y / nr, y % nr);
  }

  /** Without a clear bit there is no run of clear bits. */
  lemma NothingFree(m: seq<Word>, size: nat, n: nat)
    requires size <= |m| * LEN && Unset(m, size) == 0 && 1 <= n
    ensures forall j: nat :: !Fits(m, size, j, n, false)
  {
    hide Get;
    forall p: nat | p < size
      ensures Get(m, p)
    {
      UnsetZero(m, size, p);
    }
    forall j: nat
      ensures !Fits(m, size, j, n, false)
    {
      if j < size { assert Get(m, j); }
    }
  }

  lemma {:induction false} UnsetZero(m: seq<Word>, size: nat, p: nat)
    requires p < size <= |m| * LEN && Unset(m, size) == 0
    ensures Get(m, p)
  {
    if p < size - 1 { UnsetZero(m, size - 1, p); }
  }

  lemma {:induction false} AllClear(m: seq<Word>, size: nat)
    requires size <= |m| * LEN && forall w | w in m :: w == 0
    ensures Unset(m, size) == size && Marks(m, size, {})
    decreases size
  {
    hide Bit;
    forall p: nat | p < size
      ensures !Get(m, p)
    {
      assert m[p / LEN] in m;
      ConstantBits(p % LEN);
    }
    UnsetAll(m, size);
  }

  lemma {:induction false} UnsetAll(m: seq<Word>, size: nat)
    requires size <= |m| * LEN && forall p: nat | p < size :: !Get(m, p)
    ensures Unset(m, size) == size
  {
    if size > 0 { UnsetAll(m, size - 1); }
  }
}
