/**
 The page pool's choice of a run of free pages: two passes over the bitmap, the first from the
 hint on, the second from the first aligned page on. A pass that meets a run at a page that is
 not aligned goes on at that page plus its remainder.
 */
module PoolSearch {
  import opened Basics
  import opened Arith
  import opened Granule
  import opened Bitmap

  ghost predicate Searchable(m: seq<Word>, size: nat) {
    Readable(m, size) && size % LEN == 0 && size < SIZE_MAX
  }

  ghost predicate AlignedFit(m: seq<Word>, size: nat, start: nat, nr: nat, j: nat)
    requires size <= |m| * LEN && 1 <= nr
  {
    Fits(m, size, j, nr, false) && (j + start) % nr == 0
  }

  /** One pass from curr on. */
  function Pick(m: seq<Word>, size: nat, start: nat, nr: nat, aligned: bool, curr: nat): (r: Option<nat>)
    requires Searchable(m, size) && 1 <= nr
    ensures r.Some? ==> curr <= r.value && Fits(m, size, r.value, nr, false)
    ensures r.Some? && aligned ==> AlignedFit(m, size, start, nr, r.value)
    decreases if curr < size then size - curr else 0
  {
    SearchCorrect(m, size, curr, nr, false);
    match Search(m, size, curr, nr, false)
    case None => None
    case Some(bit) =>
      ModRange(bit + start, nr);
      if aligned && (bit + start) % nr != 0
      then Pick(m, size, start, nr, aligned, bit + (bit + start) % nr)
      else Some(bit)
  }

  /** What one search tells about the pass. */
  lemma PickStep(m: seq<Word>, size: nat, start: nat, nr: nat, aligned: bool, curr: nat)
    requires Searchable(m, size) && 1 <= nr
    ensures var r, bit := Pick(m, size, start, nr, aligned, curr), Search(m, size, curr, nr, false);
            match bit
            case None => r == None
            case Some(b) =>
              && curr <= b < size
              && if aligned && (b + start) % nr != 0
                 then 0 < (b + start) % nr && r == Pick(m, size, start, nr, aligned, b + (b + start) % nr)
                 else r == bit
  {
    hide Search;
    SearchCorrect(m, size, curr, nr, false);
    var bit := Search(m, size, curr, nr, false);
    if bit.Some? { ModRange(bit.value + start, nr); }
  }

  /** The first page whose address is aligned, for a pool whose base is page number base. */
  function FirstAligned(base: nat, nr: nat): (a: nat)
    requires 1 <= nr
  {
    ModRange(base, nr);
    ModRange(nr - base % nr, nr);
    (nr - base % nr) % nr
  }

  function Start(base: nat, nr: nat, aligned: bool): (s: nat)
    requires 1 <= nr
  {
    ModRange(base, nr);
    if aligned then base % nr else 0
  }

  function Restart(base: nat, nr: nat, aligned: bool): (c: nat)
    requires 1 <= nr
  {
    if aligned then FirstAligned(base, nr) else 0
  }

  function FirstStop(base: nat, last: nat, nr: nat, aligned: bool): (c: nat)
    requires 1 <= nr
  {
    ModRange(last + Start(base, nr, aligned), nr);
    last + (last + Start(base, nr, aligned)) % nr
  }

  /** The page at which a request is served. */
  function Choice(m: seq<Word>, size: nat, base: nat, last: nat, nr: nat, aligned: bool): (r: Option<nat>)
    requires Searchable(m, size) && 1 <= nr
  {
    var start := Start(base, nr, aligned);
    match Pick(m, size, start, nr, aligned, FirstStop(base, last, nr, aligned))
    case Some(p) => Some(p)
    case None => Pick(m, size, start, nr, aligned, Restart(base, nr, aligned))
  }

  /** Without alignment the first run from curr on is taken, and a miss means there is none. */
  lemma PickFirst(m: seq<Word>, size: nat, nr: nat, curr: nat)
    requires Searchable(m, size) && 1 <= nr
    ensures IsFirstFit(m, size, curr, nr, false, Pick(m, size, 0, nr, false, curr))
  {
    hide Search, IsFirstFit;
    SearchCorrect(m, size, curr, nr, false);
  }

  lemma ChoiceUnaligned(m: seq<Word>, size: nat, base: nat, last: nat, nr: nat)
    requires Searchable(m, size) && 1 <= nr
    ensures Choice(m, size, base, last, nr, false).None? <==> forall j: nat :: !Fits(m, size, j, nr, false)
  {
    hide Search, Pick, Fits;
    PickFirst(m, size, nr, 0);
    PickFirst(m, size, nr, FirstStop(base, last, nr, false));
  }

  /** Without alignment the first run at or behind the hint is taken, and else the first one of all. */
  lemma ChoiceNextFit(m: seq<Word>, size: nat, base: nat, last: nat, nr: nat)
    requires Searchable(m, size) && 1 <= nr
    ensures var r := Choice(m, size, base, last, nr, false);
            if exists j: nat :: last + last % nr <= j && Fits(m, size, j, nr, false)
            then IsFirstFit(m, size, last + last % nr, nr, false, r)
            else IsFirstFit(m, size, 0, nr, false, r)
  {
    hide Search, Pick, Fits;
    PickFirst(m, size, nr, 0);
    PickFirst(m, size, nr, last + last % nr);
  }

  /** With alignment, the first run from the hint on is taken if it is aligned, and so in the second pass. */
  lemma ChoiceFirstAligned(m: seq<Word>, size: nat, base: nat, last: nat, nr: nat, q: nat)
    requires Searchable(m, size) && 1 <= nr && (q + base % nr) % nr == 0
    ensures var c, a := last + (last + base % nr) % nr, (nr - base % nr) % nr;
            && c >= 0 && a >= 0
            && (IsFirstFit(m, size, c, nr, false, Some(q)) ==> Choice(m, size, base, last, nr, true) == Some(q))
            && (IsFirstFit(m, size, c, nr, false, None) && IsFirstFit(m, size, a, nr, false, Some(q)) ==>
                  Choice(m, size, base, last, nr, true) == Some(q))
  {
    hide Search, Pick, IsFirstFit;
    ModRange(base, nr);
    ModRange(last + base % nr, nr);
    ModRange(nr - base % nr, nr);
    PickAligned(m, size, base % nr, nr, last + (last + base % nr) % nr, q);
    PickAligned(m, size, base % nr, nr, (nr - base % nr) % nr, q);
  }

  lemma PickAligned(m: seq<Word>, size: nat, start: nat, nr: nat, curr: nat, q: nat)
    requires Searchable(m, size) && 1 <= nr && (q + start) % nr == 0
    ensures IsFirstFit(m, size, curr, nr, false, Some(q)) ==> Pick(m, size, start, nr, true, curr) == Some(q)
    ensures IsFirstFit(m, size, curr, nr, false, None) ==> Pick(m, size, start, nr, true, curr) == None
  {
    hide Search, Fits;
    SearchCorrect(m, size, curr, nr, false);
    ModRange(q + start, nr);
  }

  // ---- aligned requests

  /** For at most two pages, a pass that finds nothing has missed nothing. */
  lemma {:induction false} PickSmall(m: seq<Word>, size: nat, start: nat, nr: nat, curr: nat)
    requires Searchable(m, size) && 1 <= nr <= 2 && Pick(m, size, start, nr, true, curr).None?
    ensures forall j: nat | curr <= j :: !AlignedFit(m, size, start, nr, j)
    decreases if curr < size then size - curr else 0
  {
    hide Search, Fits;
    SearchCorrect(m, size, curr, nr, false);
    match Search(m, size, curr, nr, false)
    case None =>
    case Some(bit) =>
      assert (bit + start) % nr == 1;
      FitInside(m, size, bit, nr);
      PickSmall(m, size, start, nr, bit + 1);
  }

  lemma FitInside(m: seq<Word>, size: nat, i: nat, n: nat)
    requires size <= |m| * LEN && 1 <= n && Fits(m, size, i, n, false)
    ensures i < size
  {
  }

  /** The first aligned page is aligned, and no page before it is. */
  lemma FirstAlignedLeast(base: nat, nr: nat, j: nat)
    requires 1 <= nr && j < nr
    ensures FirstAligned(base, nr) < nr
    ensures (j + base % nr) % nr == 0 <==> j == FirstAligned(base, nr)
  {
    ModRange(base, nr);
    var s := base % nr;
    if s == 0 {
      DivUnique(nr, nr, 1, 0);
      DivUnique(j, nr, 0, j);
    } else {
      DivUnique(nr - s, nr, 0, nr - s);
      if j + s < nr { DivUnique(j + s, nr, 0, j + s); } else { DivUnique(j + s, nr, 1, j + s - nr); }
    }
  }

  /** A run at the first aligned page is never missed. */
  lemma FirstAlignedFound(m: seq<Word>, size: nat, base: nat, last: nat, nr: nat)
    requires Searchable(m, size) && 1 <= nr && Choice(m, size, base, last, nr, true).None?
    ensures !Fits(m, size, FirstAligned(base, nr), nr, false)
  {
    hide Search, Fits, FirstAligned;
    var a := FirstAligned(base, nr);
    SearchCorrect(m, size, a, nr, false);
    FirstAlignedLeast(base, nr, 0);
    FirstAlignedLeast(base, nr, a);
  }

  /** When a failed aligned request means that there is no aligned run, if all pages from top on are taken. */
  predicate Exhaustive(base: nat, top: nat, nr: nat)
    requires 1 <= nr
  {
    nr <= 2 || top < FirstAligned(base, nr) + 2 * nr
  }

  ghost predicate TakenFrom(m: seq<Word>, size: nat, top: nat)
    requires size <= |m| * LEN
  {
    forall p: nat | top <= p < size :: Get(m, p)
  }

  /** Aligned pages are whole requests away from the first one. */
  lemma AlignedFurther(base: nat, nr: nat, j: nat)
    requires 1 <= nr && (j + base % nr) % nr == 0
    ensures j == FirstAligned(base, nr) || j >= FirstAligned(base, nr) + nr
  {
    hide FirstAligned;
    FirstAlignedLeast(base, nr, 0);
    if j < nr {
      FirstAlignedLeast(base, nr, j);
    } else {
      var x := j - nr;
      ModRange(base, nr);
      ModRange(x + base % nr, nr);
      var y := x + base % nr;
      assert y + nr == (y / nr + 1) * nr + y % nr by { assert (y / nr + 1) * nr == (y / nr) * nr + nr; }
      DivUnique(y + nr, nr, y / nr + 1, y % nr);
      AlignedFurther(base, nr, x);
    }
  }

  /** Where the pages from top on are taken, a run ends before them. */
  lemma EndsBefore(m: seq<Word>, size: nat, top: nat, j: nat, n: nat)
    requires size <= |m| * LEN && TakenFrom(m, size, top) && 1 <= n && Fits(m, size, j, n, false)
    ensures j + n <= top
  {
    hide Get;
    assert !Get(m, j + n - 1);
  }

  lemma ChoiceExhaustive(m: seq<Word>, size: nat, top: nat, base: nat, last: nat, nr: nat, j: nat)
    requires Searchable(m, size) && TakenFrom(m, size, top) && 1 <= nr && Exhaustive(base, top, nr)
    requires Choice(m, size, base, last, nr, true).None?
    ensures !AlignedFit(m, size, base % nr, nr, j)
  {
    hide Search, Pick, FirstAligned, Fits, TakenFrom;
    if AlignedFit(m, size, base % nr, nr, j) {
      EndsBefore(m, size, top, j, nr);
      AlignedFurther(base, nr, j);
      FirstAlignedFound(m, size, base, last, nr);
      if nr <= 2 {
        PickSmall(m, size, base % nr, nr, FirstAligned(base, nr));
      }
    }
  }

  /** Clears bits one by one. */
  lemma {:induction false} Cleared(m: seq<Word>, lo: nat, n: nat) returns (m': seq<Word>)
    requires lo + n <= |m| * LEN
    ensures Painted(m, m', lo, lo + n, false)
    decreases n
  {
    hide Bit, Single, AndNot;
    if n == 0 {
      return m;
    }
    var now := Cleared(m, lo, n - 1);
    var p := lo + n - 1;
    var w := AndNot(now[p / LEN], Single(p % LEN));
    forall k | 0 <= k < LEN
      ensures Bit(w, k) == if p % LEN <= k < p % LEN + 1 then false else Bit(now[p / LEN], k)
    {
      AndNotBit(now[p / LEN], Single(p % LEN), k);
      SingleBit(p % LEN, k);
    }
    PaintWord(m, now, lo, p, 1, w, false);
    return now[p / LEN := w];
  }

  /** The only free pages are those of [a + nr - 1, a + 2 * nr). */
  ghost predicate Gap(m: seq<Word>, size: nat, a: nat, nr: nat)
    requires size <= |m| * LEN
  {
    forall p: nat | p < size :: Get(m, p) <==> !(a + nr - 1 <= p < a + 2 * nr)
  }

  lemma GapExists(size: nat, a: nat, nr: nat) returns (m: seq<Word>)
    requires size % LEN == 0 && 3 <= nr && a + 2 * nr <= size
    ensures Readable(m, size) && Gap(m, size, a, nr)
  {
    hide Bit;
    var full: seq<Word> := seq(size / LEN + 1, _ => ONES);
    m := Cleared(full, a + nr - 1, nr + 1);
    forall p: nat | p < size
      ensures Get(m, p) <==> !(a + nr - 1 <= p < a + 2 * nr)
    {
      ConstantBits(p % LEN);
      assert full[p / LEN] == ONES;
    }
  }

  /** With just these pages free, a run can only start at the first or the second of them. */
  lemma GapFits(m: seq<Word>, size: nat, a: nat, nr: nat, j: nat)
    requires size <= |m| * LEN && 3 <= nr && a + 2 * nr <= size && Gap(m, size, a, nr)
    ensures Fits(m, size, j, nr, false) <==> j == a + nr - 1 || j == a + nr
  {
    hide Get;
    if j + nr <= size && j != a + nr - 1 && j != a + nr {
      var p := if j < a + nr - 1 then j else j + nr - 1;
      assert Get(m, p);
    }
  }

  /** A pass from far enough on finds nothing. */
  lemma GapPassed(m: seq<Word>, size: nat, a: nat, nr: nat, start: nat, curr: nat)
    requires Searchable(m, size) && 3 <= nr && a + 2 * nr <= size && Gap(m, size, a, nr) && a + nr < curr
    ensures Pick(m, size, start, nr, true, curr).None?
  {
    hide Search, Fits, Gap;
    SearchCorrect(m, size, curr, nr, false);
    if Search(m, size, curr, nr, false).Some? {
      GapFits(m, size, a, nr, Search(m, size, curr, nr, false).value);
      assert false;
    }
  }

  /** A pass from the first aligned page on meets the run before the aligned one and goes on behind it. */
  lemma GapMissed(m: seq<Word>, size: nat, base: nat, nr: nat)
    requires Searchable(m, size) && 3 <= nr
    requires FirstAligned(base, nr) + 2 * nr <= size && Gap(m, size, FirstAligned(base, nr), nr)
    ensures Pick(m, size, base % nr, nr, true, FirstAligned(base, nr)).None?
    ensures AlignedFit(m, size, base % nr, nr, FirstAligned(base, nr) + nr)
  {
    hide Search, Fits, Gap, FirstAligned, Pick;
    var a := FirstAligned(base, nr);
    GapFirst(m, size, a, nr);
    GapFits(m, size, a, nr, a + nr);
    Remainders(base, nr);
    PickStep(m, size, base % nr, nr, true, a);
    GapPassed(m, size, a, nr, base % nr, a + 2 * nr - 2);
  }

  lemma GapFirst(m: seq<Word>, size: nat, a: nat, nr: nat)
    requires Searchable(m, size) && 3 <= nr && a + 2 * nr <= size && Gap(m, size, a, nr)
    ensures Search(m, size, a, nr, false) == Some(a + nr - 1)
  {
    hide Search, Fits, Gap;
    SearchCorrect(m, size, a, nr, false);
    GapFits(m, size, a, nr, a + nr - 1);
    GapFits(m, size, a, nr, Search(m, size, a, nr, false).value);
  }

  lemma Remainders(base: nat, nr: nat)
    requires 3 <= nr
    ensures var x := FirstAligned(base, nr) + base % nr; (x + nr) % nr == 0 && (x + nr - 1) % nr == nr - 1
  {
    hide FirstAligned;
    FirstAlignedLeast(base, nr, 0);
    FirstAlignedLeast(base, nr, FirstAligned(base, nr));
    ModRange(base, nr);
    var x := FirstAligned(base, nr) + base % nr;
    ModRange(x, nr);
    assert x + nr == (x / nr + 1) * nr by { assert (x / nr + 1) * nr == (x / nr) * nr + nr; }
    DivUnique(x + nr, nr, x / nr + 1, 0);
    DivUnique(x + nr - 1, nr, x / nr, nr - 1);
  }

  /** With just these pages free and a hint behind them, both passes miss the aligned run. */
  lemma ChoiceMisses(m: seq<Word>, size: nat, base: nat, last: nat, nr: nat)
    requires Searchable(m, size) && 3 <= nr
    requires FirstAligned(base, nr) + 2 * nr <= size && Gap(m, size, FirstAligned(base, nr), nr)
    requires FirstAligned(base, nr) + nr < last
    ensures Choice(m, size, base, last, nr, true).None?
    ensures AlignedFit(m, size, base % nr, nr, FirstAligned(base, nr) + nr)
  {
    hide Pick, Search, Gap, Fits, FirstAligned;
    GapMissed(m, size, base, nr);
    ModRange(last + Start(base, nr, true), nr);
    GapPassed(m, size, FirstAligned(base, nr), nr, base % nr, FirstStop(base, last, nr, true));
  }

  /**
   For a pool's base and size, the aligned search is right for every hint and every map in which the
   pages from top on are taken exactly under Exhaustive. The pages that a pool keeps for itself are
   such pages, and so are none with top at the pool's end.
   */
  lemma AlignedExactly(size: nat, top: nat, base: nat, nr: nat)
    requires size % LEN == 0 && size < SIZE_MAX && top <= size && 1 <= nr
    ensures Exhaustive(base, top, nr) <==>
            forall m: seq<Word>, last: nat, j: nat |
              Searchable(m, size) && TakenFrom(m, size, top) && Choice(m, size, base, last, nr, true).None? ::
              !AlignedFit(m, size, base % nr, nr, j)
  {
    hide Choice, AlignedFit, FirstAligned, Get;
    if Exhaustive(base, top, nr) {
      forall m: seq<Word>, last: nat, j: nat |
        Searchable(m, size) && TakenFrom(m, size, top) && Choice(m, size, base, last, nr, true).None?
        ensures !AlignedFit(m, size, base % nr, nr, j)
      {
        ChoiceExhaustive(m, size, top, base, last, nr, j);
      }
    } else {
      var a := FirstAligned(base, nr);
      var m := GapExists(size, a, nr);
      ChoiceMisses(m, size, base, size, nr);
      assert TakenFrom(m, size, top);
    }
  }
}
