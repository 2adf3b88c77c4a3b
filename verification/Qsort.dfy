/**
 Quicksort after Bentley and McIlroy: a three-way partition that collects the elements equal
 to the pivot at both ends, block swaps that bring them to the middle, recursion on the left
 part, iteration on the right one, and insertion sort for short or already partitioned input.
 */
module Qsort {

  /** cmp is a total preorder: antisymmetric in sign, and transitive. */
  ghost predicate Ordering<T(!new)>(cmp: (T, T) -> int) {
    && (forall x, y :: (cmp(x, y) <= 0 <==> cmp(y, x) >= 0))
    && (forall x, y, z :: cmp(x, y) <= 0 && cmp(y, z) <= 0 ==> cmp(x, z) <= 0)
  }

  lemma Chain<T(!new)>(cmp: (T, T) -> int, x: T, y: T, z: T)
    requires Ordering(cmp) && cmp(x, y) <= 0 && cmp(y, z) <= 0
    ensures cmp(x, z) <= 0
  {
  }

  lemma Flip<T(!new)>(cmp: (T, T) -> int, x: T, y: T)
    requires Ordering(cmp)
    ensures cmp(x, y) <= 0 <==> cmp(y, x) >= 0
    ensures cmp(x, y) >= 0 <==> cmp(y, x) <= 0
  {
  }

  lemma Reflex<T(!new)>(cmp: (T, T) -> int, x: T)
    requires Ordering(cmp)
    ensures cmp(x, x) == 0
  {
  }

  ghost predicate Sorted<T>(cmp: (T, T) -> int, s: seq<T>, lo: nat, hi: nat)
    requires hi <= |s|
  {
    forall i, j | lo <= i < j < hi :: cmp(s[i], s[j]) <= 0
  }

  /** s is o with the elements of [lo, hi) rearranged among themselves. */
  ghost predicate Shuffled<T>(o: seq<T>, s: seq<T>, lo: nat, hi: nat) {
    && lo <= hi <= |o| == |s|
    && o[..lo] == s[..lo] && o[hi..] == s[hi..]
    && multiset(o[lo..hi]) == multiset(s[lo..hi])
  }

  lemma ShuffledOutside<T>(o: seq<T>, s: seq<T>, lo: nat, hi: nat, i: nat)
    requires Shuffled(o, s, lo, hi) && i < |o| && (i < lo || hi <= i)
    ensures s[i] == o[i]
  {
    if i < lo {
      assert s[i] == s[..lo][i] == o[..lo][i];
    } else {
      assert s[i] == s[hi..][i - hi] == o[hi..][i - hi];
    }
  }

  /** Every element of the rearranged stretch was there before. */
  lemma ShuffledFrom<T>(o: seq<T>, s: seq<T>, lo: nat, hi: nat, i: nat) returns (j: nat)
    requires Shuffled(o, s, lo, hi) && lo <= i < hi
    ensures lo <= j < hi && o[j] == s[i]
  {
    var x := s[lo..hi][i - lo];
    assert x in multiset(s[lo..hi]);
    assert x in o[lo..hi];
    var k :| 0 <= k < |o[lo..hi]| && o[lo..hi][k] == x;
    j := lo + k;
  }

  lemma ShuffledSelf<T>(s: seq<T>, lo: nat, hi: nat)
    requires lo <= hi <= |s|
    ensures Shuffled(s, s, lo, hi)
  {
  }

  lemma ShuffledTrans<T>(o: seq<T>, m: seq<T>, s: seq<T>, lo: nat, hi: nat)
    requires Shuffled(o, m, lo, hi) && Shuffled(m, s, lo, hi)
    ensures Shuffled(o, s, lo, hi)
  {
  }

  lemma ShuffledWiden<T>(o: seq<T>, s: seq<T>, l: nat, h: nat, lo: nat, hi: nat)
    requires Shuffled(o, s, l, h) && lo <= l && h <= hi <= |o|
    ensures Shuffled(o, s, lo, hi)
  {
    InThree(o, l, h, lo, hi);
    InThree(s, l, h, lo, hi);
  }

  /** A stretch in three parts, and what lies outside it, by the parts of the whole. */
  lemma InThree<T>(s: seq<T>, l: nat, h: nat, lo: nat, hi: nat)
    requires lo <= l <= h <= hi <= |s|
    ensures s[..lo] == s[..l][..lo] && s[hi..] == s[h..][hi - h..]
    ensures s[lo..hi] == s[..l][lo..] + s[l..h] + s[h..][..hi - h]
  {
    var back := s[h..];
    assert |back| == |s| - h && forall k | 0 <= k < |back| :: back[k] == s[h + k];
    assert forall k | 0 <= k < |s| - hi :: s[hi..][k] == s[hi + k] == back[hi - h + k];
  }

  function SwapSeq<T>(s: seq<T>, i: nat, j: nat): (r: seq<T>)
    requires i < |s| && j < |s|
    ensures |r| == |s|
  {
    s[i := s[j]][j := s[i]]
  }

  lemma SwapShuffles<T>(s: seq<T>, i: nat, j: nat, lo: nat, hi: nat)
    requires lo <= i < hi && lo <= j < hi && hi <= |s|
    ensures Shuffled(s, SwapSeq(s, i, j), lo, hi)
  {
    var b := s[lo..hi];
    assert SwapSeq(s, i, j)[lo..hi] == b[i - lo := b[j - lo]][j - lo := b[i - lo]];
  }

  lemma SwapKeeps<T>(o: seq<T>, s: seq<T>, i: nat, j: nat, lo: nat, hi: nat)
    requires Shuffled(o, s, lo, hi) && lo <= i < hi && lo <= j < hi
    ensures Shuffled(o, SwapSeq(s, i, j), lo, hi)
  {
    SwapShuffles(s, i, j, lo, hi);
    ShuffledTrans(o, s, SwapSeq(s, i, j), lo, hi);
  }

  method Swap<T>(a: array<T>, i: nat, j: nat)
    requires i < a.Length && j < a.Length
    modifies a
    ensures a[..] == SwapSeq(old(a[..]), i, j)
  {
    var t := a[i];
    a[i] := a[j];
    a[j] := t;
  }

  // ---- insertion sort

  /** [lo, p] is sorted except that the element at q has still to move left. */
  ghost predicate Sinking<T>(cmp: (T, T) -> int, s: seq<T>, lo: nat, p: nat, q: nat)
    requires p < |s|
  {
    && lo <= q <= p
    && (forall i, j | lo <= i < j <= p && i != q && j != q :: cmp(s[i], s[j]) <= 0)
    && (forall j | q < j <= p :: cmp(s[q], s[j]) <= 0)
  }

  lemma SinkStart<T>(cmp: (T, T) -> int, s: seq<T>, lo: nat, n: nat, p: nat)
    requires lo < p < lo + n <= |s| && Sorted(cmp, s, lo, p)
    ensures Sinking(cmp, s, lo, p, p) && Shuffled(s, s, lo, lo + n)
  {
  }

  lemma SinkStep<T(!new)>(cmp: (T, T) -> int, s: seq<T>, lo: nat, p: nat, q: nat)
    requires Ordering(cmp) && p < |s| && Sinking(cmp, s, lo, p, q) && lo < q && cmp(s[q - 1], s[q]) > 0
    ensures Sinking(cmp, SwapSeq(s, q, q - 1), lo, p, q - 1)
  {
    Flip(cmp, s[q - 1], s[q]);
  }

  lemma SinkDone<T(!new)>(cmp: (T, T) -> int, s: seq<T>, lo: nat, p: nat, q: nat)
    requires Ordering(cmp) && p < |s| && Sinking(cmp, s, lo, p, q)
    requires q == lo || cmp(s[q - 1], s[q]) <= 0
    ensures Sorted(cmp, s, lo, p + 1)
  {
    forall i, j | lo <= i < j < p + 1
      ensures cmp(s[i], s[j]) <= 0
    {
      if j == q && i < q - 1 {
        Chain(cmp, s[i], s[q - 1], s[q]);
      }
    }
  }

  method InsertionSort<T(!new)>(a: array<T>, lo: nat, n: nat, cmp: (T, T) -> int)
    requires Ordering(cmp) && lo + n <= a.Length
    modifies a
    ensures Sorted(cmp, a[..], lo, lo + n) && Shuffled(old(a[..]), a[..], lo, lo + n)
  {
    hide Ordering, Shuffled;
    ghost var o := a[..];
    ShuffledSelf(o, lo, lo + n);
    var pm := lo + 1;
    while pm < lo + n
      invariant lo < pm && (pm <= lo + n || n == 0)
      invariant Shuffled(o, a[..], lo, lo + n)
      invariant pm <= a.Length ==> Sorted(cmp, a[..], lo, pm)
    {
      ghost var m := a[..];
      Sink(a, lo, n, pm, cmp);
      ShuffledTrans(o, m, a[..], lo, lo + n);
      pm := pm + 1;
    }
  }

  method Sink<T(!new)>(a: array<T>, lo: nat, n: nat, pm: nat, cmp: (T, T) -> int)
    requires Ordering(cmp) && lo < pm < lo + n <= a.Length
    requires Sorted(cmp, a[..], lo, pm)
    modifies a
    ensures Sorted(cmp, a[..], lo, pm + 1) && Shuffled(old(a[..]), a[..], lo, lo + n)
  {
    hide Ordering, Shuffled, Sinking, SwapSeq;
    SinkStart(cmp, a[..], lo, n, pm);
    var pl := pm;
    while pl > lo && cmp(a[pl - 1], a[pl]) > 0
      invariant lo <= pl <= pm
      invariant Sinking(cmp, a[..], lo, pm, pl)
      invariant Shuffled(old(a[..]), a[..], lo, lo + n)
    {
      ghost var s := a[..];
      SinkStep(cmp, s, lo, pm, pl);
      SwapKeeps(old(a[..]), s, pl, pl - 1, lo, lo + n);
      Swap(a, pl, pl - 1);
      pl := pl - 1;
    }
    SinkDone(cmp, a[..], lo, pm, pl);
  }

  // ---- the partition

  function Med3<T>(s: seq<T>, a: nat, b: nat, c: nat, cmp: (T, T) -> int): (m: nat)
    requires a < |s| && b < |s| && c < |s|
    ensures m == a || m == b || m == c
  {
    if cmp(s[a], s[b]) < 0 then
      (if cmp(s[b], s[c]) < 0 then b else if cmp(s[a], s[c]) < 0 then c else a)
    else
      (if cmp(s[b], s[c]) > 0 then b else if cmp(s[a], s[c]) < 0 then a else c)
  }

  /** Of three elements, the one chosen lies between the other two. */
  lemma Med3Median<T(!new)>(s: seq<T>, a: nat, b: nat, c: nat, cmp: (T, T) -> int)
    requires Ordering(cmp) && a < |s| && b < |s| && c < |s|
    ensures var m := Med3(s, a, b, c, cmp);
            || (m == a && (Between(cmp, s[b], s[a], s[c]) || Between(cmp, s[c], s[a], s[b])))
            || (m == b && (Between(cmp, s[a], s[b], s[c]) || Between(cmp, s[c], s[b], s[a])))
            || (m == c && (Between(cmp, s[a], s[c], s[b]) || Between(cmp, s[b], s[c], s[a])))
  {
    hide Ordering;
    Flip(cmp, s[a], s[b]);
    Flip(cmp, s[b], s[c]);
    Flip(cmp, s[a], s[c]);
  }

  predicate Between<T>(cmp: (T, T) -> int, x: T, y: T, z: T) {
    cmp(x, y) <= 0 && cmp(y, z) <= 0
  }

  /** The pivot chosen for n elements from lo on. */
  function Pivot<T>(s: seq<T>, lo: nat, n: nat, cmp: (T, T) -> int): (m: nat)
    requires 7 <= n && lo + n <= |s|
    ensures lo <= m < lo + n
  {
    var pm := lo + n / 2;
    if n == 7 then pm
    else
      var pl, pn := lo, lo + n - 1;
      if n > 40 then
        var d := n / 8;
        Med3(s, Med3(s, pl, pl + d, pl + 2 * d, cmp), Med3(s, pm - d, pm, pm + d, cmp),
             Med3(s, pn - 2 * d, pn - d, pn, cmp), cmp)
      else Med3(s, pl, pm, pn, cmp)
  }

  /** Equal, less, unknown, greater, equal; the pivot value is v, and sits at lo. */
  ghost predicate Zones<T>(cmp: (T, T) -> int, s: seq<T>, lo: nat, hi: nat, v: T, pa: int, pb: int, pc: int, pd: int) {
    && lo < pa <= pb <= pc + 1 && pc <= pd < hi <= |s|
    && s[lo] == v
    && (forall k | lo <= k < pa :: cmp(s[k], v) == 0)
    && (forall k | pa <= k < pb :: cmp(s[k], v) < 0)
    && (forall k | pc < k <= pd :: cmp(s[k], v) > 0)
    && (forall k | pd < k < hi :: cmp(s[k], v) == 0)
  }

  /** The state of the partition loop: zones, over a rearrangement of o. */
  ghost predicate Parting<T>(cmp: (T, T) -> int, o: seq<T>, s: seq<T>, lo: nat, hi: nat, v: T,
                             pa: int, pb: int, pc: int, pd: int) {
    Shuffled(o, s, lo, hi) && Zones(cmp, s, lo, hi, v, pa, pb, pc, pd)
  }

  lemma PartStart<T(!new)>(cmp: (T, T) -> int, o: seq<T>, s: seq<T>, lo: nat, hi: nat)
    requires Ordering(cmp) && Shuffled(o, s, lo, hi) && lo + 1 < hi
    ensures Parting(cmp, o, s, lo, hi, s[lo], lo + 1, lo + 1, hi - 1, hi - 1)
  {
    Reflex(cmp, s[lo]);
  }

  /** Scanning up over a smaller or equal element. */
  lemma PartUp<T>(cmp: (T, T) -> int, o: seq<T>, s: seq<T>, lo: nat, hi: nat, v: T, pa: int, pb: int, pc: int, pd: int)
    requires Parting(cmp, o, s, lo, hi, v, pa, pb, pc, pd) && pb <= pc && cmp(s[pb], v) <= 0
    ensures cmp(s[pb], v) < 0 ==> Parting(cmp, o, s, lo, hi, v, pa, pb + 1, pc, pd)
    ensures cmp(s[pb], v) == 0 ==> Parting(cmp, o, SwapSeq(s, pa, pb), lo, hi, v, pa + 1, pb + 1, pc, pd)
  {
    hide Shuffled;
    PartWithin(cmp, o, s, lo, hi, v, pa, pb, pc, pd);
    if cmp(s[pb], v) == 0 {
      SwapKeeps(o, s, pa, pb, lo, hi);
      var t := SwapSeq(s, pa, pb);
      assert t[pa] == s[pb] && t[pb] == s[pa];
      assert forall k | lo <= k < hi && k != pa && k != pb :: t[k] == s[k];
    }
  }

  lemma PartWithin<T>(cmp: (T, T) -> int, o: seq<T>, s: seq<T>, lo: nat, hi: nat, v: T, pa: int, pb: int, pc: int,
      pd: int)
    requires Parting(cmp, o, s, lo, hi, v, pa, pb, pc, pd)
    ensures |o| == |s|
  {
  }

  /** Scanning down over a greater or equal element. */
  lemma PartDown<T>(cmp: (T, T) -> int, o: seq<T>, s: seq<T>, lo: nat, hi: nat, v: T, pa: int, pb: int, pc: int,
      pd: int)
    requires Parting(cmp, o, s, lo, hi, v, pa, pb, pc, pd) && pb <= pc && cmp(s[pc], v) >= 0
    ensures cmp(s[pc], v) > 0 ==> Parting(cmp, o, s, lo, hi, v, pa, pb, pc - 1, pd)
    ensures cmp(s[pc], v) == 0 ==> Parting(cmp, o, SwapSeq(s, pc, pd), lo, hi, v, pa, pb, pc - 1, pd - 1)
  {
    hide Shuffled;
    PartWithin(cmp, o, s, lo, hi, v, pa, pb, pc, pd);
    if cmp(s[pc], v) == 0 {
      SwapKeeps(o, s, pc, pd, lo, hi);
      var t := SwapSeq(s, pc, pd);
      assert t[pc] == s[pd] && t[pd] == s[pc];
      assert forall k | lo <= k < hi && k != pc && k != pd :: t[k] == s[k];
    }
  }

  /** A greater element below a smaller one: exchange them. */
  lemma PartCross<T>(cmp: (T, T) -> int, o: seq<T>, s: seq<T>, lo: nat, hi: nat, v: T, pa: int, pb: int, pc: int,
      pd: int)
    requires Parting(cmp, o, s, lo, hi, v, pa, pb, pc, pd) && pb <= pc && cmp(s[pb], v) > 0 && cmp(s[pc], v) < 0
    ensures pb < pc && Parting(cmp, o, SwapSeq(s, pb, pc), lo, hi, v, pa, pb + 1, pc - 1, pd)
  {
    SwapKeeps(o, s, pb, pc, lo, hi);
    var t := SwapSeq(s, pb, pc);
    assert t[pb] == s[pc] && t[pc] == s[pb];
    assert forall k | lo <= k < hi && k != pb && k != pc :: t[k] == s[k];
  }

  /** The pointer bounds alone. */
  lemma PartBounds<T>(cmp: (T, T) -> int, o: seq<T>, s: seq<T>, lo: nat, hi: nat, v: T, pa: int, pb: int, pc: int,
      pd: int)
    requires Parting(cmp, o, s, lo, hi, v, pa, pb, pc, pd)
    ensures lo < pa <= pb <= pc + 1 && pc <= pd < hi <= |s| && s[lo] == v
  {
  }

  method Partition<T(!new)>(a: array<T>, lo: nat, n: nat, cmp: (T, T) -> int, ghost o: seq<T>)
    returns (pa: nat, pb: nat, pc: nat, pd: nat, swapped: bool)
    requires Ordering(cmp) && 7 <= n && lo + n <= a.Length && Shuffled(o, a[..], lo, lo + n)
    modifies a
    ensures Parting(cmp, o, a[..], lo, lo + n, a[lo], pa, pb, pc, pd) && pb == pc + 1
    ensures !swapped ==> a[..] == old(a[..])
  {
    hide Ordering, Parting, Shuffled;
    ghost var hi, v := lo + n, a[lo];
    swapped := false;
    pa, pb := lo + 1, lo + 1;
    pc, pd := lo + n - 1, lo + n - 1;
    PartStart(cmp, o, a[..], lo, hi);
    while true
      invariant Parting(cmp, o, a[..], lo, hi, v, pa, pb, pc, pd)
      invariant lo < pa <= pb <= pc + 1 && pc <= pd < hi && a[lo] == v
      invariant !swapped ==> a[..] == old(a[..])
      decreases pc + 1 - pb
    {
      pa, pb, swapped := ScanUp(a, lo, hi, cmp, pa, pb, pc, pd, swapped, o, v);
      pc, pd, swapped := ScanDown(a, lo, hi, cmp, pa, pb, pc, pd, swapped, o, v);
      if pb > pc {
        break;
      }
      PartCross(cmp, o, a[..], lo, hi, v, pa, pb, pc, pd);
      Swap(a, pb, pc);
      swapped := true;
      pb := pb + 1;
      pc := pc - 1;
      PartBounds(cmp, o, a[..], lo, hi, v, pa, pb, pc, pd);
    }
  }

  method ScanUp<T(!new)>(a: array<T>, lo: nat, ghost hi: nat, cmp: (T, T) -> int,
                         pa0: nat, pb0: nat, pc: nat, pd: nat, swapped0: bool, ghost o: seq<T>, ghost v: T)
    returns (pa: nat, pb: nat, swapped: bool)
    requires Parting(cmp, o, a[..], lo, hi, v, pa0, pb0, pc, pd)
    modifies a
    ensures Parting(cmp, o, a[..], lo, hi, v, pa, pb, pc, pd)
    ensures lo < pa <= pb <= pc + 1 && pc <= pd < hi <= a.Length && a[lo] == v && pb0 <= pb
    ensures pb <= pc ==> cmp(a[pb], v) > 0
    ensures swapped0 ==> swapped
    ensures !swapped ==> a[..] == old(a[..])
  {
    hide Parting, Shuffled;
    pa, pb, swapped := pa0, pb0, swapped0;
    PartBounds(cmp, o, a[..], lo, hi, v, pa, pb, pc, pd);
    while pb <= pc && cmp(a[pb], a[lo]) <= 0
      invariant Parting(cmp, o, a[..], lo, hi, v, pa, pb, pc, pd)
      invariant lo < pa <= pb <= pc + 1 && pc <= pd < hi <= a.Length && a[lo] == v && pb0 <= pb
      invariant swapped0 ==> swapped
      invariant !swapped ==> a[..] == old(a[..])
      decreases pc + 1 - pb
    {
      PartUp(cmp, o, a[..], lo, hi, v, pa, pb, pc, pd);
      if cmp(a[pb], a[lo]) == 0 {
        swapped := true;
        Swap(a, pa, pb);
        pa := pa + 1;
      }
      pb := pb + 1;
      PartBounds(cmp, o, a[..], lo, hi, v, pa, pb, pc, pd);
    }
  }

  method ScanDown<T(!new)>(a: array<T>, lo: nat, ghost hi: nat, cmp: (T, T) -> int,
                           pa: nat, pb: nat, pc0: nat, pd0: nat, swapped0: bool, ghost o: seq<T>, ghost v: T)
    returns (pc: nat, pd: nat, swapped: bool)
    requires Parting(cmp, o, a[..], lo, hi, v, pa, pb, pc0, pd0)
    requires pb <= pc0 ==> pc0 < a.Length && pb < a.Length && cmp(a[pb], v) > 0
    modifies a
    ensures Parting(cmp, o, a[..], lo, hi, v, pa, pb, pc, pd)
    ensures lo < pa <= pb <= pc + 1 && pc <= pd < hi <= a.Length && a[lo] == v && pc <= pc0
    ensures pb <= pc ==> cmp(a[pb], v) > 0 && cmp(a[pc], v) < 0
    ensures swapped0 ==> swapped
    ensures !swapped ==> a[..] == old(a[..])
  {
    hide Parting, Shuffled;
    pc, pd, swapped := pc0, pd0, swapped0;
    PartBounds(cmp, o, a[..], lo, hi, v, pa, pb, pc, pd);
    while pb <= pc && cmp(a[pc], a[lo]) >= 0
      invariant Parting(cmp, o, a[..], lo, hi, v, pa, pb, pc, pd)
      invariant lo < pa <= pb <= pc + 1 && pc <= pd < hi <= a.Length && a[lo] == v && pc <= pc0
      invariant pb <= pc ==> cmp(a[pb], v) > 0
      invariant swapped0 ==> swapped
      invariant !swapped ==> a[..] == old(a[..])
      decreases pc
    {
      PartDown(cmp, o, a[..], lo, hi, v, pa, pb, pc, pd);
      if cmp(a[pc], a[lo]) == 0 {
        swapped := true;
        Swap(a, pc, pd);
        pd := pd - 1;
      }
      pc := pc - 1;
      PartBounds(cmp, o, a[..], lo, hi, v, pa, pb, pc, pd);
    }
  }

  // ---- the block swaps

  /** The first r elements from i and from j exchanged. */
  ghost predicate BlocksSwapped<T>(o: seq<T>, s: seq<T>, i: nat, j: nat, r: nat) {
    && |o| == |s| && i + r <= |s| && j + r <= |s|
    && (forall k | i <= k < i + r :: s[k] == o[k - i + j])
    && (forall k | j <= k < j + r :: s[k] == o[k - j + i])
    && (forall k | 0 <= k < |s| && !(i <= k < i + r) && !(j <= k < j + r) :: s[k] == o[k])
  }

  lemma BlocksStep<T>(o: seq<T>, s: seq<T>, i: nat, j: nat, r: nat, k: nat)
    requires BlocksSwapped(o, s, i, j, k) && k < r && i + r <= j && j + r <= |s|
    ensures BlocksSwapped(o, SwapSeq(s, i + k, j + k), i, j, k + 1)
  {
  }

  /** Exchanges two disjoint blocks of r elements. */
  method VecSwap<T>(a: array<T>, i: nat, j: nat, r: nat, ghost lo: nat, ghost hi: nat)
    requires lo <= i && i + r <= j && j + r <= hi <= a.Length
    modifies a
    ensures BlocksSwapped(old(a[..]), a[..], i, j, r) && Shuffled(old(a[..]), a[..], lo, hi)
  {
    hide Shuffled, BlocksSwapped, SwapSeq;
    ghost var o := a[..];
    BlocksNone(o, i, j, lo, hi);
    var k := 0;
    while k < r
      invariant 0 <= k <= r
      invariant BlocksSwapped(o, a[..], i, j, k) && Shuffled(o, a[..], lo, hi)
    {
      BlocksStep(o, a[..], i, j, r, k);
      SwapKeeps(o, a[..], i + k, j + k, lo, hi);
      Swap(a, i + k, j + k);
      k := k + 1;
    }
  }

  lemma BlocksNone<T>(o: seq<T>, i: nat, j: nat, lo: nat, hi: nat)
    requires lo <= i <= j <= hi <= |o|
    ensures BlocksSwapped(o, o, i, j, 0) && Shuffled(o, o, lo, hi)
  {
  }

  /** Less, equal, greater. */
  ghost predicate ThreeWay<T>(cmp: (T, T) -> int, s: seq<T>, lo: nat, m: nat, e: nat, hi: nat, v: T) {
    && lo <= m <= e <= hi <= |s|
    && (forall k | lo <= k < m :: cmp(s[k], v) < 0)
    && (forall k | m <= k < e :: cmp(s[k], v) == 0)
    && (forall k | e <= k < hi :: cmp(s[k], v) > 0)
  }

  function Min(x: int, y: int): int { if x < y then x else y }

  /** Bringing the left equals to the middle. */
  lemma GatherLeft<T>(cmp: (T, T) -> int, o: seq<T>, s: seq<T>, lo: nat, hi: nat, v: T, pa: nat, pb: nat, pc: nat,
      pd: nat)
    requires Zones(cmp, o, lo, hi, v, pa, pb, pc, pd) && pb == pc + 1
    requires var r := Min(pa - lo, pb - pa); BlocksSwapped(o, s, lo, pb - r, r)
    ensures forall k | lo <= k < lo + (pb - pa) :: cmp(s[k], v) < 0
    ensures forall k | lo + (pb - pa) <= k < pb :: cmp(s[k], v) == 0
    ensures forall k | pb <= k < hi :: s[k] == o[k]
  {
    var r := Min(pa - lo, pb - pa);
    forall k | lo <= k < pb
      ensures if k < lo + (pb - pa) then cmp(s[k], v) < 0 else cmp(s[k], v) == 0
    {
      assert s[k] == o[if k < lo + r then k - lo + (pb - r) else if pb - r <= k then k - (pb - r) + lo else k];
    }
  }

  /** Bringing the right equals to the middle. */
  lemma GatherRight<T>(cmp: (T, T) -> int, o: seq<T>, s: seq<T>, hi: nat, v: T, pb: nat, pd: int)
    requires pb <= pd + 1 <= hi <= |o|
    requires forall k | pb <= k <= pd :: cmp(o[k], v) > 0
    requires forall k | pd < k < hi :: cmp(o[k], v) == 0
    requires var r := Min(pd + 1 - pb, hi - pd - 1); BlocksSwapped(o, s, pb, hi - r, r)
    ensures forall k | pb <= k < hi - (pd + 1 - pb) :: cmp(s[k], v) == 0
    ensures forall k | hi - (pd + 1 - pb) <= k < hi :: cmp(s[k], v) > 0
    ensures forall k | 0 <= k < pb :: s[k] == o[k]
  {
    var r := Min(pd + 1 - pb, hi - pd - 1);
    forall k | pb <= k < hi
      ensures if k < hi - (pd + 1 - pb) then cmp(s[k], v) == 0 else cmp(s[k], v) > 0
    {
      assert s[k] == o[if k < pb + r then k - pb + (hi - r) else if hi - r <= k then k - (hi - r) + pb else k];
    }
  }

  /** Both block swaps after a partition. */
  method Gather<T>(a: array<T>, lo: nat, n: nat, cmp: (T, T) -> int, pa: nat, pb: nat, pc: nat, pd: nat,
      ghost o: seq<T>)
    requires lo < lo + n <= a.Length && Parting(cmp, o, a[..], lo, lo + n, a[lo], pa, pb, pc, pd) && pb == pc + 1
    modifies a
    ensures Shuffled(o, a[..], lo, lo + n)
    ensures ThreeWay(cmp, a[..], lo, lo + (pb - pa), lo + n - (pd - pc), lo + n, old(a[lo]))
    ensures lo < pa <= pb && pc <= pd < lo + n
  {
    hide Shuffled, BlocksSwapped;
    ghost var v := a[lo];
    var pn := lo + n;
    var r := Min(pa - lo, pb - pa);
    ghost var s0 := a[..];
    VecSwap(a, lo, pb - r, r, lo, pn);
    ghost var s1 := a[..];
    GatherLeft(cmp, s0, s1, lo, pn, v, pa, pb, pc, pd);
    ShuffledTrans(o, s0, s1, lo, pn);
    r := Min(pd - pc, pn - pd - 1);
    VecSwap(a, pb, pn - r, r, lo, pn);
    GatherRight(cmp, s1, a[..], pn, v, pb, pd);
    ShuffledTrans(o, s1, a[..], lo, pn);
  }

  // ---- the sort

  /** s rearranges o; [lo0, lo) is in its final order and not above what follows. */
  ghost predicate Prefixed<T>(cmp: (T, T) -> int, o: seq<T>, s: seq<T>, lo0: nat, lo: nat, hi: nat) {
    && lo0 <= lo <= hi
    && Shuffled(o, s, lo0, hi)
    && (forall i, j | lo0 <= i < lo && i < j < hi :: cmp(s[i], s[j]) <= 0)
  }

  /** Rearranging the rest keeps the prefix. */
  lemma PrefixKept<T>(cmp: (T, T) -> int, o: seq<T>, s: seq<T>, t: seq<T>, lo0: nat, lo: nat, hi: nat)
    requires Prefixed(cmp, o, s, lo0, lo, hi) && Shuffled(s, t, lo, hi)
    ensures Prefixed(cmp, o, t, lo0, lo, hi)
  {
    ShuffledWiden(s, t, lo, hi, lo0, hi);
    ShuffledTrans(o, s, t, lo0, hi);
    forall i, j | lo0 <= i < lo && i < j < hi
      ensures cmp(t[i], t[j]) <= 0
    {
      ShuffledOutside(s, t, lo, hi, i);
      if j < lo {
        ShuffledOutside(s, t, lo, hi, j);
      } else {
        var k := ShuffledFrom(s, t, lo, hi, j);
      }
    }
  }

  /** A sorted rest completes the sort. */
  lemma PrefixDone<T>(cmp: (T, T) -> int, o: seq<T>, s: seq<T>, lo0: nat, lo: nat, hi: nat)
    requires Prefixed(cmp, o, s, lo0, lo, hi) && Sorted(cmp, s, lo, hi)
    ensures Sorted(cmp, s, lo0, hi) && Shuffled(o, s, lo0, hi)
  {
  }

  lemma ThreeWayPairs<T(!new)>(cmp: (T, T) -> int, s: seq<T>, lo: nat, m: nat, e: nat, hi: nat, v: T)
    requires Ordering(cmp) && ThreeWay(cmp, s, lo, m, e, hi, v)
    ensures forall i, j | lo <= i < e && m <= j < hi :: cmp(s[i], s[j]) <= 0
  {
    forall i, j | lo <= i < e && m <= j < hi
      ensures cmp(s[i], s[j]) <= 0
    {
      Flip(cmp, s[j], v);
      Chain(cmp, s[i], v, s[j]);
    }
  }

  /** Sorting the part below the pivot extends the prefix over it and the equals. */
  lemma PrefixExtend<T(!new)>(cmp: (T, T) -> int, o: seq<T>, s: seq<T>, t: seq<T>,
                              lo0: nat, lo: nat, m: nat, e: nat, hi: nat, v: T)
    requires Ordering(cmp) && Prefixed(cmp, o, s, lo0, lo, hi) && ThreeWay(cmp, s, lo, m, e, hi, v)
    requires Shuffled(s, t, lo, m) && Sorted(cmp, t, lo, m)
    ensures Prefixed(cmp, o, t, lo0, e, hi)
  {
    ShuffledWiden(s, t, lo, m, lo, hi);
    PrefixKept(cmp, o, s, t, lo0, lo, hi);
    ThreeWayPairs(cmp, s, lo, m, e, hi, v);
    forall i, j | lo <= i < e && i < j < hi
      ensures cmp(t[i], t[j]) <= 0
    {
      if j >= m {
        ShuffledOutside(s, t, lo, m, j);
        if i < m {
          var k := ShuffledFrom(s, t, lo, m, i);
        } else {
          ShuffledOutside(s, t, lo, m, i);
        }
      }
    }
  }

  method QSort<T(!new)>(a: array<T>, lo0: nat, n0: nat, cmp: (T, T) -> int)
    requires Ordering(cmp) && lo0 + n0 <= a.Length
    modifies a
    ensures Sorted(cmp, a[..], lo0, lo0 + n0)
    ensures Shuffled(old(a[..]), a[..], lo0, lo0 + n0)
    decreases n0
  {
    hide Ordering, Shuffled, Parting, ThreeWay, Prefixed, Sorted, SwapSeq, Pivot;
    ghost var o, hi := a[..], lo0 + n0;
    var lo: nat, n: nat := lo0, n0;
    PrefixNone(cmp, o, lo0, hi);
    while true
      invariant lo0 <= lo && lo + n == hi && n <= n0
      invariant Prefixed(cmp, o, a[..], lo0, lo, hi)
      decreases n
    {
      ghost var s := a[..];
      if n < 7 {
        InsertionSort(a, lo, n, cmp);
        PrefixKept(cmp, o, s, a[..], lo0, lo, hi);
        PrefixDone(cmp, o, a[..], lo0, lo, hi);
        return;
      }
      var pm := Pivot(a[..], lo, n, cmp);
      SwapShuffles(s, lo, pm, lo, hi);
      Swap(a, lo, pm);
      var pa, pb, pc, pd, swapped := Partition(a, lo, n, cmp, s);
      if !swapped {
        ghost var t := a[..];
        InsertionSort(a, lo, n, cmp);
        ShuffledTrans(s, t, a[..], lo, hi);
        PrefixKept(cmp, o, s, a[..], lo0, lo, hi);
        PrefixDone(cmp, o, a[..], lo0, lo, hi);
        return;
      }
      ghost var v := a[lo];
      Gather(a, lo, n, cmp, pa, pb, pc, pd, s);
      ghost var m, e := lo + (pb - pa), hi - (pd - pc);
      ghost var u := a[..];
      PrefixKept(cmp, o, s, u, lo0, lo, hi);
      if pb - pa > 1 {
        QSort(a, lo, pb - pa, cmp);
      } else {
        ThreeWayBounds(cmp, u, lo, m, e, hi, v);
        ShuffledSelf(u, lo, m);
        ShortSorted(cmp, u, lo, m);
      }
      PrefixExtend(cmp, o, u, a[..], lo0, lo, m, e, hi, v);
      if pd - pc > 1 {
        lo := lo + n - (pd - pc);
        n := pd - pc;
      } else {
        ShortSorted(cmp, a[..], e, hi);
        PrefixDone(cmp, o, a[..], lo0, e, hi);
        return;
      }
    }
  }

  lemma ShortSorted<T>(cmp: (T, T) -> int, s: seq<T>, lo: nat, hi: nat)
    requires hi <= lo + 1 && hi <= |s|
    ensures Sorted(cmp, s, lo, hi)
  {
  }

  lemma PrefixNone<T>(cmp: (T, T) -> int, o: seq<T>, lo: nat, hi: nat)
    requires lo <= hi <= |o|
    ensures Prefixed(cmp, o, o, lo, lo, hi)
  {
  }

  lemma ThreeWayBounds<T>(cmp: (T, T) -> int, s: seq<T>, lo: nat, m: nat, e: nat, hi: nat, v: T)
    requires ThreeWay(cmp, s, lo, m, e, hi, v)
    ensures lo <= m <= e <= hi <= |s|
  {
  }
}
