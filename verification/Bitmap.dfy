/**
 Bitmaps: single bits, runs of equal bits counted a word at a time, and the search for a run
 of a wanted length. A position that does not exist is None where the program returns -1.
 */
module Bitmap {
  import opened Basics
  import opened Granule

  const SIZE_MAX: nat := 0xffff_ffff_ffff_ffff

  predicate Get(m: seq<Word>, p: nat)
    requires p / LEN < |m|
  {
    Bit(m[p / LEN], p % LEN)
  }

  /** All bits of [p, q) have the value val. */
  ghost predicate Run(m: seq<Word>, p: nat, q: nat, val: bool)
    requires q <= |m| * LEN
  {
    forall i: nat | p <= i < q :: Get(m, i) == val
  }

  // ---- counting a run

  /** The bit loop: one position at a time. */
  function CountBits(m: seq<Word>, size: nat, pos: nat, count: nat, n: nat, val: bool): (c: nat)
    requires size <= |m| * LEN
    decreases size - pos
  {
    if pos < size && Get(m, pos) == val && count < n
    then CountBits(m, size, pos + 1, count + 1, n, val)
    else count
  }

  /** The word loop: a whole word at a time, then the bit loop. */
  function CountWords(m: seq<Word>, size: nat, pos: nat, count: nat, n: nat, val: bool): (c: nat)
    requires size <= |m| * LEN
    decreases size - pos
  {
    if pos < size && m[pos / LEN] ^ Fill(val) == 0 && count < n
    then CountWords(m, size, pos + LEN, count + LEN, n, val)
    else CountBits(m, size, pos, count, n, val)
  }

  function FirstBits(start: nat, n: nat): (k: nat)
    ensures k <= LEN - start % LEN && k <= n && (1 <= n ==> 1 <= k)
    ensures k == n || (start + k) % LEN == 0
  {
    if LEN - start % LEN < n then LEN - start % LEN else n
  }

  /** The length of the run of equal bits from start on, as counted by the program. */
  function ConsecutiveCount(m: seq<Word>, size: nat, start: nat, n: nat): (c: nat)
    requires size <= |m| * LEN && start / LEN < |m|
  {
    if n <= 1 then n
    else
      var val := Get(m, start);
      var off, k := start % LEN, FirstBits(start, n);
      if Diff(m[start / LEN], Pattern(Mask(off, k), val), Mask(off, k)) == 0
      then CountWords(m, size, start + k, k, n, val)
      else CountWords(m, size, start, 0, n, val)
  }

  method CountConsecutive(bits: array<Word>, size: nat, start: nat, n: nat) returns (count: nat)
    requires size <= bits.Length * LEN && start / LEN < bits.Length
    ensures count == ConsecutiveCount(bits[..], size, start, n)
  {
    hide Bit, Mask, Diff, Pattern, Fill, FirstBits;
    ghost var m := bits[..];
    if n <= 1 {
      return n;
    }
    var pos := start;
    count := 0;
    var off, k := start % LEN, FirstBits(start, n);
    var val := Bit(bits[start / LEN], start % LEN);
    var initMask := Mask(off, k);
    if Diff(bits[pos / LEN], Pattern(initMask, val), initMask) == 0 {
      count := count + k;
      pos := pos + k;
    }
    var mask := Fill(val);
    while pos < size && bits[pos / LEN] ^ mask == 0 && count < n
      invariant ConsecutiveCount(m, size, start, n) == CountWords(m, size, pos, count, n, val)
      decreases size - pos
    {
      count := count + LEN;
      pos := pos + LEN;
    }
    while pos < size && Bit(bits[pos / LEN], pos % LEN) == val && count < n
      invariant ConsecutiveCount(m, size, start, n) == CountBits(m, size, pos, count, n, val)
      decreases size - pos
    {
      count := count + 1;
      pos := pos + 1;
    }
  }

  /** What a count promises: an exact run, cut short only by a different bit or the end. */
  ghost predicate Counted(m: seq<Word>, size: nat, start: nat, n: nat, c: nat)
    requires size <= |m| * LEN && start < size
  {
    && start + c <= size
    && Run(m, start, start + c, Get(m, start))
    && (c < n ==> start + c == size || Get(m, start + c) != Get(m, start))
  }

  lemma {:induction false} CountBitsCorrect(m: seq<Word>, size: nat, start: nat, pos: nat, n: nat)
    requires size <= |m| * LEN && start < size && start <= pos <= size
    requires Run(m, start, pos, Get(m, start))
    ensures Counted(m, size, start, n, CountBits(m, size, pos, pos - start, n, Get(m, start)))
    ensures CountBits(m, size, pos, pos - start, n, Get(m, start)) >= pos - start
    decreases size - pos
  {
    if pos < size && Get(m, pos) == Get(m, start) && pos - start < n {
      CountBitsCorrect(m, size, start, pos + 1, n);
    }
  }

  /** A word of equal bits prolongs a run. */
  lemma WholeWord(m: seq<Word>, start: nat, pos: nat, val: bool)
    requires start <= pos && pos % LEN == 0 && pos + LEN <= |m| * LEN && m[pos / LEN] ^ Fill(val) == 0
    requires Run(m, start, pos, val)
    ensures Run(m, start, pos + LEN, val)
  {
    hide Fill, Bit;
    WholeCompare(m[pos / LEN], val);
    forall i: nat | pos <= i < pos + LEN ensures Get(m, i) == val {
      assert i / LEN == pos / LEN && i % LEN == i - pos;
    }
  }

  /** From a word boundary, or with the count complete, whole words lie inside the bits. */
  lemma {:induction false} CountWordsCorrect(m: seq<Word>, size: nat, start: nat, pos: nat, n: nat)
    requires size <= |m| * LEN && size % LEN == 0 && start < size && start <= pos <= size
    requires Run(m, start, pos, Get(m, start))
    requires pos % LEN == 0 || n <= pos - start || m[pos / LEN] ^ Fill(Get(m, start)) != 0
    ensures Counted(m, size, start, n, CountWords(m, size, pos, pos - start, n, Get(m, start)))
    ensures CountWords(m, size, pos, pos - start, n, Get(m, start)) >= pos - start
    decreases size - pos
  {
    hide Fill, Get, Counted, CountBits, Run;
    var val := Get(m, start);
    if pos < size && m[pos / LEN] ^ Fill(val) == 0 && pos - start < n {
      WholeWord(m, start, pos, val);
      CountWordsCorrect(m, size, start, pos + LEN, n);
    } else {
      CountBitsCorrect(m, size, start, pos, n);
    }
  }

  /** On a map of whole words the count is the exact run length. */
  lemma CountConsecutiveCorrect(m: seq<Word>, size: nat, start: nat, n: nat)
    requires size <= |m| * LEN && size % LEN == 0 && start < size && 1 <= n
    ensures Counted(m, size, start, n, ConsecutiveCount(m, size, start, n))
    ensures 1 <= ConsecutiveCount(m, size, start, n)
  {
    hide Fill, Bit, Diff, Pattern, Mask;
    if n > 1 {
      var val := Get(m, start);
      var off, k := start % LEN, FirstBits(start, n);
      var w := m[start / LEN];
      MaskedCompare(w, off, k, val);
      if Diff(w, Pattern(Mask(off, k), val), Mask(off, k)) == 0 {
        forall i: nat | start <= i < start + k
          ensures Get(m, i) == val
        {
          assert i / LEN == start / LEN && i % LEN == off + (i - start);
        }
        CountWordsCorrect(m, size, start, start + k, n);
      } else {
        WholeCompare(w, val);
        var j :| off <= j < off + k && Bit(w, j) != val;
        CountWordsCorrect(m, size, start, start, n);
      }
    }
  }

  // ---- searching

  /** The nth position from i on whose bit is val, having seen count of them. */
  function NthFrom(m: seq<Word>, size: nat, nth: nat, i: nat, count: nat, val: bool): (r: Option<nat>)
    requires size <= |m| * LEN
    decreases size - i
  {
    if i >= size then None
    else if Get(m, i) != val then NthFrom(m, size, nth, i + 1, count, val)
    else if count + 1 == nth then Some(i)
    else NthFrom(m, size, nth, i + 1, count + 1, val)
  }

  method FindNth(bits: array<Word>, size: nat, nth: nat, start: nat, val: bool) returns (r: Option<nat>)
    requires size <= bits.Length * LEN
    ensures r == if size == 0 || nth == 0 then None else NthFrom(bits[..], size, nth, start, 0, val)
    ensures r.Some? ==>
      start <= r.value < size && Get(bits[..], r.value) == val && HowMany(bits[..], start, r.value, val) == nth - 1
    ensures r.None? && nth > 0 ==> HowMany(bits[..], start, size, val) < nth
  {
    hide HowMany;
    NthNone(bits[..], start, size, val);
    if nth > 0 { NthCorrect(bits[..], size, nth, start, 0, val); }
    if size <= 0 || nth <= 0 {
      return None;
    }
    var i, count := start, 0;
    while i < size
      invariant NthFrom(bits[..], size, nth, start, 0, val) == NthFrom(bits[..], size, nth, i, count, val)
      decreases size - i
    {
      if Bit(bits[i / LEN], i % LEN) == val {
        count := count + 1;
        if count == nth {
          return Some(i);
        }
      }
      i := i + 1;
    }
    return None;
  }

  /** How many bits of [i, k) have the value val. */
  ghost function HowMany(m: seq<Word>, i: nat, k: nat, val: bool): (c: nat)
    requires k <= |m| * LEN
    decreases k - i
  {
    if i >= k then 0 else (if Get(m, i) == val then 1 else 0) + HowMany(m, i + 1, k, val)
  }

  /** The result has the value, and exactly nth - 1 bits before it do; without one there are fewer than nth. */
  lemma {:induction false} NthCorrect(m: seq<Word>, size: nat, nth: nat, i: nat, count: nat, val: bool)
    requires size <= |m| * LEN && count < nth
    ensures match NthFrom(m, size, nth, i, count, val)
            case Some(k) => i <= k < size && Get(m, k) == val && count + HowMany(m, i, k, val) == nth - 1
            case None => count + HowMany(m, i, size, val) < nth
    decreases size - i
  {
    hide Get;
    if i < size {
      if Get(m, i) != val {
        NthCorrect(m, size, nth, i + 1, count, val);
      } else if count + 1 < nth {
        NthCorrect(m, size, nth, i + 1, count + 1, val);
      }
    }
  }

  lemma NthNone(m: seq<Word>, i: nat, k: nat, val: bool)
    requires k <= |m| * LEN
    ensures k <= i ==> HowMany(m, i, k, val) == 0
  {
  }

  /** The first bit with the wanted value. */
  lemma {:induction false} FirstCorrect(m: seq<Word>, size: nat, i: nat, val: bool)
    requires size <= |m| * LEN
    ensures match NthFrom(m, size, 1, i, 0, val)
            case Some(k) => i <= k < size && Get(m, k) == val && Run(m, i, k, !val)
            case None => i < size ==> Run(m, i, size, !val)
    decreases size - i
  {
    if i < size && Get(m, i) != val { FirstCorrect(m, size, i + 1, val); }
  }

  /** The words of the map and one more can be read. */
  ghost predicate Readable(m: seq<Word>, size: nat) {
    (size + LEN - 1) / LEN < |m|
  }

  lemma {:induction false} CountBitsBound(m: seq<Word>, size: nat, pos: nat, count: nat, n: nat, val: bool)
    requires size <= |m| * LEN
    ensures var c := CountBits(m, size, pos, count, n, val);
            && count <= c && (pos <= size ==> pos + (c - count) <= size)
            && (size <= pos ==> c == count)
            && (pos < size && count < n && Get(m, pos) == val ==> count < c)
    decreases size - pos
  {
    if pos < size { CountBitsBound(m, size, pos + 1, count + 1, n, val); }
  }

  lemma {:induction false} CountWordsBound(m: seq<Word>, size: nat, pos: nat, count: nat, n: nat, val: bool, top: nat)
    requires size <= top <= |m| * LEN && top % LEN == 0 && pos <= top
    requires pos % LEN == 0 || n <= count || m[pos / LEN] ^ Fill(val) != 0
    ensures var c := CountWords(m, size, pos, count, n, val);
            && count <= c && pos + (c - count) <= top
            && (pos < size && count < n && Get(m, pos) == val ==> count < c)
    decreases top - pos
  {
    hide Fill, Bit;
    if pos < size && m[pos / LEN] ^ Fill(val) == 0 && count < n {
      CountWordsBound(m, size, pos + LEN, count + LEN, n, val, top);
    } else {
      CountBitsBound(m, size, pos, count, n, val);
    }
  }

  /** For any size: a count moves on, and stays within the last word. */
  lemma CountBound(m: seq<Word>, size: nat, start: nat, n: nat)
    requires Readable(m, size) && start < size && 1 <= n
    ensures 1 <= ConsecutiveCount(m, size, start, n)
    ensures n > 1 ==> start + ConsecutiveCount(m, size, start, n) <= (size + LEN - 1) / LEN * LEN
  {
    hide Fill, Bit, Diff, Pattern, Mask;
    if n > 1 {
      var val := Get(m, start);
      var off, k := start % LEN, FirstBits(start, n);
      var w, top := m[start / LEN], (size + LEN - 1) / LEN * LEN;
      if Diff(w, Pattern(Mask(off, k), val), Mask(off, k)) == 0 {
        CountWordsBound(m, size, start + k, k, n, val, top);
      } else {
        MaskedCompare(w, off, k, val);
        WholeCompare(w, val);
        var j :| off <= j < off + k && Bit(w, j) != val;
        CountWordsBound(m, size, start, 0, n, val, top);
      }
    }
  }

  /** The search from a position i whose bit is the wanted one. */
  function SearchFrom(m: seq<Word>, size: nat, i: nat, n: nat): (r: Option<nat>)
    requires Readable(m, size) && 1 <= n
    decreases if i < size then size - i else 0
  {
    if i >= size then None
    else
      var c := ConsecutiveCount(m, size, i, n);
      CountBound(m, size, i, n);
      if c >= n then Some(i)
      else SearchFrom(m, size, i + c + ConsecutiveCount(m, size, i + c, SIZE_MAX), n)
  }

  /** Where the program finds n bits of value val. */
  function Search(m: seq<Word>, size: nat, start: nat, n: nat, val: bool): (r: Option<nat>)
    requires Readable(m, size) && 1 <= n
  {
    if size == 0 then None
    else
      match NthFrom(m, size, 1, start, 0, val)
      case None => None
      case Some(i) => SearchFrom(m, size, i, n)
  }

  method FindConsec(bits: array<Word>, size: nat, start: nat, n: nat, val: bool) returns (r: Option<nat>)
    requires Readable(bits[..], size) && 1 <= n
    ensures r == Search(bits[..], size, start, n, val)
  {
    hide Bit, ConsecutiveCount, NthFrom;
    var first := FindNth(bits, size, 1, start, val);
    if first.None? {
      return None;
    }
    var i := first.value;
    while i < size
      invariant SearchFrom(bits[..], size, i, n) == Search(bits[..], size, start, n, val)
      decreases size - i
    {
      CountBound(bits[..], size, i, n);
      var count := CountConsecutive(bits, size, i, n);
      if count < n {
        var more := CountConsecutive(bits, size, i + count, SIZE_MAX);
        i := i + count + more;
      } else {
        return Some(i);
      }
    }
    return None;
  }

  /** i is where n bits of value val start, inside the map. */
  ghost predicate Fits(m: seq<Word>, size: nat, i: nat, n: nat, val: bool)
    requires size <= |m| * LEN
  {
    i + n <= size && Run(m, i, i + n, val)
  }

  /** r is the first place from start on, or there is none. */
  ghost predicate IsFirstFit(m: seq<Word>, size: nat, start: nat, n: nat, val: bool, r: Option<nat>)
    requires size <= |m| * LEN
  {
    match r
    case Some(i) => start <= i && Fits(m, size, i, n, val) && forall j | start <= j < i :: !Fits(m, size, j, n, val)
    case None => forall j: nat | start <= j :: !Fits(m, size, j, n, val)
  }

  lemma {:induction false} SearchFromCorrect(m: seq<Word>, size: nat, start: nat, i: nat, n: nat, val: bool)
    requires Readable(m, size) && size % LEN == 0 && size < SIZE_MAX && 1 <= n && start <= i
    requires i < size ==> Get(m, i) == val
    requires forall j: nat | start <= j < i :: !Fits(m, size, j, n, val)
    ensures IsFirstFit(m, size, start, n, val, SearchFrom(m, size, i, n))
    decreases if i < size then size - i else 0
  {
    hide Bit, Get, ConsecutiveCount;
    if i < size {
      var c := ConsecutiveCount(m, size, i, n);
      CountBound(m, size, i, n);
      CountConsecutiveCorrect(m, size, i, n);
      if c < n {
        var j := i + c;
        forall q: nat | i <= q <= j && q < size
          ensures !Fits(m, size, q, n, val)
        {
          if j < size { assert Get(m, j) != val; }
        }
        var k := j + ConsecutiveCount(m, size, j, SIZE_MAX);
        if j < size {
          CountConsecutiveCorrect(m, size, j, SIZE_MAX);
          forall q: nat | j <= q < k
            ensures !Fits(m, size, q, n, val)
          {
            assert Get(m, q) != val;
          }
        }
        SearchFromCorrect(m, size, start, k, n, val);
      }
    }
  }

  /** On a map of whole words the search finds the first fit, or shows that there is none. */
  lemma SearchCorrect(m: seq<Word>, size: nat, start: nat, n: nat, val: bool)
    requires Readable(m, size) && size % LEN == 0 && size < SIZE_MAX && 1 <= n
    ensures IsFirstFit(m, size, start, n, val, Search(m, size, start, n, val))
  {
    hide Bit, Get;
    FirstCorrect(m, size, start, val);
    match NthFrom(m, size, 1, start, 0, val)
    case None =>
      forall j: nat | start <= j
        ensures !Fits(m, size, j, n, val)
      {
        if j < size { assert Get(m, j) != val; }
      }
    case Some(i) =>
      forall j: nat | start <= j < i
        ensures !Fits(m, size, j, n, val)
      {
        assert Get(m, j) != val;
      }
      SearchFromCorrect(m, size, start, i, n, val);
  }

  /** Two clear bits counted from the last position of a map that ends inside a word. */
  lemma OverrunAtEnd(m: seq<Word>, size: nat)
    requires Readable(m, size) && 0 < size && size % LEN != 0
    requires forall w | w in m :: w == 0
    ensures Search(m, size, size - 1, 2, false) == Some(size - 1)
  {
    hide Bit, Diff, Pattern, Mask;
    var start := size - 1;
    var w, off := m[start / LEN], start % LEN;
    assert w in m;
    forall k | 0 <= k < LEN ensures !Bit(w, k) { ConstantBits(k); }
    MaskedCompare(w, off, 2, false);
    assert FirstBits(start, 2) == 2;
  }

  /** The search is right on every map of a size exactly when the size is a number of whole words. */
  lemma SearchCorrectExactly(size: nat)
    requires 0 < size < SIZE_MAX
    ensures size % LEN == 0 <==>
            forall m: seq<Word>, start: nat, n: nat, val: bool | Readable(m, size) && 1 <= n ::
              IsFirstFit(m, size, start, n, val, Search(m, size, start, n, val))
  {
    hide Search, IsFirstFit;
    if size % LEN == 0 {
      forall m: seq<Word>, start: nat, n: nat, val: bool | Readable(m, size) && 1 <= n
        ensures IsFirstFit(m, size, start, n, val, Search(m, size, start, n, val))
      {
        SearchCorrect(m, size, start, n, val);
      }
    } else {
      var m: seq<Word> := seq((size + LEN - 1) / LEN + 1, _ => 0);
      OverrunAtEnd(m, size);
      NotAFit(m, size);
    }
  }

  lemma NotAFit(m: seq<Word>, size: nat)
    requires 0 < size <= |m| * LEN
    ensures !IsFirstFit(m, size, size - 1, 2, false, Some(size - 1))
  {
  }

  // ---- setting and clearing

  /** m' is m with the bits of [lo, hi) set to val. */
  ghost predicate Painted(m: seq<Word>, m': seq<Word>, lo: nat, hi: nat, val: bool) {
    && |m'| == |m|
    && forall p: nat | p < |m| * LEN :: Get(m', p) == if lo <= p < hi then val else Get(m, p)
  }

  /** One word changed, at the bits [off, off + len), extends a painted range. */
  lemma PaintWord(m: seq<Word>, now: seq<Word>, lo: nat, pos: nat, len: nat, w: Word, val: bool)
    requires Painted(m, now, lo, pos, val) && lo <= pos && pos / LEN < |m| && pos % LEN + len <= LEN
    requires forall k | 0 <= k < LEN ::
      Bit(w, k) == if pos % LEN <= k < pos % LEN + len then val else Bit(now[pos / LEN], k)
    ensures Painted(m, now[pos / LEN := w], lo, pos + len, val)
  {
    hide Bit;
    var next := now[pos / LEN := w];
    forall p: nat | p < |m| * LEN
      ensures Get(next, p) == if lo <= p < pos + len then val else Get(m, p)
    {
      assert Get(now, p) == if lo <= p < pos then val else Get(m, p);
      if p / LEN == pos / LEN {
        assert Get(next, p) == Bit(w, p % LEN);
      }
    }
  }

  method Set(bits: array<Word>, p: nat)
    requires p / LEN < bits.Length
    modifies bits
    ensures Painted(old(bits[..]), bits[..], p, p + 1, true)
  {
    hide Bit, Single, Or;
    var w := Or(bits[p / LEN], Single(p % LEN));
    forall k | 0 <= k < LEN
      ensures Bit(w, k) == if p % LEN <= k < p % LEN + 1 then true else Bit(bits[p / LEN], k)
    {
      OrBit(bits[p / LEN], Single(p % LEN), k);
      SingleBit(p % LEN, k);
    }
    PaintWord(bits[..], bits[..], p, p, 1, w, true);
    bits[p / LEN] := w;
  }

  method Clear(bits: array<Word>, p: nat)
    requires p / LEN < bits.Length
    modifies bits
    ensures Painted(old(bits[..]), bits[..], p, p + 1, false)
  {
    hide Bit, Single, AndNot;
    var w := AndNot(bits[p / LEN], Single(p % LEN));
    forall k | 0 <= k < LEN
      ensures Bit(w, k) == if p % LEN <= k < p % LEN + 1 then false else Bit(bits[p / LEN], k)
    {
      AndNotBit(bits[p / LEN], Single(p % LEN), k);
      SingleBit(p % LEN, k);
    }
    PaintWord(bits[..], bits[..], p, p, 1, w, false);
    bits[p / LEN] := w;
  }

  method ClearConsecutive(bits: array<Word>, start: nat, n: nat)
    requires start + n <= bits.Length * LEN
    modifies bits
    ensures Painted(old(bits[..]), bits[..], start, start + n, false)
  {
    hide Bit, Get;
    var i := 0;
    while i < n
      invariant 0 <= i <= n
      invariant Painted(old(bits[..]), bits[..], start, start + i, false)
    {
      Clear(bits, start + i);
      i := i + 1;
    }
  }

  function OrAt(m: seq<Word>, i: nat, w: Word): (r: seq<Word>)
    requires i < |m|
    ensures |r| == |m|
  {
    m[i := Or(m[i], w)]
  }

  method OrInto(bits: array<Word>, i: nat, w: Word)
    requires i < bits.Length
    modifies bits
    ensures bits[..] == OrAt(old(bits[..]), i, w)
  {
    hide Or;
    bits[i] := Or(bits[i], w);
  }

  /** Sets n bits: the rest of the first word, whole words, the start of the last one. */
  method SetConsecutive(bits: array<Word>, start: nat, n: nat)
    requires 1 <= n && start + n <= bits.Length * LEN
    modifies bits
    ensures Painted(old(bits[..]), bits[..], start, start + n, true)
  {
    hide Bit, Mask, Painted, OrAt, FirstBits;
    ghost var m := bits[..];
    var pos, count := start, n;
    var first := FirstBits(start, count);
    PaintNone(m, start);
    Fill1(m, bits[..], start, pos, first);
    OrInto(bits, pos / LEN, Mask(start % LEN, first));
    pos := pos + first;
    count := count - first;
    while count >= LEN
      invariant 0 <= count && pos + count == start + n && start <= pos
      invariant count == 0 || pos % LEN == 0
      invariant Painted(m, bits[..], start, pos, true)
    {
      FillWord(m, bits[..], start, pos);
      OrInto(bits, pos / LEN, ONES);
      pos := pos + LEN;
      count := count - LEN;
    }
    if count > 0 {
      Fill1(m, bits[..], start, pos, count);
      OrInto(bits, pos / LEN, Mask(0, count));
    }
  }

  lemma PaintNone(m: seq<Word>, p: nat)
    ensures Painted(m, m, p, p, true)
  {
  }

  lemma Fill1(m: seq<Word>, now: seq<Word>, lo: nat, pos: nat, len: nat)
    requires Painted(m, now, lo, pos, true) && lo <= pos && pos / LEN < |m| && 1 <= len && pos % LEN + len <= LEN
    ensures |now| == |m|
    ensures Painted(m, OrAt(now, pos / LEN, Mask(pos % LEN, len)), lo, pos + len, true)
  {
    hide Bit, Mask, Or;
    var w, mask := now[pos / LEN], Mask(pos % LEN, len);
    var next := Or(w, mask);
    forall k | 0 <= k < LEN
      ensures Bit(next, k) == if pos % LEN <= k < pos % LEN + len then true else Bit(w, k)
    {
      OrBit(w, mask, k);
      MaskBit(pos % LEN, len, k);
    }
    PaintWord(m, now, lo, pos, len, next, true);
  }

  lemma FillWord(m: seq<Word>, now: seq<Word>, lo: nat, pos: nat)
    requires Painted(m, now, lo, pos, true) && lo <= pos && pos / LEN < |m| && pos % LEN == 0
    ensures |now| == |m|
    ensures Painted(m, OrAt(now, pos / LEN, ONES), lo, pos + LEN, true)
  {
    hide Bit, Or;
    var w := now[pos / LEN];
    var next := Or(w, ONES);
    forall k | 0 <= k < LEN
      ensures Bit(next, k)
    {
      OrBit(w, ONES, k);
      ConstantBits(k);
    }
    PaintWord(m, now, lo, pos, LEN, next, true);
  }
}
