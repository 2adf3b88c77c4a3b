/** Single bits and bit masks of the 32-bit words that a bitmap is made of. */
module Granule {

  type Word = bv32
  const LEN: nat := 32
  const ONES: Word := 0xffff_ffff

  /** Shift counts as the machine sees them. */
  function Count(n: nat): bv6
    requires n <= LEN
  {
    n as bv6
  }

  lemma CountValue(n: nat)
    requires n <= LEN
    ensures Count(n) as int == n
  {
  }

  lemma BackAndForth(x: bv6)
    ensures (x as int) as bv6 == x
  {
  }

  lemma Increment(x: bv6)
    requires x < 63
    ensures (x + 1) as int == x as int + 1
  {
  }

  lemma CountNext(n: nat)
    requires n < LEN
    ensures Count(n + 1) == Count(n) + 1
  {
    CountValue(n);
    CountValue(n + 1);
    Increment(Count(n));
    BackAndForth(Count(n) + 1);
    BackAndForth(Count(n + 1));
  }

  lemma {:induction false} CountAdd(a: nat, b: nat)
    requires a + b <= LEN
    ensures Count(a + b) == Count(a) + Count(b)
    decreases b
  {
    hide Count;
    CountConstants();
    if b > 0 {
      CountAdd(a, b - 1);
      CountNext(a + b - 1);
      CountNext(b - 1);
    }
  }

  lemma CountOrder(a: nat, b: nat)
    requires a <= LEN && b <= LEN
    ensures a <= b <==> Count(a) <= Count(b)
  {
    CountValue(a);
    CountValue(b);
  }

  lemma CountConstants()
    ensures Count(0) == 0 && Count(1) == 1 && Count(31) == 31 && Count(32) == 32
  {
  }

  function OneBit(k: bv6): Word
    requires k < 32
  {
    1 << k
  }

  predicate BitAt(w: Word, k: bv6)
    requires k < 32
  {
    Touches(w, OneBit(k))
  }

  predicate Touches(w: Word, b: Word) {
    w & b != 0
  }

  function MaskAt(off: bv6, len: bv6): Word
    requires off < 32 && 1 <= len <= 32
  {
    (((1 << (len - 1)) << 1) - 1) << off
  }

  lemma MaskAtBit(off: bv6, len: bv6, k: bv6)
    requires off < 32 && 1 <= len <= 32 && off + len <= 32 && k < 32
    ensures BitAt(MaskAt(off, len), k) <==> off <= k < off + len
  {
  }

  lemma AndAt(x: Word, y: Word, k: bv6)
    requires k < 32
    ensures BitAt(x & y, k) <==> BitAt(x, k) && BitAt(y, k)
  {
  }

  lemma OrAt(x: Word, y: Word, k: bv6)
    requires k < 32
    ensures BitAt(x | y, k) <==> BitAt(x, k) || BitAt(y, k)
  {
    hide OneBit, Touches;
    OrMasked(x, y, OneBit(k));
  }

  lemma OrMasked(x: Word, y: Word, b: Word)
    ensures Touches(x | y, b) <==> Touches(x, b) || Touches(y, b)
  {
    assert (x | y) & b == (x & b) | (y & b);
  }

  lemma XorAt(x: Word, y: Word, k: bv6)
    requires k < 32
    ensures BitAt(x ^ y, k) <==> (BitAt(x, k) != BitAt(y, k))
  {
  }

  lemma NotAt(x: Word, k: bv6)
    requires k < 32
    ensures BitAt(!x, k) <==> !BitAt(x, k)
  {
  }

  lemma NextAt(x: Word, k: bv6)
    requires k < 31 && x >> k != 0 && !BitAt(x, k)
    ensures x >> (k + 1) != 0
  {
  }

  lemma TopAt(x: Word)
    requires x >> 31 != 0
    ensures BitAt(x, 31)
  {
  }

  lemma ConstantsAt(k: bv6)
    requires k < 32
    ensures BitAt(ONES, k) && !BitAt(0, k)
  {
  }

  // ---- the same with natural numbers for positions

  lemma CountBelow(k: nat)
    requires k < LEN
    ensures Count(k) < 32
  {
    CountOrder(k, 31);
    CountConstants();
  }

  predicate Bit(w: Word, k: nat)
    requires k < LEN
  {
    CountBelow(k);
    BitAt(w, Count(k))
  }

  /** len ones from bit off upwards. */
  function Mask(off: nat, len: nat): Word
    requires 1 <= len && off + len <= LEN
  {
    CountBelow(off);
    CountOrder(len, 32);
    CountOrder(1, len);
    CountConstants();
    MaskAt(Count(off), Count(len))
  }

  lemma MaskBit(off: nat, len: nat, k: nat)
    requires 1 <= len && off + len <= LEN && k < LEN
    ensures Bit(Mask(off, len), k) <==> off <= k < off + len
  {
    hide Count, BitAt, MaskAt;
    CountConstants();
    CountBelow(off);
    CountBelow(k);
    CountAdd(off, len);
    CountOrder(off, k);
    CountOrder(off + len, k);
    CountOrder(len, 32);
    CountOrder(1, len);
    CountOrder(off + len, 32);
    MaskAtBit(Count(off), Count(len), Count(k));
  }

  function Or(x: Word, y: Word): Word {
    x | y
  }

  lemma OrBit(x: Word, y: Word, k: nat)
    requires k < LEN
    ensures Bit(Or(x, y), k) <==> Bit(x, k) || Bit(y, k)
  {
    hide Count, BitAt;
    CountBelow(k);
    OrAt(x, y, Count(k));
  }

  function Not(x: Word): Word {
    !x
  }

  function And(x: Word, y: Word): Word {
    x & y
  }

  lemma NotBit(x: Word, k: nat)
    requires k < LEN
    ensures Bit(Not(x), k) <==> !Bit(x, k)
  {
    hide Count, BitAt;
    CountBelow(k);
    NotAt(x, Count(k));
  }

  lemma AndBit(x: Word, y: Word, k: nat)
    requires k < LEN
    ensures Bit(And(x, y), k) <==> Bit(x, k) && Bit(y, k)
  {
    hide Count, BitAt;
    CountBelow(k);
    AndAt(x, y, Count(k));
  }

  function AndNot(x: Word, y: Word): Word {
    And(x, Not(y))
  }

  lemma AndNotBit(x: Word, y: Word, k: nat)
    requires k < LEN
    ensures Bit(AndNot(x, y), k) <==> Bit(x, k) && !Bit(y, k)
  {
    hide Bit, And, Not;
    AndBit(x, Not(y), k);
    NotBit(y, k);
  }

  lemma ConstantBits(k: nat)
    requires k < LEN
    ensures !Bit(0, k) && Bit(ONES, k)
  {
    hide Count, BitAt;
    CountBelow(k);
    ConstantsAt(Count(k));
  }

  /** The masked bits in which w differs from p. */
  function Diff(w: Word, p: Word, m: Word): Word {
    (w ^ p) & m
  }

  lemma DiffBit(w: Word, p: Word, m: Word, k: nat)
    requires k < LEN
    ensures Bit(Diff(w, p, m), k) <==> Bit(w, k) != Bit(p, k) && Bit(m, k)
  {
    hide Count, BitAt;
    CountBelow(k);
    XorAt(w, p, Count(k));
    AndAt(w ^ p, m, Count(k));
  }

  /** A word that is not zero has a bit set. */
  lemma {:induction false} SomeBit(x: Word, from: nat) returns (k: nat)
    requires from < LEN && x >> Count(from) != 0
    ensures k < LEN && Bit(x, k)
    decreases LEN - from
  {
    hide Count, BitAt;
    CountConstants();
    CountBelow(from);
    if from == 31 {
      TopAt(x);
      k := 31;
    } else if Bit(x, from) {
      k := from;
    } else {
      CountNext(from);
      CountBelow(from + 1);
      CountOrder(from + 1, 31);
      NextAt(x, Count(from));
      k := SomeBit(x, from + 1);
    }
  }

  lemma NonZeroBit(x: Word) returns (k: nat)
    requires x != 0
    ensures k < LEN && Bit(x, k)
  {
    hide Bit;
    CountConstants();
    k := SomeBit(x, 0);
  }

  lemma ZeroBits(x: Word, k: nat)
    requires x == 0 && k < LEN
    ensures !Bit(x, k)
  {
    ConstantBits(k);
  }

  /** What the first word is compared with. */
  function Pattern(m: Word, val: bool): Word {
    if val then m else !m
  }

  lemma PatternBit(m: Word, val: bool, k: nat)
    requires k < LEN && Bit(m, k)
    ensures Bit(Pattern(m, val), k) == val
  {
    hide Bit;
    NotBit(m, k);
  }

  /** The masked comparison of the first word is a comparison of the masked bits. */
  lemma MaskedCompare(w: Word, off: nat, len: nat, val: bool)
    requires 1 <= len && off + len <= LEN
    ensures var m := Mask(off, len);
            Diff(w, Pattern(m, val), m) == 0 <==> forall k | off <= k < off + len :: Bit(w, k) == val
  {
    hide Bit, Mask, Diff, Pattern;
    var m := Mask(off, len);
    var p := Pattern(m, val);
    if Diff(w, p, m) != 0 {
      var k := NonZeroBit(Diff(w, p, m));
      DiffBit(w, p, m, k);
      MaskBit(off, len, k);
      PatternBit(m, val, k);
    } else {
      forall k | off <= k < off + len
        ensures Bit(w, k) == val
      {
        DiffBit(w, p, m, k);
        MaskBit(off, len, k);
        PatternBit(m, val, k);
        ZeroBits(Diff(w, p, m), k);
      }
    }
  }

  /** What a whole word is compared with. */
  function Fill(val: bool): Word {
    if val then ONES else 0
  }

  /** The comparison of a whole word is a comparison of its bits. */
  lemma WholeCompare(w: Word, val: bool)
    ensures w ^ Fill(val) == 0 <==> forall k | 0 <= k < LEN :: Bit(w, k) == val
  {
    hide Bit, Fill, Diff;
    var x := Diff(w, Fill(val), ONES);
    WholeDiff(w, Fill(val));
    if x != 0 {
      var k := NonZeroBit(x);
      DiffBit(w, Fill(val), ONES, k);
      FillBit(val, k);
    } else {
      forall k | 0 <= k < LEN
        ensures Bit(w, k) == val
      {
        DiffBit(w, Fill(val), ONES, k);
        ZeroBits(x, k);
        ConstantBits(k);
        FillBit(val, k);
      }
    }
  }

  lemma WholeDiff(w: Word, p: Word)
    ensures Diff(w, p, ONES) == w ^ p
  {
  }

  lemma FillBit(val: bool, k: nat)
    requires k < LEN
    ensures Bit(Fill(val), k) == val
  {
    ConstantBits(k);
  }

  /** 1 << k */
  function Single(k: nat): Word
    requires k < LEN
  {
    CountBelow(k);
    OneBit(Count(k))
  }

  lemma OneBitAt(k: bv6, j: bv6)
    requires k < 32 && j < 32
    ensures BitAt(OneBit(k), j) <==> j == k
  {
  }

  lemma SingleBit(k: nat, j: nat)
    requires k < LEN && j < LEN
    ensures Bit(Single(k), j) <==> j == k
  {
    hide Count, BitAt, OneBit;
    CountBelow(k);
    CountBelow(j);
    CountOrder(k, j);
    CountOrder(j, k);
    OneBitAt(Count(k), Count(j));
  }
}
