/**
 Blocks with a property whose size wraps around in 32-bit arithmetic: what the full check makes of
 them, which no reading of the format accepts, and which walks come to such a property.
 */
module FdtWrap {
  import opened Basics
  import opened FdtFormat
  import opened FdtNodes
  import opened FdtCheck
  import opened FdtTree
  import opened FdtProps
  import opened FdtForest
  import opened FdtRooted

  /** A root with one property of that length, whose name offset is at once the tag that closes the root. */
  function Sample(len: nat): (s: Bytes)
    requires len < LIMIT32
    ensures |s| == 24
  {
    Be32(BEGIN_NODE) + Be32(0) + Be32(PROP) + Be32(len) + Be32(END_NODE) + Be32(END)
  }

  /** The strings a, b, c in a row, so that c is at offset 2. */
  const ABC: Bytes := [97, 98, 99, 0]

  lemma SampleWords(len: nat)
    requires len < LIMIT32
    ensures var s := Sample(len);
            && U32(s[0..4]) == BEGIN_NODE && U32(s[4..8]) == 0 && U32(s[8..12]) == PROP
            && U32(s[12..16]) == len && U32(s[16..20]) == END_NODE && U32(s[20..24]) == END
  {
    hide U32, Be32;
    var s := Sample(len);
    assert s[0..4] == Be32(BEGIN_NODE) && s[4..8] == Be32(0) && s[8..12] == Be32(PROP);
    assert s[12..16] == Be32(len) && s[16..20] == Be32(END_NODE) && s[20..24] == Be32(END);
    ReadBe32(BEGIN_NODE);
    ReadBe32(0);
    ReadBe32(PROP);
    ReadBe32(len);
    ReadBe32(END_NODE);
    ReadBe32(END);
  }

  lemma SampleRoot(len: nat)
    requires len < LIMIT32
    ensures TagAt(Sample(len), 0) == (BEGIN_NODE, 8) && First(Sample(len)[0..]).token == Begin([])
  {
    hide U32, Sample, NulFrom;
    SampleWords(len);
    var s := Sample(len);
    FirstAt(s, 0);
    NulAt(s, len);
    assert s[4..4] == [];
  }

  lemma NulAt(s: Bytes, len: nat)
    requires len < LIMIT32 && s == Sample(len)
    ensures NulFrom(s, 4) == 4
  {
    assert s[4..8] == Be32(0);
    assert s[4] == s[4..8][0];
  }

  lemma SampleEnds(len: nat)
    requires len < LIMIT32
    ensures TagAt(Sample(len), 16) == (END_NODE, 20) && TagAt(Sample(len), 20) == (END, 24)
  {
    hide U32, Sample, NulFrom;
    SampleWords(len);
    FirstAt(Sample(len), 16);
    FirstAt(Sample(len), 20);
  }

  lemma NameOfC()
    ensures StringAt(ABC, 2) == Some([99])
  {
    assert NulFrom(ABC, 2) == 3;
    assert ABC[2..3] == [99];
  }

  /** A length from 2^32 - 12 on is not a tag. */
  lemma SampleMiddle(len: nat)
    requires LIMIT32 - 12 <= len < LIMIT32
    ensures Wraps(Sample(len), 8) && ProgramTag(Sample(len), 8) == (PROP, 8 + Align4(12 + len - LIMIT32))
    ensures !Wraps(Sample(len), 12) && TagAt(Sample(len), 12) == (END, -ERR_BADSTRUCTURE)
  {
    hide U32, Sample, NulFrom;
    SampleWords(len);
    var s := Sample(len);
    WrapsExactly(s, 8);
    WrapsExactly(s, 12);
    FirstAt(s, 12);
    AlignShift(8, 12 + len - LIMIT32);
  }

  /**
   The full check never ends on the sample with length 2^32 - 12, and accepts it with the lengths from
   2^32 - 7 to 2^32 - 4, although no sample with such a length can be read.
   */
  lemma SampleVerdict(len: nat)
    requires LIMIT32 - 12 <= len < LIMIT32
    ensures VerdictOf(Sample(len), ABC, 0, 0, false) ==
            if len == LIMIT32 - 12 then Endless
            else if LIMIT32 - 7 <= len <= LIMIT32 - 4 then Accepted
            else Refused
    ensures !Sound(Sample(len), ABC)
  {
    hide Sample, First, TagAt, U32, StringAt, Sound, Straight, Align4;
    var s := Sample(len);
    SampleWords(len);
    SampleRoot(len);
    SampleMiddle(len);
    SampleEnds(len);
    NameOfC();
    Rounded(12 + len - LIMIT32);
    SampleSteps(s, 8 + Align4(12 + len - LIMIT32));
    NotStraight(s);
    if Sound(s, ABC) {
      SoundReads(s, ABC);
    }
  }

  lemma Rounded(n: nat)
    requires n < 12
    ensures Align4(n) == if n == 0 then 0 else if n <= 4 then 4 else if n <= 8 then 8 else 12
  {
  }

  /** The verdict from behind the root's tag on. */
  lemma SampleSteps(s: Bytes, next: nat)
    requires |s| == 24 && TagAt(s, 0) == (BEGIN_NODE, 8) && First(s[0..]).token == Begin([])
    requires Wraps(s, 8) && ProgramTag(s, 8) == (PROP, next) && StringAt(ABC, U32(s[16..20])).Some?
    requires TagAt(s, 12) == (END, -ERR_BADSTRUCTURE)
    requires TagAt(s, 16) == (END_NODE, 20) && TagAt(s, 20) == (END, 24)
    requires next == 8 || next == 12 || next == 16 || next == 20
    ensures VerdictOf(s, ABC, 0, 0, false) == if next == 8 then Endless else if next == 16 then Accepted else Refused
  {
    hide First, TagAt, U32, StringAt;
    assert VerdictOf(s, ABC, 20, 0, true) == Accepted;
    assert VerdictOf(s, ABC, 20, 1, false) == Refused;
    assert VerdictOf(s, ABC, 16, 1, false) == Accepted;
    assert VerdictOf(s, ABC, 12, 1, false) == Refused;
    assert VerdictOf(s, ABC, 8, 1, false) == if next == 8 then Endless else VerdictOf(s, ABC, next, 1, false);
  }

  lemma NotStraight(s: Bytes)
    requires TagAt(s, 0) == (BEGIN_NODE, 8) && Wraps(s, 8)
    ensures !Straight(s, 0)
  {
    hide TagAt;
  }

  lemma SoundReads(s: Bytes, strings: Bytes)
    requires Sound(s, strings)
    ensures Straight(s, 0)
  {
    hide Straight, OneRoot;
    assert s[0..] == s;
    ReadIsStraight(s, strings, 0);
  }

  /** The check ends, with the right answer, if and only if it refuses the block or its walk is straight. */
  lemma AcceptedExactly(s: Bytes, strings: Bytes)
    ensures var v := VerdictOf(s, strings, 0, 0, false);
            v == (if Sound(s, strings) then Accepted else Refused) <==> v.Refused? || Straight(s, 0)
  {
    hide Sound, Straight, VerdictOf, Checked;
    VerdictIsChecked(s, strings, 0, 0, false);
    CheckedIsSound(s, strings);
    if Sound(s, strings) {
      SoundReads(s, strings);
    }
  }

  // ---- the walks

  /** No walk goes astray in a straight block. */
  lemma {:induction false} StraightWalks(s: Bytes, strings: Bytes, off: int, d: nat, name: Bytes)
    requires Straight(s, off)
    ensures CloseFrom(s, off, d) != ASTRAY && NodeFrom(s, off, d).0 != ASTRAY && KidFrom(s, off, d) != ASTRAY
    ensures NextPropFrom(s, off) != ASTRAY && PropFrom(s, strings, off, name) != ASTRAY
    ensures SubFrom(s, off, d, name) != ASTRAY && BeginFrom(s, off) != ASTRAY
    decreases |s| - off
  {
    hide First, TagAt, NamedAt, MatchAt;
    TagStep(s, off);
    var (tag, next) := TagAt(s, off);
    if tag != END {
      var deeper := if tag == BEGIN_NODE then d + 1 else if tag == END_NODE && d > 0 then d - 1 else d;
      StraightWalks(s, strings, next, deeper, name);
    }
  }

  /** The walk over all nodes goes astray exactly in the other blocks. */
  lemma {:induction false} StraightExactly(s: Bytes, off: int)
    ensures LastCode(s, off) == ASTRAY <==> !Straight(s, off)
    decreases |s| - off
  {
    hide First, TagAt;
    TagStep(s, off);
    var (tag, next) := TagAt(s, off);
    if tag != END {
      StraightExactly(s, next);
    }
  }
}
