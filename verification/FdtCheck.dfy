/**
 The full check of a finished blob.
 */
module FdtCheck {
  import opened Basics
  import opened FdtFormat
  import opened FdtBlob
  import opened FdtNodes

  // ---- what is accepted

  /** The checker's automaton over tokens: nodes open, and whether the root has been closed. */
  ghost predicate Nested(ts: seq<Token>, depth: nat, done: bool) {
    if ts == [] then depth == 0
    else
      && !done
      && match ts[0]
         case Begin(name) => (depth == 0 ==> name == []) && Nested(ts[1..], depth + 1, false)
         case Finish => depth > 0 && Nested(ts[1..], depth - 1, depth == 1)
         case End => false
         case _ => Nested(ts[1..], depth, false)
  }

  ghost predicate NoEnd(ts: seq<Token>) {
    forall t | t in ts :: !t.End?
  }

  /** At most one root, without a name and with nothing behind it. */
  ghost predicate OneRoot(ts: seq<Token>) {
    exists i :: RootAt(ts, i)
  }

  /** The root starts at place i, or nothing does. */
  ghost predicate RootAt(ts: seq<Token>, i: nat) {
    && i <= |ts|
    && (forall j | 0 <= j < i :: ts[j].Nop? || ts[j].Property?)
    && (i < |ts| ==> ts[i] == Begin([]) && IsNode(ts[i..]))
  }

  lemma RootBehind(t: Token, rest: seq<Token>, i: nat)
    requires t.Nop? || t.Property?
    ensures RootAt(rest, i) <==> RootAt([t] + rest, i + 1)
  {
    hide IsNode;
    var ts := [t] + rest;
    if i <= |rest| {
      assert ts[i + 1..] == rest[i..];
      assert forall j | 0 <= j < i :: ts[j + 1] == rest[j];
    }
  }

  lemma {:induction false} NestedCloses(ts: seq<Token>, depth: nat)
    requires depth > 0 && NoEnd(ts)
    ensures Nested(ts, depth, false) <==> Closes(ts, depth - 1)
    decreases |ts|
  {
    hide Closes;
    if ts == [] {
      ClosesNone(ts, depth - 1);
    } else {
      var t, rest := ts[0], ts[1..];
      assert ts == [t] + rest;
      assert NoEnd(rest) by { assert forall x | x in rest :: x in ts; }
      if t.Finish? && depth == 1 {
        ClosesNow(t);
        if rest == [] {
          assert [t] + rest == [t];
        } else {
          ClosesOnce([t], rest, 0);
        }
      } else {
        NestedCloses(rest, depth + Level(t));
        if rest == [] {
          ClosesNone(rest, depth - 1 + Level(t));
          ClosesNot(t, depth - 1);
          assert [t] + rest == [t];
        } else {
          ClosesFront(t, rest, depth - 1);
        }
      }
    }
  }

  lemma ClosesNone(ts: seq<Token>, d: int)
    requires ts == []
    ensures !Closes(ts, d)
  {
  }

  lemma ClosesNot(t: Token, d: int)
    requires d + Level(t) >= 0
    ensures !Closes([t], d)
  {
    RiseFront(t, []);
    assert [t] + [] == [t];
  }

  /** The automaton accepts exactly the runs with at most one root. */
  lemma {:induction false} NestedIsOneRoot(ts: seq<Token>)
    requires NoEnd(ts)
    ensures Nested(ts, 0, false) <==> OneRoot(ts)
    decreases |ts|
  {
    hide RootAt;
    if ts == [] {
      RootNone(ts);
    } else {
      var t, rest := ts[0], ts[1..];
      assert ts == [t] + rest;
      assert NoEnd(rest) by { assert forall x | x in rest :: x in ts; }
      if t.Begin? || t.Finish? {
        RootHere(ts);
        NestedCloses(rest, 1);
      } else {
        NestedIsOneRoot(rest);
        forall i: nat ensures RootAt(rest, i) <==> RootAt(ts, i + 1) {
          RootBehind(t, rest, i);
        }
        if OneRoot(ts) {
          var i: nat :| RootAt(ts, i);
          RootLater(ts, i);
          assert RootAt(rest, i - 1);
        }
      }
    }
  }

  lemma RootNone(ts: seq<Token>)
    requires ts == []
    ensures RootAt(ts, 0)
  {
  }

  lemma RootLater(ts: seq<Token>, i: nat)
    requires ts != [] && !ts[0].Begin? && RootAt(ts, i)
    ensures i > 0
  {
  }

  lemma RootHere(ts: seq<Token>)
    requires ts != [] && (ts[0].Begin? || ts[0].Finish?)
    ensures OneRoot(ts) <==> ts[0] == Begin([]) && Closes(ts[1..], 0)
  {
    hide IsNode;
    NodeOf(ts[0], ts);
    assert ts[0..] == ts;
    assert RootAt(ts, 0) <==> ts[0] == Begin([]) && IsNode(ts);
    var t := ts[0];
    assert forall i: nat | RootAt(ts, i) :: i == 0;
  }

  lemma NodeOf(t: Token, ts: seq<Token>)
    requires ts != [] && t == ts[0]
    ensures IsNode(ts) <==> t.Begin? && Closes(ts[1..], 0)
  {
    if Closes(ts[1..], 0) {
      ClosesSome(ts[1..], 0);
    }
  }

  /** What the full check demands of the structure and strings blocks. */
  ghost predicate Sound(s: Bytes, strings: Bytes) {
    Events(s, strings).Some? && OneRoot(Walk(s).value)
  }

  // ---- the check, tag by tag

  ghost predicate Checked(s: Bytes, strings: Bytes, off: nat, depth: nat, done: bool) {
    off <= |s| && Events(s[off..], strings).Some? && Nested(Walk(s[off..]).value, depth, done)
  }

  lemma CheckedStep(s: Bytes, strings: Bytes, off: nat, depth: nat, done: bool)
    requires off % 4 == 0 && TagAt(s, off).0 != END
    ensures var t := First(s[off..]).token; var next := TagAt(s, off).1;
            next >= 0 && (Checked(s, strings, off, depth, done) <==>
               && !done && MeaningOf(t, strings).Some?
               && (t.Begin? && depth == 0 ==> t.name == [])
               && (t.Finish? ==> depth > 0)
               && Checked(s, strings, next, depth + Level(t), t.Finish? && depth == 1))
  {
    hide First, Align4, Meaning, StringAt;
    TagFacts(s, off);
    var t, next := First(s[off..]).token, TagAt(s, off).1;
    if next <= |s| {
      assert s[off..][next - off..] == s[next..];
      if Walk(s[next..]).Some? {
        var ts := Walk(s[next..]).value;
        assert ([t] + ts)[1..] == ts;
        MeaningAppend([t], ts, strings);
        MeaningOne(t, strings);
      }
    }
  }

  lemma CheckedEnd(s: Bytes, strings: Bytes, off: nat, depth: nat, done: bool)
    requires TagAt(s, off).0 == END
    ensures Checked(s, strings, off, depth, done) <==> TagAt(s, off).1 >= 0 && depth == 0
  {
    if TagAt(s, off).1 >= 0 {
      MeaningNone(strings);
    }
  }

  // ---- the check as it is done

  /** What the check comes to: it may also never end, or read a name offset from behind the block. */
  datatype Verdict = Accepted | Refused | Endless | Behind

  ghost function VerdictOf(s: Bytes, strings: Bytes, off: nat, depth: nat, done: bool): Verdict
    decreases |s| - off
  {
    ProgramStep(s, off);
    var (tag, next) := ProgramTag(s, off);
    if tag == END then (if next >= 0 && depth == 0 then Accepted else Refused)
    else if done then Refused
    else if tag == BEGIN_NODE then
      if depth == 0 && First(s[off..]).token != Begin([]) then Refused
      else VerdictOf(s, strings, next, depth + 1, false)
    else if tag == END_NODE then
      if depth == 0 then Refused else VerdictOf(s, strings, next, depth - 1, depth == 1)
    else if tag == NOP then VerdictOf(s, strings, next, depth, false)
    else if off + 12 > |s| then Behind
    else if StringAt(strings, U32(s[off + 8..off + 12])).None? then Refused
    else if next == off then Endless
    else VerdictOf(s, strings, next, depth, false)
  }

  lemma ProgramStep(s: Bytes, off: int)
    ensures var (tag, next) := ProgramTag(s, off);
            tag != END ==>
              && 0 <= off < |s| && off <= next && (tag != PROP ==> off < next)
              && (tag == PROP ==> off + 8 <= |s|)
              && (tag == BEGIN_NODE ==> First(s[off..]).Lex? && First(s[off..]).token.Begin?)
  {
    if !Wraps(s, off) {
      TagStep(s, off);
    }
  }

  /** No tag that the walk from off on comes to wraps around. */
  ghost predicate Straight(s: Bytes, off: int)
    decreases |s| - off
  {
    !Wraps(s, off) && (TagAt(s, off).0 != END ==> Straight(s, TagAt(s, off).1))
  }

  /** A block that can be read to its end is straight. */
  lemma {:induction false} ReadIsStraight(s: Bytes, strings: Bytes, off: nat)
    requires off % 4 == 0 && off <= |s| && Events(s[off..], strings).Some?
    ensures Straight(s, off)
    decreases |s| - off
  {
    hide First, Align4, Meaning, MeaningOf, StringAt;
    if TagAt(s, off).0 == END {
      CheckedEnd(s, strings, off, 0, false);
      NotAstray(s, strings, off);
    } else {
      TagFacts(s, off);
      ReadOn(s, strings, off);
      ReadIsStraight(s, strings, TagAt(s, off).1);
    }
  }

  lemma NotAstray(s: Bytes, strings: Bytes, off: nat)
    requires off % 4 == 0 && off <= |s| && Events(s[off..], strings).Some? && TagAt(s, off).0 == END
    ensures !Wraps(s, off)
  {
  }

  lemma ReadOn(s: Bytes, strings: Bytes, off: nat)
    requires off % 4 == 0 && off <= |s| && Events(s[off..], strings).Some? && TagAt(s, off).0 != END
    ensures 0 <= TagAt(s, off).1 <= |s| && Events(s[TagAt(s, off).1..], strings).Some?
  {
    hide First, Align4, Meaning, StringAt, MeaningOf;
    TagFacts(s, off);
    var t, next := First(s[off..]).token, TagAt(s, off).1;
    if next <= |s| {
      assert s[off..][next - off..] == s[next..];
      if Walk(s[next..]).Some? {
        var ts := Walk(s[next..]).value;
        assert ([t] + ts)[1..] == ts;
        MeaningAppend([t], ts, strings);
      }
    }
  }

  /** What is sound is accepted, and on a straight walk nothing else is. */
  lemma {:induction false} VerdictIsChecked(s: Bytes, strings: Bytes, off: nat, depth: nat, done: bool)
    requires off % 4 == 0
    ensures Checked(s, strings, off, depth, done) ==> VerdictOf(s, strings, off, depth, done).Accepted?
    ensures Straight(s, off) ==>
      VerdictOf(s, strings, off, depth, done) == if Checked(s, strings, off, depth, done) then Accepted else Refused
    decreases |s| - off
  {
    hide First, Align4, Checked, MeaningOf, StringAt, U32;
    if TagAt(s, off).0 == END {
      CheckedEnd(s, strings, off, depth, done);
    } else {
      TagFacts(s, off);
      CheckedStep(s, strings, off, depth, done);
      var t, next := First(s[off..]).token, TagAt(s, off).1;
      NameMeant(s, strings, off);
      if !done && (t.Finish? ==> depth > 0) {
        VerdictIsChecked(s, strings, next, depth + Level(t), t.Finish? && depth == 1);
      }
    }
  }

  /** The name of a property, by its fields. */
  lemma NameMeant(s: Bytes, strings: Bytes, off: nat)
    requires TagAt(s, off).0 != END && off % 4 == 0
    ensures var t := First(s[off..]).token;
            && (!t.Property? ==> MeaningOf(t, strings).Some?)
            && (t.Property? ==>
                  && off + 12 <= |s| && off < TagAt(s, off).1
                  && (MeaningOf(t, strings).Some? <==> StringAt(strings, U32(s[off + 8..off + 12])).Some?))
            && (t.Begin? ==> (t.name == [] <==> t == Begin([])))
  {
    hide First, Align4, U32, StringAt;
    TagFacts(s, off);
    if First(s[off..]).token.Property? {
      PropertyFields(s, off);
    }
  }

  /** Starting at the root, that is what soundness means. */
  lemma CheckedIsSound(s: Bytes, strings: Bytes)
    ensures Checked(s, strings, 0, 0, false) <==> Sound(s, strings)
  {
    hide OneRoot, Nested, Meaning, Walk;
    assert s[0..] == s;
    if Walk(s).Some? {
      WalkNoEnd(s);
      NestedIsOneRoot(Walk(s).value);
    }
  }

  lemma {:induction false} WalkNoEnd(s: Bytes)
    requires Walk(s).Some?
    ensures NoEnd(Walk(s).value)
    decreases |s|
  {
    hide First;
    if !First(s).token.End? {
      WalkNoEnd(s[Align4(First(s).size)..]);
    }
  }

  // ---- the methods

  ghost predicate HeaderOk(fdt: Blob)
    reads fdt
  {
    && fdt.magic == MAGIC && fdt.lastComp <= 17 <= fdt.version
    && HEADER_SIZE <= fdt.totalSize <= INT_MAX
    && HEADER_SIZE <= fdt.offMemRsv <= fdt.totalSize
    && HEADER_SIZE <= fdt.offStruct && fdt.offStruct + fdt.sizeStruct <= fdt.totalSize
    && HEADER_SIZE <= fdt.offStrings && fdt.offStrings + fdt.sizeStrings <= fdt.totalSize
  }

  predicate CheckBlock(total: nat, base: nat, size: nat) {
    HEADER_SIZE <= base <= total && HEADER_SIZE <= base + size <= total
  }

  method CheckHeader(fdt: Blob) returns (err: int)
    requires fdt.version >= 17
    ensures err == 0 <==> HeaderOk(fdt)
  {
    if fdt.magic != MAGIC {
      return -ERR_BADMAGIC;
    }
    if fdt.lastComp > 17 || fdt.version < fdt.lastComp {
      return -ERR_BADVERSION;
    }
    if fdt.totalSize < HEADER_SIZE || fdt.totalSize > INT_MAX {
      return -ERR_TRUNCATED;
    }
    if !(HEADER_SIZE <= fdt.offMemRsv <= fdt.totalSize) {
      return -ERR_TRUNCATED;
    }
    if !CheckBlock(fdt.totalSize, fdt.offStruct, fdt.sizeStruct) {
      return -ERR_TRUNCATED;
    }
    if !CheckBlock(fdt.totalSize, fdt.offStrings, fdt.sizeStrings) {
      return -ERR_TRUNCATED;
    }
    return 0;
  }

  method NumMemRsv(fdt: Blob) returns (n: int)
    requires 16 <= fdt.totalSize <= fdt.buf.Length
    ensures var r := Reserved(fdt.buf[..fdt.totalSize], fdt.offMemRsv);
            n == if r.Some? then |r.value| else -ERR_TRUNCATED
  {
    ghost var b := fdt.buf[..fdt.totalSize];
    n := 0;
    var at := fdt.offMemRsv;
    while at + 16 <= fdt.totalSize
      invariant n >= 0 && at == fdt.offMemRsv + 16 * n
      invariant var r, q := Reserved(b, fdt.offMemRsv), Reserved(b, at);
                r.Some? == q.Some? && (r.Some? ==> |r.value| == n + |q.value|)
    {
      Inner(fdt.buf[..], 0, fdt.totalSize, at + 8, at + 16);
      if fdt.buf[at + 8..at + 16] == NO_SIZE {
        return;
      }
      n := n + 1;
      at := at + 16;
    }
    return -ERR_TRUNCATED;
  }

  /** Eight bytes of the buffer as a number. */
  method Number64(fdt: Blob, at: nat) returns (v: nat)
    requires at + 8 <= fdt.buf.Length
    ensures v == BigEndian(fdt.buf[at..at + 8])
  {
    hide U32;
    ghost var a, b := fdt.buf[at..at + 4], fdt.buf[at + 4..at + 8];
    WordBytes(a);
    WordBytes(b);
    TwoWords(a, b);
    assert fdt.buf[at..at + 8] == a + b;
    v := fdt.Word(at) * LIMIT32 + fdt.Word(at + 4);
  }

  /** The nth reservation. An index whose offset wraps around in 32 bits may be read out of bounds. */
  method GetMemRsv(fdt: Blob, n: nat) returns (err: int, address: nat, size: nat)
    requires 16 <= fdt.totalSize <= fdt.buf.Length && fdt.totalSize < LIMIT32 && fdt.offMemRsv < LIMIT32
    ensures var at := fdt.offMemRsv + 16 * n;
            && (err == 0 <==> at + 16 <= fdt.totalSize) && (at < LIMIT32 ==> err != OVERRUN)
            && (err == 0 ==>
                  address == BigEndian(fdt.buf[at..at + 8]) && size == BigEndian(fdt.buf[at + 8..at + 16]))
    ensures var es := Reserved(fdt.buf[..fdt.totalSize], fdt.offMemRsv);
            es.Some? && n < |es.value| ==>
              err == 0 && |es.value[n]| == 16 && address == AddressOf(es.value[n]) && size == SizeOf(es.value[n]) > 0
  {
    hide BigEndian, Reserved;
    err, address, size := -ERR_BADOFFSET, 0, 0;
    ghost var b := fdt.buf[..fdt.totalSize];
    if Reserved(b, fdt.offMemRsv).Some? && n < |Reserved(b, fdt.offMemRsv).value| {
      ReservedAt(b, fdt.offMemRsv, n);
      ReservedSizes(b, fdt.offMemRsv);
    }
    var absoffset := (fdt.offMemRsv + 16 * n) % LIMIT32;
    if absoffset < fdt.offMemRsv || absoffset > fdt.totalSize - 16 {
      return;
    }
    var at := fdt.offMemRsv + 16 * n;
    if at != absoffset {
      return OVERRUN, 0, 0;
    }
    address := Number64(fdt, at);
    size := Number64(fdt, at + 8);
    EntryNumbers(b, at);
    assert b[at..at + 8] == fdt.buf[at..at + 8] && b[at + 8..at + 16] == fdt.buf[at + 8..at + 16];
    err := 0;
  }

  lemma EntryNumbers(b: Bytes, at: nat)
    requires at + 16 <= |b|
    ensures AddressOf(b[at..at + 16]) == BigEndian(b[at..at + 8])
    ensures SizeOf(b[at..at + 16]) == BigEndian(b[at + 8..at + 16])
  {
    hide BigEndian;
    Inner(b, at, at + 16, 0, 8);
    Inner(b, at, at + 16, 8, 16);
    assert b[at..at + 16][..8] == b[at..at + 16][0..8];
  }

  /** The nth entry is the nth 16 bytes. */
  lemma {:induction false} ReservedAt(b: Bytes, off: nat, n: nat)
    requires Reserved(b, off).Some? && n < |Reserved(b, off).value|
    ensures off + 16 * n + 16 <= |b| && Reserved(b, off).value[n] == b[off + 16 * n..off + 16 * n + 16]
    decreases n
  {
    if n > 0 {
      ReservedAt(b, off + 16, n - 1);
    }
  }

  /** The length of the name at an offset of the strings block of a finished blob. */
  method GetString(fdt: Blob, stroffset: nat) returns (len: int)
    requires fdt.StringsIn() && fdt.magic == MAGIC && fdt.version >= 17 && fdt.totalSize < INT_MAX
    ensures len >= 0 <==> StringAt(fdt.Strings(), stroffset).Some?
    ensures len >= 0 ==>
      && stroffset + len < fdt.sizeStrings
      && StringAt(fdt.Strings(), stroffset).value == fdt.Strings()[stroffset..stroffset + len]
  {
    if stroffset + fdt.offStrings >= fdt.totalSize || stroffset >= fdt.sizeStrings {
      return -ERR_BADOFFSET;
    }
    ghost var t := fdt.Strings();
    var i := stroffset;
    while i < fdt.sizeStrings && fdt.buf[fdt.offStrings + i] != 0
      invariant stroffset <= i <= fdt.sizeStrings
      invariant NulFrom(t, stroffset) == NulFrom(t, i)
    {
      i := i + 1;
    }
    if i == fdt.sizeStrings {
      return -ERR_TRUNCATED;
    }
    return i - stroffset;
  }

  lemma PropertyTag(s: Bytes, off: int)
    requires TagAt(s, off).0 == PROP
    ensures 0 <= off <= |s| && First(s[off..]).Lex? && First(s[off..]).token.Property?
  {
  }

  /** The name of the property at an offset can be looked up. */
  method PropertyNamed(fdt: Blob, offset: nat) returns (ok: bool)
    requires fdt.StructIn() && fdt.StringsIn() && fdt.magic == MAGIC && fdt.version >= 17 && fdt.totalSize < INT_MAX
    requires offset + 12 <= fdt.sizeStruct
    ensures ok == StringAt(fdt.Strings(), U32(fdt.Struct()[offset + 8..offset + 12])).Some?
  {
    hide StringAt, U32;
    fdt.WordAt(offset + 8);
    var len := GetString(fdt, fdt.Word(fdt.offStruct + offset + 8));
    ok := len >= 0;
  }

  /** The name of the node at an offset is empty. */
  method Unnamed(fdt: Blob, offset: nat) returns (empty: bool)
    requires fdt.StructIn() && TagAt(fdt.Struct(), offset).0 == BEGIN_NODE
    ensures empty == (First(fdt.Struct()[offset..]).token == Begin([]))
  {
    hide U32;
    FirstAt(fdt.Struct(), offset);
    assert fdt.Struct()[offset + 4] == fdt.buf[fdt.offStruct + offset + 4];
    empty := fdt.buf[fdt.offStruct + offset + 4] == 0;
  }

  /** The structure block, tag by tag. */
  method CheckTags(fdt: Blob) returns (err: int)
    requires fdt.StructIn() && fdt.StringsIn() && fdt.magic == MAGIC && fdt.version >= 17 && fdt.totalSize < INT_MAX
    ensures var v := VerdictOf(fdt.Struct(), fdt.Strings(), 0, 0, false);
            && (err == 0 <==> v.Accepted?) && (err == ENDLESS <==> v.Endless?) && (err == ASTRAY <==> v.Behind?)
  {
    hide First, ProgramTag, StringAt, U32, Blob.Struct, Blob.Strings;
    ghost var s, strings := fdt.Struct(), fdt.Strings();
    var next, depth, done := 0, 0, false;
    while true
      invariant next >= 0 && depth >= 0
      invariant VerdictOf(s, strings, next, depth, done) == VerdictOf(s, strings, 0, 0, false)
      decreases |s| - next
    {
      var offset := next;
      ProgramStep(s, offset);
      ProgramCode(s, offset);
      var tag;
      tag, next := fdt.NextTag(offset);
      if tag == END {
        if next < 0 {
          return next;
        }
        return if depth != 0 then -ERR_BADSTRUCTURE else 0;
      }
      if done {
        return -ERR_BADSTRUCTURE;
      }
      if tag == BEGIN_NODE {
        depth := depth + 1;
        if depth == 1 {
          var empty := Unnamed(fdt, offset);
          if !empty {
            return -ERR_BADSTRUCTURE;
          }
        }
      } else if tag == END_NODE {
        if depth == 0 {
          return -ERR_BADSTRUCTURE;
        }
        depth := depth - 1;
        if depth == 0 {
          done := true;
        }
      } else if tag == PROP {
        if offset + 12 > fdt.sizeStruct {
          return ASTRAY;
        }
        var ok := PropertyNamed(fdt, offset);
        if !ok {
          return -ERR_BADOFFSET;
        }
        if next == offset {
          return ENDLESS;
        }
      }
    }
  }

  /** The tag reader's errors are none of the model's own. */
  lemma ProgramCode(s: Bytes, off: int)
    ensures var (tag, next) := ProgramTag(s, off);
            && next != ASTRAY && next != ENDLESS
            && (tag == END || tag == BEGIN_NODE || tag == END_NODE || tag == PROP || tag == NOP)
            && (tag == BEGIN_NODE ==> TagAt(s, off).0 == BEGIN_NODE)
  {
    if Wraps(s, off) {
      ProgramStep(s, off);
    }
  }

  /** The blob apart from its tree: what the full check demands of header and reservation block. */
  ghost predicate FrontOk(fdt: Blob)
    reads fdt, fdt.buf
  {
    && HEADER_SIZE <= fdt.buf.Length && HeaderOk(fdt) && fdt.totalSize <= fdt.buf.Length
    && Reserved(fdt.buf[..fdt.totalSize], fdt.offMemRsv).Some?
  }

  /**
   The full check accepts the blobs with a good header, reservation block and tree, and no others
   unless the walk over the tree comes to a property whose size wraps around. What it does then is
   stated by VerdictOf.
   */
  method CheckFull(fdt: Blob) returns (err: int)
    requires fdt.version >= 17 && fdt.totalSize != INT_MAX
    ensures !FrontOk(fdt) ==> err != 0
    ensures FrontOk(fdt) ==>
      var v := VerdictOf(fdt.Struct(), fdt.Strings(), 0, 0, false);
      && (err == 0 <==> v.Accepted?) && (err == ENDLESS <==> v.Endless?) && (err == ASTRAY <==> v.Behind?)
    ensures FrontOk(fdt) && Sound(fdt.Struct(), fdt.Strings()) ==> err == 0
    ensures err == 0 ==> FrontOk(fdt) && (Straight(fdt.Struct(), 0) ==> Sound(fdt.Struct(), fdt.Strings()))
  {
    hide Sound, Reserved, Checked, VerdictOf, Straight;
    if fdt.buf.Length < HEADER_SIZE {
      return -ERR_TRUNCATED;
    }
    err := CheckHeader(fdt);
    if err != 0 {
      return;
    }
    if fdt.buf.Length < fdt.totalSize {
      return -ERR_TRUNCATED;
    }
    var rsv := NumMemRsv(fdt);
    if rsv < 0 {
      return rsv;
    }
    CheckedIsSound(fdt.Struct(), fdt.Strings());
    VerdictIsChecked(fdt.Struct(), fdt.Strings(), 0, 0, false);
    err := CheckTags(fdt);
  }
}
