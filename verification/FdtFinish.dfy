/**
 Finishing a sequentially written blob: the strings move behind the structure block, and every
 property's name offset is corrected in place.
 */
module FdtFinish {
  import opened Basics
  import opened FdtFormat
  import opened FdtBlob
  import opened FdtCheck
  import opened FdtWriter

  const FDT_END_WORD: Bytes := [0, 0, 0, 9]

  // ---- correcting name offsets

  /** A property with another name offset written into it. */
  lemma Patched(w: Bytes, o: nat)
    requires o < LIMIT32 && First(w).Lex? && First(w).token.Property?
    ensures First(Over(w, 8, Be32(o))) == Lex(Property(o, First(w).token.value), First(w).size)
  {
    hide U32, Be32;
    var v := Over(w, 8, Be32(o));
    var n := First(w).size;
    assert v[..4] == w[..4] && v[4..8] == w[4..8] && v[8..12] == Be32(o) && v[12..n] == w[12..n];
    ReadBe32(o);
  }

  /** The block s is body with the offsets of its first tokens corrected, then the end tag e. */
  ghost predicate Correcting(s: Bytes, body: Bytes, e: Bytes, off: nat, n: nat) {
    && off <= |body| && off % 4 == 0 && |s| == |body| + |e|
    && Scan(body[..off]).Some? && Scan(body[off..]).Some?
    && Scan(s[..off]) == Some(Relocated(Scan(body[..off]).value, n))
    && s[off..] == body[off..] + e
  }

  /** The block after the next token has been corrected. */
  ghost function Corrected(s: Bytes, off: nat, n: nat): (r: Bytes)
    requires off <= |s| && First(s[off..]).Lex?
    ensures |r| == |s|
  {
    var t := First(s[off..]).token;
    if t.Property? then PropertyRoom(s, off); Over(s, off + 8, Be32((t.nameOff + n) % LIMIT32)) else s
  }

  lemma PropertyRoom(s: Bytes, off: nat)
    requires off <= |s| && First(s[off..]).Lex? && First(s[off..]).token.Property?
    ensures off + 12 <= |s|
  {
  }

  /** The token at hand and where it ends. */
  lemma CorrectingAt(s: Bytes, body: Bytes, e: Bytes, off: nat, n: nat)
    requires Correcting(s, body, e, off, n) && off < |body|
    ensures First(s[off..]) == First(body[off..]) && First(s[off..]).Lex? && !First(s[off..]).token.End?
    ensures var next := off + Align4(First(s[off..]).size);
            && next <= |body| && TagAt(s, off) == (TagOf(First(s[off..]).token), next) && next % 4 == 0
            && Scan(body[..next]) == Some(Scan(body[..off]).value + [First(s[off..]).token]) && Scan(body[next..]).Some?
  {
    hide First, Align4;
    var w := body[off..];
    FirstAppend(w, e);
    var k := Align4(First(w).size);
    assert w[k..] == body[off + k..];
    BoundaryStep(body, off);
    AlignShift(off, First(w).size);
  }

  lemma CorrectedPiece(s: Bytes, off: nat, n: nat, next: nat)
    requires off <= |s| && First(s[off..]).Lex? && !First(s[off..]).token.End?
    requires next == off + Align4(First(s[off..]).size) <= |s|
    ensures var s' := Corrected(s, off, n);
            && Scan(s'[off..next]) == Some([Moved(First(s[off..]).token, n)])
            && s'[..off] == s[..off] && s'[next..] == s[next..]
  {
    hide First, Align4, Be32;
    var f := First(s[off..]);
    var piece := s[off..next];
    assert piece[..f.size] == s[off..][..f.size];
    FirstLocal(piece, s[off..]);
    var s' := Corrected(s, off, n);
    if f.token.Property? {
      PropertyRoom(s, off);
      PropertySize(s[off..]);
      var d := Be32((f.token.nameOff + n) % LIMIT32);
      Patched(piece, (f.token.nameOff + n) % LIMIT32);
      OverInside(s, off + 8, d, off, next);
      assert s'[off..next] == Over(piece, 8, d);
      OverOutside(s, off + 8, d, 0, off);
      OverOutside(s, off + 8, d, next, |s|);
    }
    ScanOne(s'[off..next]);
  }

  lemma PropertySize(w: Bytes)
    requires First(w).Lex? && First(w).token.Property?
    ensures First(w).size >= 12
  {
  }

  lemma CorrectingStep(s: Bytes, body: Bytes, e: Bytes, off: nat, n: nat)
    requires Correcting(s, body, e, off, n) && off < |body| && First(s[off..]).Lex?
    ensures Correcting(Corrected(s, off, n), body, e, off + Align4(First(s[off..]).size), n)
  {
    hide First, Align4, Scan, Corrected;
    CorrectingAt(s, body, e, off, n);
    var t := First(s[off..]).token;
    var next := off + Align4(First(s[off..]).size);
    CorrectedPiece(s, off, n, next);
    var s' := Corrected(s, off, n);
    assert s'[..next] == s[..off] + s'[off..next];
    ScanAppend(s[..off], s'[off..next]);
    RelocatedSnoc(Scan(body[..off]).value, t, n);
    assert s[next..] == s[off..][next - off..];
    assert s'[next..] == body[next..] + e;
  }

  lemma CorrectingStart(body: Bytes, e: Bytes, n: nat)
    requires Scan(body).Some?
    ensures Correcting(body + e, body, e, 0, n)
  {
    hide First;
    assert body[..0] == [] && (body + e)[..0] == [] && body[0..] == body && (body + e)[0..] == body + e;
  }

  /** At the end tag the whole block has been corrected. */
  lemma CorrectingEnd(s: Bytes, body: Bytes, n: nat)
    requires Correcting(s, body, FDT_END_WORD, |body|, n) && Scan(body).Some?
    ensures TagAt(s, |body|) == (END, |body| + 4)
    ensures Walk(s) == Some(Relocated(Scan(body).value, n))
  {
    hide Scan;
    var k := |body|;
    assert body[..k] == body && body[k..] == [];
    assert s[k..] == FDT_END_WORD;
    assert FDT_END_WORD == TagWord(END) + [];
    FirstPlain(End, []);
    ScanAligned(body);
    WalkAt(s, k);
    JoinEmpty(Scan(s[..k]));
  }

  /** Walks the structure block and corrects its name offsets by the size of the strings. */
  method Renumber(fdt: Blob, ghost body: Bytes) returns (next: int)
    requires fdt.StructIn() && fdt.Struct() == body + FDT_END_WORD && Scan(body).Some?
    modifies fdt.buf
    ensures next == fdt.sizeStruct
    ensures Walk(fdt.Struct()) == Some(Relocated(Scan(body).value, fdt.sizeStrings))
    ensures fdt.buf[..fdt.offStruct] == old(fdt.buf[..fdt.offStruct])
    ensures fdt.buf[fdt.offStruct + fdt.sizeStruct..] == old(fdt.buf[fdt.offStruct + fdt.sizeStruct..])
  {
    hide First, Scan, Walk, Correcting, Align4, TagOf, Over, Be32;
    ghost var n := fdt.sizeStrings;
    var offset := 0;
    CorrectingStart(body, FDT_END_WORD, n);
    while true
      invariant 0 <= offset <= |body| && Correcting(fdt.Struct(), body, FDT_END_WORD, offset, n)
      invariant fdt.buf[..fdt.offStruct] == old(fdt.buf[..fdt.offStruct])
      invariant fdt.buf[fdt.offStruct + fdt.sizeStruct..] == old(fdt.buf[fdt.offStruct + fdt.sizeStruct..])
      decreases |body| - offset
    {
      ghost var s := fdt.Struct();
      var tag;
      tag, next := fdt.NextTag(offset);
      if offset < |body| {
        CorrectingAt(s, body, FDT_END_WORD, offset, n);
        CorrectingStep(s, body, FDT_END_WORD, offset, n);
        TagNotEnd(First(s[offset..]).token);
      } else {
        CorrectingEnd(s, body, n);
      }
      if tag == END {
        return;
      }
      if tag == PROP {
        CorrectOne(fdt, offset);
      }
      assert fdt.Struct() == Corrected(s, offset, n) by { NotProperty(s, offset); }
      offset := next;
    }
  }

  lemma TagNotEnd(t: Token)
    requires !t.End?
    ensures TagOf(t) != END && (TagOf(t) == PROP <==> t.Property?)
  {
  }

  lemma NotProperty(s: Bytes, off: nat)
    requires off <= |s| && First(s[off..]).Lex?
    ensures !First(s[off..]).token.Property? ==> forall n :: Corrected(s, off, n) == s
  {
  }

  /** Corrects the name offset of the property at an offset. */
  method CorrectOne(fdt: Blob, offset: nat)
    requires fdt.StructIn() && offset <= fdt.sizeStruct
    requires First(fdt.Struct()[offset..]).Lex? && First(fdt.Struct()[offset..]).token.Property?
    modifies fdt.buf
    ensures fdt.Struct() == Corrected(old(fdt.Struct()), offset, fdt.sizeStrings)
    ensures fdt.buf[..fdt.offStruct] == old(fdt.buf[..fdt.offStruct])
    ensures fdt.buf[fdt.offStruct + fdt.sizeStruct..] == old(fdt.buf[fdt.offStruct + fdt.sizeStruct..])
  {
    hide U32, Be32, First, Over;
    ghost var s, b := fdt.Struct(), fdt.buf[..];
    PropertyFields(s, offset);
    fdt.WordAt(offset + 8);
    var at := fdt.offStruct + offset + 8;
    var nameOff := (fdt.Word(at) + fdt.sizeStrings) % LIMIT32;
    fdt.Write(at, Be32(nameOff));
    StructOver(b, at, Be32(nameOff), fdt.offStruct, fdt.offStruct + fdt.sizeStruct);
  }

  /** Bytes written within a block. */
  lemma StructOver(b: Bytes, at: nat, d: Bytes, lo: nat, hi: nat)
    requires lo <= at && at + |d| <= hi <= |b|
    ensures Over(b, at, d)[lo..hi] == Over(b[lo..hi], at - lo, d)
    ensures Over(b, at, d)[..lo] == b[..lo] && Over(b, at, d)[hi..] == b[hi..]
  {
    hide Over;
    OverBlock(b, at, d, lo, hi);
    OverOutside(b, at, d, 0, lo);
    OverOutside(b, at, d, hi, |b|);
  }

  // ---- the finish

  /** Moves the strings to just behind the structure block. */
  method MoveStrings(fdt: Blob)
    requires Roomy(fdt)
    modifies fdt`offStrings, fdt.buf
    ensures fdt.offStrings == fdt.offStruct + fdt.sizeStruct
    ensures fdt.StructIn() && fdt.StringsIn() && fdt.Strings() == old(Table(fdt)) && fdt.Struct() == old(fdt.Struct())
    ensures fdt.buf[..fdt.offStruct] == old(fdt.buf[..fdt.offStruct])
  {
    hide Over;
    ghost var b := fdt.buf[..];
    var from := fdt.totalSize - fdt.sizeStrings;
    var to := fdt.offStruct + fdt.sizeStruct;
    fdt.Move(to, from, fdt.sizeStrings);
    fdt.offStrings := to;
    StringsMoved(b, to, b[from..from + fdt.sizeStrings], fdt.offStruct);
  }

  lemma StringsMoved(b: Bytes, to: nat, d: Bytes, lo: nat)
    requires lo <= to && to + |d| <= |b|
    ensures Over(b, to, d)[to..to + |d|] == d && Over(b, to, d)[lo..to] == b[lo..to] && Over(b, to, d)[..lo] == b[..lo]
  {
    OverInside(b, to, d, to, to + |d|);
    OverOutside(b, to, d, lo, to);
    OverOutside(b, to, d, 0, lo);
  }

  /** Puts the strings in place and corrects the references to them. */
  method Settle(fdt: Blob, ghost body: Bytes) returns (next: int)
    requires Roomy(fdt) && fdt.Struct() == body + FDT_END_WORD && Scan(body).Some?
    modifies fdt`offStrings, fdt.buf
    ensures next == fdt.sizeStruct && fdt.offStrings == fdt.offStruct + fdt.sizeStruct && fdt.StructIn() &&
      fdt.StringsIn()
    ensures fdt.Strings() == old(Table(fdt)) && Walk(fdt.Struct()) == Some(Relocated(Scan(body).value, fdt.sizeStrings))
    ensures fdt.buf[..fdt.offStruct] == old(fdt.buf[..fdt.offStruct])
  {
    hide Scan, Walk, Relocated;
    ghost var table := Table(fdt);
    MoveStrings(fdt);
    ghost var b := fdt.buf[fdt.offStruct + fdt.sizeStruct..];
    next := Renumber(fdt, body);
    StringsKept(fdt, b, table);
  }

  /** The header of a finished blob. */
  method Seal(fdt: Blob)
    requires fdt.StructIn() && fdt.StringsIn()
    requires fdt.offStrings == fdt.offStruct + fdt.sizeStruct && fdt.version == 17 && fdt.totalSize < INT_MAX
    requires fdt.offMemRsv == RSV_START <= fdt.offStruct
    modifies fdt`totalSize, fdt`lastComp, fdt`magic
    ensures HeaderOk(fdt) && fdt.totalSize <= fdt.buf.Length && fdt.totalSize < INT_MAX
    ensures fdt.Struct() == old(fdt.Struct()) && fdt.Strings() == old(fdt.Strings())
  {
    fdt.totalSize := fdt.offStrings + fdt.sizeStrings;
    fdt.lastComp := 16;
    fdt.magic := MAGIC;
  }

  /** A finished blob reads as what was written. */
  method FinishBlob(fdt: Blob) returns (r: int)
    requires ProbeStruct(fdt) == 0 ==> Writing(fdt)
    modifies fdt, fdt.buf
    ensures old(ProbeStruct(fdt)) != 0 ==> r == old(ProbeStruct(fdt))
    ensures r != 0 ==> unchanged(fdt) && unchanged(fdt.buf)
    ensures old(ProbeStruct(fdt)) == 0 ==>
              r == if old(Used(fdt)) + 4 <= old(fdt.totalSize) then 0 else -ERR_NOSPACE
    ensures r == 0 ==> HeaderOk(fdt) && fdt.totalSize <= fdt.buf.Length && fdt.totalSize < INT_MAX
    ensures r == 0 ==> Events(fdt.Struct(), fdt.Strings()) == Some(old(Pending(fdt)))
    ensures r == 0 ==> NoNops(Walk(fdt.Struct()).value)
    ensures r == 0 ==> fdt.offMemRsv == RSV_START && fdt.offStruct == old(fdt.offStruct)
    ensures r == 0 ==> fdt.buf[..fdt.offStruct] == old(fdt.buf[..fdt.offStruct])
  {
    hide Scan, Walk, Relocated, Said, NoNops, Events;
    r := ProbeStruct(fdt);
    if r != 0 {
      return;
    }
    ghost var body, table, run := fdt.Struct(), Table(fdt), Pending(fdt);
    assert Said(Scan(body).value, table) == Some(run) && NoNops(Scan(body).value);
    var ok, pad := Put(fdt, FDT_END_WORD, 4);
    if !ok {
      return -ERR_NOSPACE;
    }
    assert FDT_END_WORD + pad == FDT_END_WORD;
    var next := Settle(fdt, body);
    ReadsBack(fdt.Struct(), table, Scan(body).value);
    if next >= 0 {
      Seal(fdt);
    }
    r := if next < 0 then next else 0;
  }

  lemma StringsKept(fdt: Blob, b: Bytes, table: Bytes)
    requires fdt.StringsIn() && fdt.StructIn() && fdt.offStrings == fdt.offStruct + fdt.sizeStruct
    requires fdt.buf[fdt.offStrings..] == b && |table| == fdt.sizeStrings <= |b| && b[..fdt.sizeStrings] == table
    ensures fdt.Strings() == table
  {
    Inner(fdt.buf[..], fdt.offStrings, fdt.buf.Length, 0, fdt.sizeStrings);
  }

  lemma ReadsBack(s: Bytes, table: Bytes, ts: seq<Token>)
    requires Walk(s) == Some(Relocated(ts, |table|)) && Said(ts, table).Some? && NoNops(ts)
    ensures Events(s, table) == Said(ts, table) && NoNops(Walk(s).value)
  {
    RelocatedNops(ts, |table|);
  }

  lemma RelocatedNops(ts: seq<Token>, n: nat)
    requires NoNops(ts)
    ensures NoNops(Relocated(ts, n))
  {
  }
}
