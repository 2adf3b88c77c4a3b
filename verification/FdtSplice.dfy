/**
 The layout that the editing functions rely on, and how they make and take room in it.
 */
module FdtSplice {
  import opened Basics
  import opened FdtFormat
  import opened FdtBlob

  /** The blocks follow each other, reservations first and strings last. */
  predicate Ordered(fdt: Blob)
    reads fdt
  {
    && HEADER_SIZE <= fdt.offMemRsv && fdt.offMemRsv + 16 <= fdt.offStruct
    && fdt.offStruct + fdt.sizeStruct <= fdt.offStrings
    && fdt.offStrings + fdt.sizeStrings <= fdt.totalSize
  }

  /** A finished blob that may be edited in place. */
  ghost predicate Laid(fdt: Blob)
    reads fdt
  {
    && fdt.magic == MAGIC && fdt.version == 17 && fdt.lastComp <= 17
    && fdt.totalSize <= fdt.buf.Length && fdt.totalSize < INT_MAX && Ordered(fdt)
  }

  /** The probe of the editing functions; it lets through an unfinished blob that has a structure block. */
  function RwProbe(fdt: Blob): (err: int)
    requires fdt.version == 17 && fdt.totalSize < INT_MAX
    reads fdt
    ensures err == 0 && fdt.magic == MAGIC && fdt.totalSize <= fdt.buf.Length ==> Laid(fdt)
    ensures Laid(fdt) ==> err == 0
    ensures err == -ERR_BADMAGIC <==> fdt.magic != MAGIC && fdt.magic != SW_MAGIC
    ensures fdt.magic == MAGIC ==> (err == -ERR_BADVERSION <==> fdt.lastComp > 17)
    ensures fdt.magic == MAGIC && fdt.lastComp <= 17 ==> (err == -ERR_BADLAYOUT <==> !Ordered(fdt))
  {
    if fdt.magic == MAGIC && fdt.lastComp > 17 then -ERR_BADVERSION
    else if fdt.magic == SW_MAGIC && fdt.sizeStruct == 0 then -ERR_BADSTATE
    else if fdt.magic != MAGIC && fdt.magic != SW_MAGIC then -ERR_BADMAGIC
    else if !Ordered(fdt) then -ERR_BADLAYOUT
    else 0
  }

  function DataSize(fdt: Blob): nat
    reads fdt
  {
    fdt.offStrings + fdt.sizeStrings
  }

  /** Bytes written over, seen from within. */
  lemma OverPart(b: Bytes, at: nat, d: Bytes, x: nat, y: nat)
    requires at + |d| <= |b| && x <= y <= |d|
    ensures Over(b, at, d)[at + x..at + y] == d[x..y]
  {
    assert forall i | x <= i < y :: Over(b, at, d)[at + i] == d[i];
  }

  /** Moves everything behind oldlen bytes so that newlen bytes are in their place. */
  method Splice(fdt: Blob, at: nat, oldlen: nat, newlen: nat) returns (err: int)
    requires Laid(fdt)
    modifies fdt.buf
    ensures err == if at + oldlen > DataSize(fdt) then -ERR_BADOFFSET
                   else if DataSize(fdt) - oldlen + newlen > fdt.totalSize then -ERR_NOSPACE
                   else 0
    ensures err != 0 ==> unchanged(fdt.buf)
    ensures err == 0 ==> fdt.buf[..] == Over(old(fdt.buf[..]), at + newlen, old(fdt.buf[at + oldlen..DataSize(fdt)]))
  {
    var dsize := DataSize(fdt);
    if at + oldlen > dsize {
      return -ERR_BADOFFSET;
    }
    if dsize - oldlen + newlen > fdt.totalSize {
      return -ERR_NOSPACE;
    }
    fdt.Move(at + newlen, at + oldlen, dsize - (at + oldlen));
    return 0;
  }

  /** Other bytes in place of some, and the rest as it was. */
  ghost predicate Replaced(s: Bytes, off: nat, oldlen: nat, newlen: nat, r: Bytes) {
    && off + oldlen <= |s| && |r| == |s| - oldlen + newlen
    && r[..off] == s[..off] && r[off + newlen..] == s[off + oldlen..]
  }

  lemma Spliced(b: Bytes, lo: nat, hi: nat, off: nat, oldlen: nat, newlen: nat, str: nat, end: nat)
    requires lo <= hi <= str <= end <= |b| && off + oldlen <= hi - lo && end - oldlen + newlen <= |b|
    ensures var r := Over(b, lo + off + newlen, b[lo + off + oldlen..end]);
            && Replaced(b[lo..hi], off, oldlen, newlen, r[lo..hi - oldlen + newlen])
            && r[str - oldlen + newlen..end - oldlen + newlen] == b[str..end]
            && r[..lo] == b[..lo]
  {
    hide Over, Replaced;
    var d := b[lo + off + oldlen..end];
    var at := lo + off + newlen;
    OverOutside(b, at, d, 0, lo);
    SplicedFront(b, lo, hi, off, oldlen, newlen, at, d);
    SplicedBack(b, lo, hi, off, oldlen, newlen, at, d, end);
    OverPart(b, at, d, str - (lo + off + oldlen), |d|);
    Inner(b, lo + off + oldlen, end, str - (lo + off + oldlen), |d|);
    IsReplaced(b[lo..hi], off, oldlen, newlen, Over(b, at, d)[lo..hi - oldlen + newlen]);
  }

  lemma IsReplaced(s: Bytes, off: nat, oldlen: nat, newlen: nat, r: Bytes)
    requires off + oldlen <= |s| && |r| == |s| - oldlen + newlen
    requires r[..off] == s[..off] && r[off + newlen..] == s[off + oldlen..]
    ensures Replaced(s, off, oldlen, newlen, r)
  {
  }

  lemma SplicedFront(b: Bytes, lo: nat, hi: nat, off: nat, oldlen: nat, newlen: nat, at: nat, d: Bytes)
    requires lo <= hi <= |b| && off + oldlen <= hi - lo && at == lo + off + newlen && at + |d| <= |b| &&
      hi - oldlen + newlen <= |b|
    ensures Over(b, at, d)[lo..hi - oldlen + newlen][..off] == b[lo..hi][..off]
  {
    hide Over;
    var r := Over(b, at, d);
    OverOutside(b, at, d, lo, lo + off);
    Inner(r, lo, hi - oldlen + newlen, 0, off);
    Inner(b, lo, hi, 0, off);
  }

  lemma SplicedBack(b: Bytes, lo: nat, hi: nat, off: nat, oldlen: nat, newlen: nat, at: nat, d: Bytes, end: nat)
    requires lo <= hi <= end <= |b| && off + oldlen <= hi - lo && at == lo + off + newlen && at + |d| <= |b|
    requires hi - oldlen + newlen <= |b| && d == b[lo + off + oldlen..end]
    ensures Over(b, at, d)[lo..hi - oldlen + newlen][off + newlen..] == b[lo..hi][off + oldlen..]
  {
    hide Over;
    var r := Over(b, at, d);
    OverPart(b, at, d, 0, hi - lo - off - oldlen);
    Inner(r, lo, hi - oldlen + newlen, off + newlen, hi - lo - oldlen + newlen);
    Inner(b, lo + off + oldlen, end, 0, hi - lo - off - oldlen);
    Inner(b, lo, hi, off + oldlen, hi - lo);
  }

  /** The same in the structure block. */
  method SpliceStruct(fdt: Blob, off: nat, oldlen: nat, newlen: nat) returns (err: int)
    requires Laid(fdt) && off + oldlen <= fdt.sizeStruct
    modifies fdt`sizeStruct, fdt`offStrings, fdt.buf
    ensures err == if old(DataSize(fdt)) - oldlen + newlen > fdt.totalSize then -ERR_NOSPACE else 0
    ensures err != 0 ==> unchanged(fdt) && unchanged(fdt.buf)
    ensures err == 0 ==> Laid(fdt) && DataSize(fdt) == old(DataSize(fdt)) - oldlen + newlen
    ensures err == 0 ==> Replaced(old(fdt.Struct()), off, oldlen, newlen, fdt.Struct())
    ensures err == 0 ==>
      fdt.Strings() == old(fdt.Strings()) && fdt.buf[..fdt.offStruct] == old(fdt.buf[..fdt.offStruct])
  {
    hide Over, Replaced, Blob.Struct, Blob.Strings;
    ghost var b, lo, hi, str, end := fdt.buf[..], fdt.offStruct, fdt.offStruct + fdt.sizeStruct, fdt.offStrings,
        DataSize(fdt);
    Parts(fdt, b);
    err := Splice(fdt, fdt.offStruct + off, oldlen, newlen);
    if err != 0 {
      return;
    }
    fdt.sizeStruct := fdt.sizeStruct - oldlen + newlen;
    fdt.offStrings := fdt.offStrings - oldlen + newlen;
    Landed(fdt, b, lo, hi, off, oldlen, newlen, str, end);
  }

  lemma Landed(fdt: Blob, b: Bytes, lo: nat, hi: nat, off: nat, oldlen: nat, newlen: nat, str: nat, end: nat)
    requires lo <= hi <= str <= end <= |b| && off + oldlen <= hi - lo && end - oldlen + newlen <= |b|
    requires fdt.StructIn() && fdt.StringsIn()
    requires fdt.buf[..] == Over(b, lo + off + newlen, b[lo + off + oldlen..end])
    requires fdt.offStruct == lo && fdt.sizeStruct == hi - lo - oldlen + newlen
    requires fdt.offStrings == str - oldlen + newlen && fdt.sizeStrings == end - str
    ensures Replaced(b[lo..hi], off, oldlen, newlen, fdt.Struct())
    ensures fdt.Strings() == b[str..end] && fdt.buf[..lo] == b[..lo]
  {
    hide Over, Replaced, Blob.Struct, Blob.Strings;
    Spliced(b, lo, hi, off, oldlen, newlen, str, end);
    Parts(fdt, fdt.buf[..]);
  }

  /** The blocks as parts of the buffer's bytes. */
  lemma Parts(fdt: Blob, b: Bytes)
    requires fdt.StructIn() && fdt.StringsIn() && b == fdt.buf[..]
    ensures fdt.Struct() == b[fdt.offStruct..fdt.offStruct + fdt.sizeStruct]
    ensures fdt.Strings() == b[fdt.offStrings..fdt.offStrings + fdt.sizeStrings]
    ensures fdt.buf[..fdt.offStruct] == b[..fdt.offStruct]
  {
  }

  /** Bytes written within the structure block. */
  method WriteStruct(fdt: Blob, off: nat, d: Bytes)
    requires Laid(fdt) && off + |d| <= fdt.sizeStruct
    modifies fdt.buf
    ensures fdt.Struct() == Over(old(fdt.Struct()), off, d)
    ensures fdt.Strings() == old(fdt.Strings()) && fdt.buf[..fdt.offStruct] == old(fdt.buf[..fdt.offStruct])
  {
    hide Over;
    ghost var b := fdt.buf[..];
    Parts(fdt, b);
    var at := fdt.offStruct + off;
    fdt.Write(at, d);
    OverWithin(b, at, d, fdt.offStruct, fdt.offStruct + fdt.sizeStruct, fdt.offStrings, DataSize(fdt));
    Parts(fdt, fdt.buf[..]);
  }

  lemma OverWithin(b: Bytes, at: nat, d: Bytes, lo: nat, hi: nat, str: nat, end: nat)
    requires lo <= at && at + |d| <= hi <= str <= end <= |b|
    ensures Over(b, at, d)[lo..hi] == Over(b[lo..hi], at - lo, d)
    ensures Over(b, at, d)[..lo] == b[..lo] && Over(b, at, d)[str..end] == b[str..end]
  {
    hide Over;
    OverBlock(b, at, d, lo, hi);
    OverOutside(b, at, d, 0, lo);
    OverOutside(b, at, d, str, end);
  }
}
