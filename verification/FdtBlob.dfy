/**
 A devicetree blob in a buffer: the header's fields, and the bytes of the buffer behind it.
 */
module FdtBlob {
  import opened Basics
  import opened FdtFormat

  const MAGIC: nat := 0xd00dfeed
  const SW_MAGIC: nat := 0x2ff20112
  const HEADER_SIZE: nat := 40

  /** Bytes with others written over them. */
  function Over(b: Bytes, at: nat, d: Bytes): (r: Bytes)
    requires at + |d| <= |b|
    ensures |r| == |b|
  {
    b[..at] + d + b[at + |d|..]
  }

  lemma OverOutside(b: Bytes, at: nat, d: Bytes, x: nat, y: nat)
    requires at + |d| <= |b| && x <= y <= |b| && (y <= at || at + |d| <= x)
    ensures Over(b, at, d)[x..y] == b[x..y]
  {
    assert forall i | x <= i < y :: Over(b, at, d)[i] == b[i];
  }

  lemma OverInside(b: Bytes, at: nat, d: Bytes, x: nat, y: nat)
    requires at + |d| <= |b| && x <= at && at + |d| <= y <= |b|
    ensures Over(b, at, d)[x..y] == b[x..at] + d + b[at + |d|..y]
  {
  }

  /** Bytes written within a block. */
  lemma OverBlock(b: Bytes, at: nat, d: Bytes, lo: nat, hi: nat)
    requires lo <= at && at + |d| <= hi <= |b|
    ensures Over(b, at, d)[lo..hi] == Over(b[lo..hi], at - lo, d)
  {
    OverInside(b, at, d, lo, hi);
    var w := b[lo..hi];
    Inner(b, lo, hi, 0, at - lo);
    Inner(b, lo, hi, at - lo + |d|, hi - lo);
    assert w[..at - lo] == b[lo..at] && w[at - lo + |d|..] == b[at + |d|..hi];
  }

  class Blob {
    const buf: array<Byte>
    var magic: nat
    var version: nat
    var lastComp: nat
    var totalSize: nat
    var offMemRsv: nat
    var offStruct: nat
    var offStrings: nat
    var sizeStruct: nat
    var sizeStrings: nat

    constructor (buf: array<Byte>)
      ensures this.buf == buf
    {
      this.buf := buf;
    }

    /** The structure block lies in the buffer. */
    ghost predicate StructIn()
      reads this
    {
      offStruct + sizeStruct <= totalSize <= buf.Length && totalSize < LIMIT32
    }

    ghost predicate StringsIn()
      reads this
    {
      offStrings + sizeStrings <= totalSize <= buf.Length
    }

    ghost function Struct(): (s: Bytes)
      requires StructIn()
      reads this, buf
      ensures |s| == sizeStruct
    {
      buf[offStruct..offStruct + sizeStruct]
    }

    ghost function Strings(): (s: Bytes)
      requires StringsIn()
      reads this, buf
      ensures |s| == sizeStrings
    {
      buf[offStrings..offStrings + sizeStrings]
    }

    /** Whether len bytes at an offset of the structure block may be looked at. */
    predicate OffsetPtr(offset: int, len: nat)
      reads this
    {
      offset >= 0 && offset + offStruct + len <= totalSize && offset + len <= sizeStruct
    }

    /** The word at a place of the buffer. */
    function Word(at: nat): (n: nat)
      requires at + 4 <= buf.Length
      reads this, buf
      ensures n == U32(buf[at..at + 4]) < LIMIT32
    {
      U32([buf[at], buf[at + 1], buf[at + 2], buf[at + 3]])
    }

    lemma WordAt(offset: nat)
      requires StructIn() && offset + 4 <= sizeStruct
      ensures Word(offStruct + offset) == U32(Struct()[offset..offset + 4])
    {
      Inner(buf[..], offStruct, offStruct + sizeStruct, offset, offset + 4);
    }

    /** Where the name in the structure block from offset on is terminated. */
    method SkipName(start: nat) returns (offset: nat, found: bool)
      requires StructIn() && start <= sizeStruct
      ensures found == (NulFrom(Struct(), start) < sizeStruct)
      ensures found ==> offset == NulFrom(Struct(), start) + 1
    {
      offset := start;
      while true
        invariant start <= offset <= sizeStruct
        invariant NulFrom(Struct(), start) == NulFrom(Struct(), offset)
        decreases sizeStruct - offset
      {
        found := OffsetPtr(offset, 1);
        if !found {
          return;
        }
        offset := offset + 1;
        if buf[offStruct + offset - 1] == 0 {
          return;
        }
      }
    }

    /** The tag reader. The size of a property is taken in 32-bit arithmetic. */
    method NextTag(start: int) returns (tag: nat, next: int)
      requires StructIn()
      ensures (tag, next) == ProgramTag(Struct(), start)
    {
      hide NulFrom, U32, First, Align4, Struct, ProgramTag;
      if !OffsetPtr(start, 4) {
        Nothing(Struct(), start);
        return END, -ERR_TRUNCATED;
      }
      WordAt(start);
      ProgramAt(Struct(), start);
      tag := Word(offStruct + start);
      var offset := start + 4;
      next := -ERR_BADSTRUCTURE;
      if tag == BEGIN_NODE {
        var found;
        offset, found := SkipName(offset);
        if !found {
          return END, next;
        }
      } else if tag == PROP {
        if !OffsetPtr(offset, 4) {
          return END, next;
        }
        WordAt(offset);
        offset := start + (12 + Word(offStruct + offset)) % LIMIT32;
      } else if tag != END && tag != END_NODE && tag != NOP {
        return END, next;
      }
      if !OffsetPtr(start, offset - start) {
        return END, next;
      }
      next := Align4(offset);
    }

    /**
     The tag reader for walks over the block. Where the size of a property wraps around, the walks of
     the model stop with ASTRAY, while the program goes on at the offset that NextTag gives.
     */
    method SafeTag(start: int) returns (tag: nat, next: int)
      requires StructIn()
      ensures (tag, next) == TagAt(Struct(), start)
    {
      hide NulFrom, U32, First, Align4, Struct, Wrapped;
      WrapsExactly(Struct(), start);
      tag, next := NextTag(start);
      if tag == PROP {
        PropertySize(Struct(), start);
        WordAt(start + 4);
        if Word(offStruct + start + 4) >= LIMIT32 - 12 {
          return END, ASTRAY;
        }
      }
    }

    /** Writing bytes into the buffer. */
    method Write(at: nat, d: Bytes)
      requires at + |d| <= buf.Length
      modifies buf
      ensures buf[..] == Over(old(buf[..]), at, d)
    {
      forall i | 0 <= i < |d| {
        buf[at + i] := d[i];
      }
    }

    /** Moving bytes within the buffer; the places may overlap. */
    method Move(to: nat, from: nat, n: nat)
      requires to + n <= buf.Length && from + n <= buf.Length
      modifies buf
      ensures buf[..] == Over(old(buf[..]), to, old(buf[from..from + n]))
    {
      forall i | 0 <= i < n {
        buf[to + i] := buf[from + i];
      }
    }
  }
}
