/**
 Whole runs of the sequential writer, from the empty buffer to the checked blob.
 */
module FdtRun {
  import opened Basics
  import opened FdtFormat
  import opened FdtBlob
  import opened FdtNodes
  import opened FdtCheck
  import opened FdtWriter
  import opened FdtFinish

  const ERR_BADFLAGS: int := 18
  const LIMIT64: nat := 0x1_0000_0000_0000_0000

  // ---- the reservation block

  function Be64(n: nat): (b: Bytes)
    requires n < LIMIT64
    ensures |b| == 8
  {
    Be32(n / LIMIT32) + Be32(n % LIMIT32)
  }

  function EntryBytes(address: nat, size: nat): (b: Bytes)
    requires address < LIMIT64 && size < LIMIT64
    ensures |b| == 16
  {
    Be64(address) + Be64(size)
  }

  lemma Be64Reads(n: nat)
    requires n < LIMIT64
    ensures BigEndian(Be64(n)) == n
  {
    hide BigEndian, Be32, U32;
    var hi, lo := n / LIMIT32, n % LIMIT32;
    ReadBe32(hi);
    ReadBe32(lo);
    WordBytes(Be32(hi));
    WordBytes(Be32(lo));
    TwoWords(Be32(hi), Be32(lo));
  }

  /** The address comes first. */
  lemma EntryReads(address: nat, size: nat)
    requires address < LIMIT64 && size < LIMIT64
    ensures AddressOf(EntryBytes(address, size)) == address && SizeOf(EntryBytes(address, size)) == size
  {
    hide BigEndian, Be64;
    Be64Reads(address);
    Be64Reads(size);
    var a, b := Be64(address), Be64(size);
    assert (a + b)[..8] == a && (a + b)[8..16] == b;
  }

  /** The entries say what was to be reserved, up to the first reservation of size zero. */
  ghost predicate Stated(es: seq<Bytes>, reserve: seq<(nat, nat)>) {
    && |es| <= |reserve| && (|es| < |reserve| ==> reserve[|es|].1 == 0)
    && forall i | 0 <= i < |es| ::
         |es[i]| == 16 && AddressOf(es[i]) == reserve[i].0 && SizeOf(es[i]) == reserve[i].1 != 0
  }

  lemma {:induction false} EffectiveStated(reserve: seq<(nat, nat)>)
    requires forall i | 0 <= i < |reserve| :: reserve[i].0 < LIMIT64 && reserve[i].1 < LIMIT64
    ensures Stated(Effective(EntryList(reserve)), reserve)
    decreases |reserve|
  {
    hide EntryBytes, BigEndian;
    if reserve != [] {
      var e, rest := EntryList(reserve)[0], reserve[1..];
      EntryReads(reserve[0].0, reserve[0].1);
      NoSizeIsZero(e[8..16]);
      EffectiveStated(rest);
      assert EntryList(reserve)[1..] == EntryList(rest);
      var es := Effective(EntryList(rest));
      if reserve[0].1 != 0 {
        assert ([e] + es)[1..] == es;
        assert forall i | 0 < i < |es| + 1 :: ([e] + es)[i] == es[i - 1] && reserve[i] == rest[i - 1];
      }
    }
  }

  /** A stretch of bytes as entries of 16. */
  ghost function Chop(b: Bytes): (es: seq<Bytes>)
    ensures forall i | 0 <= i < |es| :: |es[i]| == 16
    decreases |b|
  {
    if |b| < 16 then [] else [b[..16]] + Chop(b[16..])
  }

  lemma {:induction false} ChopSnoc(a: Bytes, e: Bytes)
    requires |a| % 16 == 0 && |e| == 16
    ensures Chop(a + e) == Chop(a) + [e]
    decreases |a|
  {
    if a == [] {
      assert a + e == e && e[..16] == e && e[16..] == [];
    } else {
      assert (a + e)[..16] == a[..16] && (a + e)[16..] == a[16..] + e;
      ChopSnoc(a[16..], e);
    }
  }

  /** Entries before the first of size zero, which ends the block for a reader. */
  ghost function Effective(es: seq<Bytes>): seq<Bytes>
    requires forall i | 0 <= i < |es| :: |es[i]| == 16
  {
    if es == [] || es[0][8..16] == NO_SIZE then [] else [es[0]] + Effective(es[1..])
  }

  /** A block that ends with an empty entry reads as its entries before the first empty one. */
  lemma {:induction false} ReservedIs(b: Bytes, off: nat, end: nat)
    requires off + 16 <= end <= |b| && (end - off) % 16 == 0 && b[end - 8..end] == NO_SIZE
    ensures Reserved(b, off) == Some(Effective(Chop(b[off..end - 16])))
    decreases end - off
  {
    var w := b[off..end - 16];
    if w != [] {
      assert w[..16] == b[off..off + 16];
      Inner(b, off, off + 16, 8, 16);
      assert w[16..] == b[off + 16..end - 16];
      ReservedIs(b, off + 16, end);
    }
  }

  /** Reservations are being written. */
  ghost predicate Reserving(fdt: Blob)
    reads fdt
  {
    && fdt.magic == SW_MAGIC && fdt.version == 17 && fdt.offStrings == 0
    && fdt.sizeStruct == 0 && fdt.sizeStrings == 0
    && fdt.offMemRsv == RSV_START <= fdt.offStruct <= fdt.totalSize <= fdt.buf.Length
    && (fdt.offStruct - RSV_START) % 16 == 0 && fdt.totalSize < INT_MAX
  }

  ghost function Entries(fdt: Blob): (es: seq<Bytes>)
    requires Reserving(fdt)
    reads fdt, fdt.buf
    ensures forall i | 0 <= i < |es| :: |es[i]| == 16
  {
    Chop(fdt.buf[RSV_START..fdt.offStruct])
  }

  function ProbeMemRsv(fdt: Blob): (r: int)
    reads fdt
    ensures r == 0 <==> fdt.magic == SW_MAGIC && fdt.offStrings == 0
    ensures r == -ERR_BADMAGIC <==> fdt.magic != MAGIC && fdt.magic != SW_MAGIC
    ensures r == 0 || r == -ERR_BADMAGIC || r == -ERR_BADSTATE
  {
    if fdt.magic == MAGIC then -ERR_BADSTATE
    else if fdt.magic != SW_MAGIC then -ERR_BADMAGIC
    else if fdt.offStrings != 0 then -ERR_BADSTATE
    else 0
  }

  method Create(buf: array<Byte>, flags: nat) returns (r: int, fdt: Blob)
    requires buf.Length < INT_MAX
    modifies buf
    ensures fresh(fdt) && fdt.buf == buf
    ensures r == if buf.Length < RSV_START then -ERR_NOSPACE else if flags > NO_NAME_DEDUP then -ERR_BADFLAGS else 0
    ensures r == 0 ==> Reserving(fdt) && Entries(fdt) == [] && fdt.totalSize == buf.Length && fdt.lastComp == flags
    ensures r == 0 ==> fdt.offStruct == RSV_START
  {
    fdt := new Blob(buf);
    if buf.Length < RSV_START {
      return -ERR_NOSPACE, fdt;
    }
    if flags > NO_NAME_DEDUP {
      return -ERR_BADFLAGS, fdt;
    }
    forall i | 0 <= i < buf.Length {
      buf[i] := 0;
    }
    fdt.magic := SW_MAGIC;
    fdt.version := 17;
    fdt.lastComp := flags;
    fdt.totalSize := buf.Length;
    fdt.offMemRsv := RSV_START;
    fdt.offStruct := fdt.offMemRsv;
    fdt.offStrings := 0;
    fdt.sizeStruct := 0;
    fdt.sizeStrings := 0;
    r := 0;
  }

  method AddReserveEntry(fdt: Blob, address: nat, size: nat) returns (r: int)
    requires address < LIMIT64 && size < LIMIT64
    requires ProbeMemRsv(fdt) == 0 ==> Reserving(fdt)
    modifies fdt`offStruct, fdt.buf
    ensures old(ProbeMemRsv(fdt)) != 0 ==> r == old(ProbeMemRsv(fdt))
    ensures r != 0 ==> unchanged(fdt) && unchanged(fdt.buf)
    ensures old(ProbeMemRsv(fdt)) == 0 ==> r == if old(fdt.offStruct) + 16 <= fdt.totalSize then 0 else -ERR_NOSPACE
    ensures r == 0 ==> Reserving(fdt) && Entries(fdt) == old(Entries(fdt)) + [EntryBytes(address, size)]
    ensures r == 0 ==> fdt.offStruct == old(fdt.offStruct) + 16
    ensures r == 0 ==> fdt.buf[fdt.offStruct - 16..fdt.offStruct] == EntryBytes(address, size)
    ensures r == 0 ==> fdt.buf[..fdt.offStruct - 16] == old(fdt.buf[..fdt.offStruct])
    ensures r == 0 ==> AddressOf(fdt.buf[fdt.offStruct - 16..fdt.offStruct]) == address
    ensures r == 0 ==> SizeOf(fdt.buf[fdt.offStruct - 16..fdt.offStruct]) == size
  {
    hide Chop, EntryBytes, Over, BigEndian;
    EntryReads(address, size);
    r := ProbeMemRsv(fdt);
    if r != 0 {
      return;
    }
    var offset := fdt.offStruct;
    if offset + 16 > fdt.totalSize {
      return -ERR_NOSPACE;
    }
    ghost var b := fdt.buf[..];
    var d := EntryBytes(address, size);
    fdt.Write(offset, d);
    fdt.offStruct := offset + 16;
    OverInside(b, offset, d, RSV_START, offset + 16);
    OverInside(b, offset, d, offset, offset + 16);
    OverOutside(b, offset, d, 0, offset);
    assert fdt.buf[RSV_START..offset + 16] == b[RSV_START..offset] + d;
    assert fdt.buf[offset..offset + 16] == d;
    ChopSnoc(b[RSV_START..offset], d);
  }

  lemma NoEntry()
    ensures EntryBytes(0, 0)[8..16] == NO_SIZE
  {
  }

  method FinishReserve(fdt: Blob) returns (r: int)
    requires ProbeMemRsv(fdt) == 0 ==> Reserving(fdt)
    modifies fdt`offStruct, fdt`offStrings, fdt.buf
    ensures old(ProbeMemRsv(fdt)) != 0 ==> r == old(ProbeMemRsv(fdt))
    ensures r != 0 ==> unchanged(fdt) && unchanged(fdt.buf)
    ensures old(ProbeMemRsv(fdt)) == 0 ==> r == if old(fdt.offStruct) + 16 <= fdt.totalSize then 0 else -ERR_NOSPACE
    ensures r == 0 ==> Writing(fdt) && Pending(fdt) == []
    ensures r == 0 ==> Reserved(fdt.buf[..fdt.offStruct], RSV_START) == Some(Effective(old(Entries(fdt))))
    ensures r == 0 ==> fdt.offStruct == old(fdt.offStruct) + 16 && fdt.sizeStruct == 0 && Table(fdt) == []
  {
    hide Reserved, Effective, Chop, EntryBytes;
    ghost var front := if fdt.offStruct <= fdt.buf.Length then fdt.buf[..fdt.offStruct] else [];
    r := AddReserveEntry(fdt, 0, 0);
    if r != 0 {
      return;
    }
    NoEntry();
    ghost var end := fdt.offStruct;
    assert fdt.buf[..end] == front + EntryBytes(0, 0);
    ReservedNow(front, EntryBytes(0, 0));
    fdt.offStrings := fdt.totalSize;
    NothingSaid();
    assert front[RSV_START..] == old(fdt.buf[RSV_START..fdt.offStruct]);
    assert fdt.Struct() == [] && Table(fdt) == [];
  }

  lemma ReservedNow(front: Bytes, e: Bytes)
    requires |front| >= RSV_START && (|front| - RSV_START) % 16 == 0 && |e| == 16 && e[8..16] == NO_SIZE
    ensures Reserved(front + e, RSV_START) == Some(Effective(Chop(front[RSV_START..])))
  {
    hide Reserved, Effective, Chop;
    var b := front + e;
    assert b[|b| - 8..|b|] == e[8..16];
    assert b[RSV_START..|b| - 16] == front[RSV_START..];
    ReservedIs(b, RSV_START, |b|);
  }

  lemma NothingSaid()
    ensures Scan([]) == Some([]) && NoNops([]) && Said([], []) == Some([])
  {
  }

  // ---- runs

  /** What the tokens of an event would be, names aside. */
  function Shape(e: Event): Token {
    match e
    case Open(name) => Begin(name)
    case Close => Finish
    case Entry(_, value) => Property(0, value)
  }

  ghost function Shapes(run: seq<Event>): (ts: seq<Token>)
    ensures |ts| == |run| && forall i | 0 <= i < |ts| :: ts[i] == Shape(run[i])
  {
    seq(|run|, i requires 0 <= i < |run| => Shape(run[i]))
  }

  /** The calls open and close one root, without a name, and everything else within it. */
  ghost predicate WellNested(run: seq<Event>) {
    OneRoot(Shapes(run))
  }

  /** Tokens that only differ in the names of properties. */
  ghost predicate Alike(ts: seq<Token>, us: seq<Token>) {
    |ts| == |us| && forall i | 0 <= i < |ts| :: AlikeOne(ts[i], us[i])
  }

  ghost predicate AlikeOne(t: Token, u: Token) {
    if t.Property? then u.Property? else t == u
  }

  lemma {:induction false} RiseAlike(ts: seq<Token>, us: seq<Token>)
    requires Alike(ts, us)
    ensures Rise(ts) == Rise(us)
    decreases |ts|
  {
    if ts != [] {
      var n := |ts| - 1;
      assert Alike(ts[..n], us[..n]);
      RiseAlike(ts[..n], us[..n]);
      assert AlikeOne(ts[n], us[n]);
    }
  }

  lemma ClosesAlike(ts: seq<Token>, us: seq<Token>, d: int)
    requires Alike(ts, us) && Closes(ts, d)
    ensures Closes(us, d)
  {
    RiseAlike(ts, us);
    var n := |ts| - 1;
    forall k | 0 <= k <= n ensures d + Rise(us[..n][..k]) >= 0 {
      assert ts[..n][..k] == ts[..k] && us[..n][..k] == us[..k];
      assert d + Rise(ts[..n][..k]) >= 0;
      RiseAlike(ts[..k], us[..k]);
    }
  }

  lemma RootAlike(ts: seq<Token>, us: seq<Token>)
    requires Alike(ts, us) && OneRoot(ts)
    ensures OneRoot(us)
  {
    hide Closes;
    var i: nat :| RootAt(ts, i);
    assert forall j | 0 <= j < i :: AlikeOne(ts[j], us[j]);
    if i < |ts| {
      assert AlikeOne(ts[i], us[i]);
      ClosesAlike(ts[i..][1..], us[i..][1..], 0);
    }
    assert RootAt(us, i);
  }

  lemma {:induction false} MeaningAlike(ts: seq<Token>, strings: Bytes)
    requires Meaning(ts, strings).Some? && NoNops(ts)
    ensures Alike(ts, Shapes(Meaning(ts, strings).value)) && Alike(Shapes(Meaning(ts, strings).value), ts)
    decreases |ts|
  {
    var run := Meaning(ts, strings).value;
    if ts != [] {
      var rest := Meaning(ts[1..], strings).value;
      MeaningAlike(ts[1..], strings);
      assert run[1..] == rest;
      assert ts == [ts[0]] + ts[1..];
      forall i | 0 <= i < |ts| ensures AlikeOne(ts[i], Shapes(run)[i]) && AlikeOne(Shapes(run)[i], ts[i]) {
        if i > 0 {
          assert AlikeOne(ts[1..][i - 1], Shapes(rest)[i - 1]);
        }
      }
    }
  }

  /** The check of a finished blob accepts it exactly if the run was well nested. */
  lemma SoundIsWellNested(s: Bytes, strings: Bytes, run: seq<Event>)
    requires Events(s, strings) == Some(run) && NoNops(Walk(s).value)
    ensures Sound(s, strings) <==> WellNested(run)
  {
    hide OneRoot, Walk, Meaning;
    var ts := Walk(s).value;
    MeaningAlike(ts, strings);
    if OneRoot(ts) {
      RootAlike(ts, Shapes(run));
    }
    if OneRoot(Shapes(run)) {
      RootAlike(Shapes(run), ts);
    }
  }

  /** Names hold no zero byte; names and values are not overlong. */
  predicate Writable(e: Event) {
    match e
    case Open(name) => IsName(name)
    case Close => true
    case Entry(name, value) => IsName(name) && |name| < INT_MAX && |value| < INT_MAX
  }

  // ---- the room a run takes

  /** The bytes an event takes in the structure block. */
  function Cost(e: Event): nat {
    match e
    case Open(name) => 4 + Align4(|name| + 1)
    case Close => 4
    case Entry(_, value) => 12 + Align4(|value|)
  }

  ghost function Costs(run: seq<Event>): nat {
    if run == [] then 0 else Costs(run[..|run| - 1]) + Cost(run[|run| - 1])
  }

  /** The table of strings after one more event, and after a run. */
  ghost function TableAfter(table: Bytes, e: Event, flags: nat): Bytes {
    if e.Entry? then TableWith(table, e.name, flags) else table
  }

  ghost function TableOf(table: Bytes, run: seq<Event>, flags: nat): Bytes {
    if run == [] then table else TableAfter(TableOf(table, run[..|run| - 1], flags), run[|run| - 1], flags)
  }

  /** The bytes that a run takes in all, with its strings. */
  ghost function Room(table: Bytes, run: seq<Event>, flags: nat): nat {
    Costs(run) + |TableOf(table, run, flags)|
  }

  lemma {:induction false} RoomGrows(table: Bytes, run: seq<Event>, flags: nat, k: nat)
    requires k <= |run|
    ensures Costs(run[..k]) <= Costs(run) && |TableOf(table, run[..k], flags)| <= |TableOf(table, run, flags)|
    decreases |run| - k
  {
    hide TableWith;
    if k == |run| {
      assert run[..k] == run;
    } else {
      assert run[..k + 1][..k] == run[..k];
      RoomGrows(table, run, flags, k + 1);
    }
  }

  /** The run gets to an event whose name is longer than the whole buffer less the strings in it. */
  ghost predicate OverrunAt(size: nat, front: nat, table: Bytes, run: seq<Event>, flags: nat, i: nat) {
    && i < |run| && front + Room(table, run[..i], flags) <= size
    && |TableOf(table, run[..i + 1], flags)| > size
  }

  ghost predicate Overruns(size: nat, front: nat, table: Bytes, run: seq<Event>, flags: nat) {
    exists i: nat :: OverrunAt(size, front, table, run, flags, i)
  }

  /** Names no longer than what precedes the structure block never overrun the buffer. */
  lemma ShortNamesStay(size: nat, front: nat, table: Bytes, run: seq<Event>, flags: nat)
    requires forall i | 0 <= i < |run| && run[i].Entry? :: |run[i].name| + 1 <= front
    ensures !Overruns(size, front, table, run, flags)
  {
    hide TableWith, Costs;
    forall i: nat | i < |run| && front + Room(table, run[..i], flags) <= size
      ensures |TableOf(table, run[..i + 1], flags)| <= size
    {
      assert run[..i + 1][..i] == run[..i];
    }
  }

  /** A first property whose name is longer than the buffer is written below it. */
  lemma LongNameOverruns(size: nat, front: nat, name: Bytes, value: Bytes, flags: nat)
    requires front <= size <= |name|
    ensures Overruns(size, front, [], [Entry(name, value)], flags)
  {
    var run := [Entry(name, value)];
    assert run[..0] == [] && run[..1] == run;
    assert OverrunAt(size, front, [], run, flags, 0);
  }

  /** What happens at an event decides about the run. */
  lemma RunStops(size: nat, front: nat, table: Bytes, run: seq<Event>, flags: nat, i: nat)
    requires i < |run| && front + Room(table, run[..i], flags) <= size < front + Room(table, run[..i + 1], flags)
    ensures front + Room(table, run, flags) > size
    ensures Overruns(size, front, table, run, flags) <==> |TableOf(table, run[..i + 1], flags)| > size
  {
    hide TableOf, Costs;
    RoomGrows(table, run, flags, i + 1);
    if |TableOf(table, run[..i + 1], flags)| > size {
      assert OverrunAt(size, front, table, run, flags, i);
    }
    forall j: nat | OverrunAt(size, front, table, run, flags, j)
      ensures j == i
    {
      if j < i {
        assert run[..i][..j + 1] == run[..j + 1];
        RoomGrows(table, run[..i], flags, j + 1);
      } else if i < j {
        assert run[..j][..i + 1] == run[..i + 1];
        RoomGrows(table, run[..j], flags, i + 1);
      }
    }
  }

  lemma RunFits(size: nat, front: nat, table: Bytes, run: seq<Event>, flags: nat)
    requires front + Room(table, run, flags) <= size
    ensures !Overruns(size, front, table, run, flags)
  {
    hide TableOf, Costs;
    forall j: nat | j < |run| ensures !OverrunAt(size, front, table, run, flags, j) {
      RoomGrows(table, run, flags, j + 1);
    }
  }

  method WriteEvent(fdt: Blob, e: Event) returns (r: int)
    requires Writing(fdt) && Writable(e)
    modifies fdt, fdt.buf
    ensures r == OVERRUN <==> |old(TableAfter(Table(fdt), e, fdt.lastComp))| > old(fdt.totalSize)
    ensures r == 0 <==>
      old(fdt.offStruct + fdt.sizeStruct + |TableAfter(Table(fdt), e, fdt.lastComp)|) + Cost(e) <= old(fdt.totalSize)
    ensures r == 0 ==> Writing(fdt) && Pending(fdt) == old(Pending(fdt)) + [e]
    ensures r == 0 ==> Grew(fdt, old(fdt.sizeStruct) + Cost(e), old(fdt.lastComp))
    ensures r == 0 ==> Table(fdt) == old(TableAfter(Table(fdt), e, fdt.lastComp))
    ensures r == 0 ==> Front(fdt, old(fdt.totalSize), old(fdt.buf[..fdt.offStruct]))
  {
    hide Scan, Said, NoNops, TableWith;
    match e {
      case Open(name) =>
        r := BeginNode(fdt, name);
      case Close =>
        r := EndNode(fdt);
      case Entry(name, value) =>
        r := PutProperty(fdt, name, value);
    }
  }

  /** The calls of a run, one after the other, and the finish. */
  method WriteRun(fdt: Blob, run: seq<Event>) returns (r: int)
    requires Writing(fdt) && Pending(fdt) == [] && fdt.sizeStruct == 0
    requires forall i | 0 <= i < |run| :: Writable(run[i])
    modifies fdt, fdt.buf
    ensures r == OVERRUN <==> old(Overruns(fdt.totalSize, fdt.offStruct, Table(fdt), run, fdt.lastComp))
    ensures r == 0 <==> old(fdt.offStruct + Room(Table(fdt), run, fdt.lastComp) + 4 <= fdt.totalSize)
    ensures r == 0 ==> HeaderOk(fdt) && fdt.totalSize <= fdt.buf.Length && fdt.totalSize < INT_MAX
    ensures r == 0 ==> Events(fdt.Struct(), fdt.Strings()) == Some(run) && NoNops(Walk(fdt.Struct()).value)
    ensures r == 0 ==> fdt.offMemRsv == RSV_START && fdt.buf[..fdt.offStruct] == old(fdt.buf[..fdt.offStruct])
  {
    hide Pending, Writable, Events, Walk, NoNops, TableAfter, Scan, Said, Table, Cost, Overruns;
    ghost var size, front, table, flags := fdt.totalSize, fdt.offStruct, Table(fdt), fdt.lastComp;
    var i := 0;
    while i < |run|
      invariant 0 <= i <= |run| && Writing(fdt) && Pending(fdt) == run[..i]
      invariant fdt.offStruct == front && fdt.buf[..fdt.offStruct] == old(fdt.buf[..fdt.offStruct])
      invariant fdt.totalSize == size && fdt.lastComp == flags
      invariant fdt.sizeStruct == Costs(run[..i]) && Table(fdt) == TableOf(table, run[..i], flags)
    {
      assert run[..i + 1][..i] == run[..i];
      r := WriteEvent(fdt, run[i]);
      if r != 0 {
        RunStops(size, front, table, run, flags, i);
        return;
      }
      i := i + 1;
    }
    assert run[..i] == run;
    RunFits(size, front, table, run, flags);
    WritingState(fdt);
    r := FinishBlob(fdt);
  }

  lemma WritingState(fdt: Blob)
    requires Writing(fdt)
    ensures ProbeStruct(fdt) == 0
  {
  }

  /**
   A whole run: whatever is written is read back in order, the reservations up to the first empty
   one too, and the full check accepts the blob exactly if the calls were well nested.
   */
  method Build(buf: array<Byte>, flags: nat, reserve: seq<(nat, nat)>, run: seq<Event>)
    returns (r: int, fdt: Blob, checked: int)
    requires buf.Length < INT_MAX
    requires forall i | 0 <= i < |reserve| :: reserve[i].0 < LIMIT64 && reserve[i].1 < LIMIT64
    requires forall i | 0 <= i < |run| :: Writable(run[i])
    modifies buf
    ensures var front := RSV_START + 16 * (|reserve| + 1);
            && (r == 0 <==> flags <= NO_NAME_DEDUP && front + Room([], run, flags) + 4 <= buf.Length)
            && (r == OVERRUN <==>
                  flags <= NO_NAME_DEDUP && front <= buf.Length && Overruns(buf.Length, front, [], run, flags))
    ensures r == 0 ==> HeaderOk(fdt) && fdt.totalSize <= fdt.buf.Length
    ensures r == 0 ==> Events(fdt.Struct(), fdt.Strings()) == Some(run)
    ensures r == 0 ==> Reserved(fdt.buf[..fdt.totalSize], fdt.offMemRsv) == Some(Effective(EntryList(reserve)))
    ensures r == 0 ==>
      var es := Reserved(fdt.buf[..fdt.totalSize], fdt.offMemRsv); es.Some? && Stated(es.value, reserve)
    ensures r == 0 ==> (checked == 0 <==> WellNested(run))
  {
    hide Straight, VerdictOf, Events, Walk, Sound, WellNested, Reserved, Effective, Chop, EntryList, Writing, Pending,
      NoNops, Writable, Room, Overruns, Entries, Stated, Blob.Struct, Blob.Strings;
    EffectiveStated(reserve);
    checked := 0;
    r, fdt := Create(buf, flags);
    if r != 0 {
      return;
    }
    r := Reserve(fdt, reserve);
    if r != 0 {
      return;
    }
    ghost var front := fdt.buf[..fdt.offStruct];
    r := WriteRun(fdt, run);
    if r != 0 {
      return;
    }
    FrontReserved(fdt.buf[..fdt.totalSize], front);
    ReadsStraight(fdt.Struct(), fdt.Strings());
    SoundIsWellNested(fdt.Struct(), fdt.Strings(), run);
    checked := CheckFull(fdt);
  }

  lemma ReadsStraight(s: Bytes, strings: Bytes)
    requires Events(s, strings).Some?
    ensures Straight(s, 0)
  {
    hide Events, Straight;
    assert s[0..] == s;
    ReadIsStraight(s, strings, 0);
  }

  lemma FrontReserved(b: Bytes, front: Bytes)
    requires |front| <= |b| && b[..|front|] == front && Reserved(front, RSV_START).Some? && RSV_START <= |front|
    ensures Reserved(b, RSV_START) == Reserved(front, RSV_START)
  {
    assert front[..|front|] == front;
    ReservedLocal(b, front, RSV_START, |front|);
  }

  ghost function EntryList(reserve: seq<(nat, nat)>): (es: seq<Bytes>)
    requires forall i | 0 <= i < |reserve| :: reserve[i].0 < LIMIT64 && reserve[i].1 < LIMIT64
    ensures |es| == |reserve| && forall i | 0 <= i < |es| :: es[i] == EntryBytes(reserve[i].0, reserve[i].1)
  {
    seq(|reserve|, i requires 0 <= i < |reserve| => EntryBytes(reserve[i].0, reserve[i].1))
  }

  method Reserve(fdt: Blob, reserve: seq<(nat, nat)>) returns (r: int)
    requires Reserving(fdt) && Entries(fdt) == [] && fdt.offStruct == RSV_START
    requires forall i | 0 <= i < |reserve| :: reserve[i].0 < LIMIT64 && reserve[i].1 < LIMIT64
    modifies fdt, fdt.buf
    ensures r == 0 || r == -ERR_NOSPACE
    ensures r == 0 <==> RSV_START + 16 * (|reserve| + 1) <= old(fdt.totalSize)
    ensures r == 0 ==> Writing(fdt) && Pending(fdt) == []
    ensures r == 0 ==> fdt.totalSize == old(fdt.totalSize) && fdt.lastComp == old(fdt.lastComp)
    ensures r == 0 ==> fdt.offStruct == RSV_START + 16 * (|reserve| + 1) && fdt.sizeStruct == 0 && Table(fdt) == []
    ensures r == 0 ==> Reserved(fdt.buf[..fdt.offStruct], RSV_START) == Some(Effective(EntryList(reserve)))
  {
    hide Entries, Reserved, Effective, EntryBytes;
    var i := 0;
    while i < |reserve|
      invariant 0 <= i <= |reserve| && Reserving(fdt)
      invariant Entries(fdt) == EntryList(reserve)[..i]
      invariant fdt.totalSize == old(fdt.totalSize) && fdt.lastComp == old(fdt.lastComp)
      invariant fdt.offStruct == RSV_START + 16 * i
    {
      r := AddReserveEntry(fdt, reserve[i].0, reserve[i].1);
      if r != 0 {
        return;
      }
      i := i + 1;
    }
    assert EntryList(reserve)[..i] == EntryList(reserve);
    r := FinishReserve(fdt);
  }
}
