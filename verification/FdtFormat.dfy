/**
 The flattened devicetree format, version 17 (chapter 5 of the Devicetree Specification v0.4):
 what the bytes of a structure block say, and how the reading of a block is made up of the
 readings of its pieces.
 */
module FdtFormat {
  import opened Basics

  type Bytes = seq<Byte>

  const BEGIN_NODE: nat := 1
  const END_NODE: nat := 2
  const PROP: nat := 3
  const NOP: nat := 4
  const END: nat := 9

  const LIMIT32: nat := 0x1_0000_0000

  /** A part of a part. */
  lemma Inner<T>(s: seq<T>, a: nat, b: nat, c: nat, d: nat)
    requires a <= b <= |s| && c <= d <= b - a
    ensures s[a..b][c..d] == s[a + c..a + d]
  {
    assert forall i | 0 <= i < d - c :: s[a..b][c..d][i] == s[a..b][c + i] == s[a + c + i];
  }

  /** What agrees on a front agrees on every place and part of it. */
  lemma Fronts<T>(v: seq<T>, w: seq<T>, n: nat)
    requires n <= |v| && n <= |w| && v[..n] == w[..n]
    ensures forall k | 0 <= k < n :: v[k] == w[k]
  {
    forall k | 0 <= k < n ensures v[k] == w[k] {
      assert v[..n][k] == v[k] && w[..n][k] == w[k];
    }
  }

  // ---- numbers

  function U32(b: Bytes): (n: nat)
    requires |b| == 4
    ensures n < LIMIT32
  {
    (((b[0] as int) * 256 + b[1]) * 256 + b[2]) * 256 + b[3]
  }

  function Be32(n: nat): (b: Bytes)
    requires n < LIMIT32
    ensures |b| == 4
  {
    [n / 256 / 256 / 256, n / 256 / 256 % 256, n / 256 % 256, n % 256]
  }

  lemma ReadBe32(n: nat)
    requires n < LIMIT32
    ensures U32(Be32(n)) == n
  {
  }

  /** Rounding up to the next word. */
  /** The number that bytes stand for, the first byte weighing most. */
  ghost function BigEndian(b: Bytes): nat {
    if b == [] then 0 else 256 * BigEndian(b[..|b| - 1]) + b[|b| - 1]
  }

  lemma WordBytes(b: Bytes)
    requires |b| == 4
    ensures U32(b) == BigEndian(b)
  {
    assert b[..3][..2] == b[..2] && b[..2][..1] == b[..1] && b[..1][..0] == [];
    assert BigEndian(b[..1]) == 256 * BigEndian([]) + b[0];
    assert BigEndian(b[..2]) == 256 * BigEndian(b[..1]) + b[1];
    assert BigEndian(b[..3]) == 256 * BigEndian(b[..2]) + b[2];
  }

  /** A word weighs 2^32 in front of another one. */
  lemma TwoWords(a: Bytes, b: Bytes)
    requires |a| == |b| == 4
    ensures BigEndian(a + b) == BigEndian(a) * LIMIT32 + BigEndian(b)
  {
    hide BigEndian;
    assert b[..3][..2] == b[..2] && b[..2][..1] == b[..1] && b[..1][..0] == [] && a + [] == a;
    BytesBehind(a, b);
    BytesBehind(a, b[..3]);
    BytesBehind(a, b[..2]);
    BytesBehind(a, b[..1]);
    WordBytes(b);
  }

  lemma BytesBehind(a: Bytes, b: Bytes)
    requires b != []
    ensures BigEndian(a + b) == 256 * BigEndian(a + b[..|b| - 1]) + b[|b| - 1]
  {
    assert (a + b)[..|a| + |b| - 1] == a + b[..|b| - 1];
  }

  function Align4(n: nat): (r: nat)
    ensures n <= r < n + 4 && r % 4 == 0
    ensures n % 4 == 0 ==> r == n
  {
    (n + 3) / 4 * 4
  }

  lemma AlignShift(a: nat, n: nat)
    requires a % 4 == 0
    ensures Align4(a + n) == a + Align4(n)
  {
  }

  // ---- names

  /** The first zero byte at or after i, or the end. */
  function NulFrom(w: Bytes, i: nat): (z: nat)
    requires i <= |w|
    ensures i <= z <= |w|
    ensures forall k | i <= k < z :: w[k] != 0
    ensures z < |w| ==> w[z] == 0
    decreases |w| - i
  {
    if i < |w| && w[i] != 0 then NulFrom(w, i + 1) else i
  }

  lemma NulShared(v: Bytes, w: Bytes, i: nat, z: nat)
    requires i <= |w| && z == NulFrom(w, i) < |w| && z < |v|
    requires forall k | i <= k <= z :: v[k] == w[k]
    ensures NulFrom(v, i) == z
  {
    hide NulFrom;
    assert v[z] == w[z];
  }

  lemma NameShift(s: Bytes, a: nat, i: nat)
    requires a + i <= |s|
    ensures NulFrom(s[a..], i) == NulFrom(s, a + i) - a
  {
    hide NulFrom;
    var w := s[a..];
    assert forall k | 0 <= k < |w| :: w[k] == s[a + k];
    assert forall k | a <= k < |s| :: s[k] == w[k - a];
  }

  /** A name holds no zero byte. */
  predicate IsName(name: Bytes) {
    forall i | 0 <= i < |name| :: name[i] != 0
  }

  /** The name at an offset of the strings block. */
  ghost function StringAt(strings: Bytes, o: int): Option<Bytes> {
    if 0 <= o < |strings| && NulFrom(strings, o) < |strings| then Some(strings[o..NulFrom(strings, o)]) else None
  }

  /** A name written out and terminated is what is read there. */
  lemma StringWritten(a: Bytes, name: Bytes, b: Bytes)
    requires IsName(name)
    ensures StringAt(a + name + [0] + b, |a|) == Some(name)
  {
    var s := a + name + [0] + b;
    var z := |a| + |name|;
    assert s[z] == 0;
    assert forall k | |a| <= k < z :: s[k] == name[k - |a|];
    assert NulFrom(s, |a|) == z;
    assert s[|a|..z] == name;
  }

  /** Strings added behind leave the offsets of a block in place. */
  lemma StringBefore(strings: Bytes, more: Bytes, o: int)
    requires StringAt(strings, o).Some?
    ensures StringAt(strings + more, o) == StringAt(strings, o)
  {
    var z := NulFrom(strings, o);
    NulShared(strings + more, strings, o, z);
    assert (strings + more)[o..z] == strings[o..z];
  }

  /** Strings added in front move them. */
  lemma StringBehind(more: Bytes, strings: Bytes, o: nat)
    requires StringAt(strings, o).Some?
    ensures StringAt(more + strings, |more| + o) == StringAt(strings, o)
  {
    var name := strings[o..NulFrom(strings, o)];
    var z := o + |name|;
    StringWritten(more + strings[..o], name, strings[z + 1..]);
    assert more + strings == more + strings[..o] + name + [0] + strings[z + 1..];
  }

  // ---- tokens

  datatype Token = Begin(name: Bytes) | Finish | Property(nameOff: nat, value: Bytes) | Nop | End

  /** A token read off the front of some bytes, and the bytes it takes before alignment. */
  datatype Lexeme = Bad | Lex(token: Token, size: nat)

  function TagOf(t: Token): (tag: nat) {
    match t
    case Begin(_) => BEGIN_NODE
    case Finish => END_NODE
    case Property(_, _) => PROP
    case Nop => NOP
    case End => END
  }

  /** The token at the front of w. */
  ghost function First(w: Bytes): (r: Lexeme)
    ensures r.Lex? ==> 4 <= r.size <= |w|
  {
    if |w| < 4 then Bad
    else
      var tag := U32(w[..4]);
      if tag == BEGIN_NODE then
        var z := NulFrom(w, 4);
        if z == |w| then Bad else Lex(Begin(w[4..z]), z + 1)
      else if tag == PROP then
        if |w| < 12 || 12 + U32(w[4..8]) > |w| then Bad
        else Lex(Property(U32(w[8..12]), w[12..12 + U32(w[4..8])]), 12 + U32(w[4..8]))
      else if tag == END_NODE then Lex(Finish, 4)
      else if tag == NOP then Lex(Nop, 4)
      else if tag == END then Lex(End, 4)
      else Bad
  }

  /** Only the bytes a token takes matter. */
  lemma FirstLocal(v: Bytes, w: Bytes)
    requires First(w).Lex? && First(w).size <= |v| && v[..First(w).size] == w[..First(w).size]
    ensures First(v) == First(w)
  {
    var n := First(w).size;
    Fronts(v, w, n);
    assert v[..4] == w[..4];
    if First(w).token.Begin? {
      NulShared(v, w, 4, n - 1);
      assert v[4..n - 1] == w[4..n - 1];
    } else if First(w).token.Property? {
      assert v[4..8] == w[4..8] && v[8..12] == w[8..12] && v[12..n] == w[12..n];
    }
  }

  lemma FirstAppend(w: Bytes, b: Bytes)
    requires First(w).Lex?
    ensures First(w + b) == First(w)
  {
    var n := First(w).size;
    assert (w + b)[..n] == w[..n];
    FirstLocal(w + b, w);
  }

  lemma Tail<T>(s: seq<T>, off: nat, a: nat, b: nat)
    requires a <= b && off + b <= |s|
    ensures s[off..][a..b] == s[off + a..off + b]
  {
  }

  lemma Head<T>(s: seq<T>, off: nat, a: nat)
    requires off + a <= |s|
    ensures s[off..][..a] == s[off..off + a]
  {
  }

  /** The token at an offset, by the bytes of the whole block. */
  lemma FirstAt(s: Bytes, off: nat)
    requires off + 4 <= |s|
    ensures var tag := U32(s[off..off + 4]); var f := First(s[off..]);
            && (tag == BEGIN_NODE ==>
                  var z := NulFrom(s, off + 4); f == if z == |s| then Bad else Lex(Begin(s[off + 4..z]), z + 1 - off))
            && (tag == PROP ==>
                  if off + 12 > |s| || off + 12 + U32(s[off + 4..off + 8]) > |s| then f == Bad
                  else var len := U32(s[off + 4..off + 8]);
                       f == Lex(Property(U32(s[off + 8..off + 12]), s[off + 12..off + 12 + len]), 12 + len))
            && (tag == END_NODE ==> f == Lex(Finish, 4))
            && (tag == NOP ==> f == Lex(Nop, 4))
            && (tag == END ==> f == Lex(End, 4))
            && (tag != BEGIN_NODE && tag != PROP && tag != END_NODE && tag != NOP && tag != END ==> f == Bad)
  {
    hide NulFrom, U32, First;
    var tag := U32(s[off..off + 4]);
    if tag == BEGIN_NODE {
      FirstName(s, off);
    } else if tag == PROP {
      FirstValue(s, off);
    } else {
      FirstOther(s, off);
    }
  }

  lemma FirstName(s: Bytes, off: nat)
    requires off + 4 <= |s| && U32(s[off..off + 4]) == BEGIN_NODE
    ensures var z := NulFrom(s, off + 4);
            First(s[off..]) == if z == |s| then Bad else Lex(Begin(s[off + 4..z]), z + 1 - off)
  {
    hide NulFrom, U32, First;
    Head(s, off, 4);
    FirstNamed(s[off..]);
    NameShift(s, off, 4);
    FirstMoved(s, off, NulFrom(s, off + 4));
  }

  lemma FirstMoved(s: Bytes, off: nat, z: nat)
    requires off + 4 <= z <= |s|
    requires var y := z - off;
             First(s[off..]) == if y == |s[off..]| then Bad else Lex(Begin(s[off..][4..y]), y + 1)
    ensures First(s[off..]) == if z == |s| then Bad else Lex(Begin(s[off + 4..z]), z + 1 - off)
  {
    hide First;
    Tail(s, off, 4, z - off);
  }

  lemma FirstNamed(w: Bytes)
    requires |w| >= 4 && U32(w[..4]) == BEGIN_NODE
    ensures var z := NulFrom(w, 4); First(w) == if z == |w| then Bad else Lex(Begin(w[4..z]), z + 1)
  {
    hide NulFrom, U32;
  }

  lemma FirstValue(s: Bytes, off: nat)
    requires off + 4 <= |s| && U32(s[off..off + 4]) == PROP
    ensures if off + 12 > |s| || off + 12 + U32(s[off + 4..off + 8]) > |s| then First(s[off..]) == Bad
            else var len := U32(s[off + 4..off + 8]);
                 First(s[off..]) == Lex(Property(U32(s[off + 8..off + 12]), s[off + 12..off + 12 + len]), 12 + len)
  {
    hide NulFrom, U32;
    var w := s[off..];
    Head(s, off, 4);
    if off + 12 <= |s| {
      Tail(s, off, 4, 8);
      Tail(s, off, 8, 12);
      var len := U32(w[4..8]);
      if off + 12 + len <= |s| {
        Tail(s, off, 12, 12 + len);
      }
    }
  }

  lemma FirstOther(s: Bytes, off: nat)
    requires off + 4 <= |s| && U32(s[off..off + 4]) != BEGIN_NODE && U32(s[off..off + 4]) != PROP
    ensures var tag := U32(s[off..off + 4]);
            First(s[off..]) ==
              if tag == END_NODE then Lex(Finish, 4)
              else if tag == NOP then Lex(Nop, 4)
              else if tag == END then Lex(End, 4)
              else Bad
  {
    hide NulFrom, U32;
    Head(s, off, 4);
  }

  /** The bytes that tags are made of. */
  lemma TagBytes(s: Bytes, off: nat)
    requires off + 4 <= |s|
    ensures var w, f := s[off..off + 4], First(s[off..]);
            && (w == [0, 0, 0, 1] <==> U32(w) == BEGIN_NODE) && (w == [0, 0, 0, 2] <==> U32(w) == END_NODE)
            && (w == [0, 0, 0, 3] <==> U32(w) == PROP) && (w == [0, 0, 0, 4] <==> U32(w) == NOP)
            && (w == [0, 0, 0, 9] <==> U32(w) == END)
            && (f.Lex? ==> match f.token
                           case Begin(_) => w == [0, 0, 0, 1]
                           case Finish => w == [0, 0, 0, 2]
                           case Property(_, _) => w == [0, 0, 0, 3]
                           case Nop => w == [0, 0, 0, 4]
                           case End => w == [0, 0, 0, 9])
  {
    hide First, NulFrom;
    FirstAt(s, off);
    SmallWord(s[off..off + 4]);
  }

  lemma SmallWord(w: Bytes)
    requires |w| == 4
    ensures U32(w) < 256 ==> w == [0, 0, 0, U32(w)]
    ensures w[0] == w[1] == w[2] == 0 ==> U32(w) == w[3]
  {
  }

  /** The fields of a property. */
  lemma PropertyFields(s: Bytes, off: nat)
    requires off <= |s| && First(s[off..]).Lex? && First(s[off..]).token.Property?
    ensures off + 12 <= |s| && U32(s[off..off + 4]) == PROP &&
      U32(s[off + 8..off + 12]) == First(s[off..]).token.nameOff
    ensures var len := U32(s[off + 4..off + 8]);
            First(s[off..]).size == 12 + len && off + 12 + len <= |s| &&
              First(s[off..]).token.value == s[off + 12..off + 12 + len]
  {
    hide NulFrom, U32;
    FirstAt(s, off);
  }

  const ERR_NOTFOUND: int := 1
  const ERR_NOSPACE: int := 3
  const ERR_BADOFFSET: int := 4
  const ERR_BADSTATE: int := 7
  const ERR_TRUNCATED: int := 8
  const ERR_BADMAGIC: int := 9
  const ERR_BADVERSION: int := 10
  const ERR_BADSTRUCTURE: int := 11
  const ERR_BADLAYOUT: int := 12

  /** No error code of the program: a test in 32-bit arithmetic has let it write out of bounds. */
  const OVERRUN: int := -1000

  /** Nor is this: a walk has come to a property whose size wraps around in 32-bit arithmetic. */
  const ASTRAY: int := -1001

  /** Nor this: a walk never ends. */
  const ENDLESS: int := -1002

  /** The bytes start with a property whose size, taken in 32 bits, is less than that of its header. */
  ghost predicate Wrapped(w: Bytes) {
    |w| >= 8 && U32(w[..4]) == PROP && LIMIT32 <= 12 + U32(w[4..8]) <= LIMIT32 + |w|
  }

  /** What the format says of an offset: a tag and the offset behind its token, or an error. */
  ghost function TagAt(s: Bytes, off: int): (r: (nat, int)) {
    if off < 0 || off + 4 > |s| then (END, -ERR_TRUNCATED)
    else if First(s[off..]).Bad? then (END, if Wrapped(s[off..]) then ASTRAY else -ERR_BADSTRUCTURE)
    else (TagOf(First(s[off..]).token), Align4(off + First(s[off..]).size))
  }

  /** A tag at which the tag reader and the format part. */
  ghost predicate Wraps(s: Bytes, off: int) {
    TagAt(s, off).1 == ASTRAY
  }

  /** What the tag reader says: a property whose size wraps around is one of the size that is left. */
  ghost function ProgramTag(s: Bytes, off: int): (r: (nat, int)) {
    if Wraps(s, off) then (PROP, Align4(off + 12 + U32(s[off + 4..off + 8]) - LIMIT32)) else TagAt(s, off)
  }

  /** They part exactly at a property with a length from 2^32 - 12 on whose wrapped size lies in the block. */
  lemma WrapsExactly(s: Bytes, off: int)
    requires |s| < LIMIT32
    ensures ProgramTag(s, off) == TagAt(s, off) <==> !Wraps(s, off)
    ensures Wraps(s, off) <==>
            && 0 <= off && off + 8 <= |s| && U32(s[off..off + 4]) == PROP
            && LIMIT32 <= 12 + U32(s[off + 4..off + 8]) <= LIMIT32 + (|s| - off)
  {
    hide U32, NulFrom;
    if 0 <= off && off + 8 <= |s| {
      FirstAt(s, off);
      Head(s, off, 4);
      Tail(s, off, 4, 8);
    }
  }

  /** The tag reader, by the words of the block. */
  lemma ProgramAt(s: Bytes, off: nat)
    requires off + 4 <= |s| < LIMIT32
    ensures var tag := U32(s[off..off + 4]); var r := ProgramTag(s, off); var bad := (END, -ERR_BADSTRUCTURE);
            && (tag == BEGIN_NODE ==>
                  var z := NulFrom(s, off + 4); r == if z == |s| then bad else (BEGIN_NODE, Align4(z + 1)))
            && (tag == PROP && off + 8 > |s| ==> r == bad)
            && (tag == PROP && off + 8 <= |s| ==>
                  var size := (12 + U32(s[off + 4..off + 8])) % LIMIT32;
                  r == if off + size <= |s| then (PROP, Align4(off + size)) else bad)
            && (tag == END_NODE || tag == NOP || tag == END ==> r == (tag, Align4(off + 4)))
            && (tag != BEGIN_NODE && tag != PROP && tag != END_NODE && tag != NOP && tag != END ==> r == bad)
  {
    hide U32, NulFrom, First, Align4, Wrapped;
    WrapsExactly(s, off);
    if U32(s[off..off + 4]) == PROP && off + 8 <= |s| {
      ProgramProp(s, off);
    } else {
      FirstAt(s, off);
    }
  }

  lemma ProgramProp(s: Bytes, off: nat)
    requires off + 8 <= |s| < LIMIT32 && U32(s[off..off + 4]) == PROP
    ensures var size := (12 + U32(s[off + 4..off + 8])) % LIMIT32;
            ProgramTag(s, off) == if off + size <= |s| then (PROP, Align4(off + size)) else (END, -ERR_BADSTRUCTURE)
  {
    hide U32, NulFrom, First, Align4, Wrapped;
    WrapsExactly(s, off);
    FirstAt(s, off);
  }

  lemma Nothing(s: Bytes, off: int)
    requires off < 0 || off + 4 > |s|
    ensures ProgramTag(s, off) == (END, -ERR_TRUNCATED)
  {
  }

  /** The length of a property, in either case. */
  lemma PropertySize(s: Bytes, off: int)
    requires |s| < LIMIT32 && ProgramTag(s, off).0 == PROP
    ensures 0 <= off && off + 8 <= |s|
    ensures U32(s[off + 4..off + 8]) >= LIMIT32 - 12 <==> Wraps(s, off)
  {
    hide U32, NulFrom;
    if 0 <= off && off + 8 <= |s| {
      FirstAt(s, off);
      Head(s, off, 4);
      Tail(s, off, 4, 8);
    } else if 0 <= off && off + 4 <= |s| {
      FirstAt(s, off);
    }
  }

  // ---- writing tokens

  /** The word of a tag on its own. */
  function TagWord(tag: nat): (b: Bytes)
    requires tag < LIMIT32
    ensures |b| == 4
  {
    Be32(tag)
  }

  lemma FirstPlain(t: Token, b: Bytes)
    requires t.Finish? || t.Nop? || t.End?
    ensures First(TagWord(TagOf(t)) + b) == Lex(t, 4)
  {
    var w := TagWord(TagOf(t)) + b;
    assert w[..4] == TagWord(TagOf(t));
    ReadBe32(TagOf(t));
  }

  lemma FirstBegin(name: Bytes, b: Bytes)
    requires IsName(name)
    ensures First(Be32(BEGIN_NODE) + name + [0] + b) == Lex(Begin(name), 4 + |name| + 1)
  {
    var w := Be32(BEGIN_NODE) + name + [0] + b;
    assert w[..4] == Be32(BEGIN_NODE);
    ReadBe32(BEGIN_NODE);
    var z := 4 + |name|;
    assert w[z] == 0;
    assert forall k | 4 <= k < z :: w[k] == name[k - 4];
    assert NulFrom(w, 4) == z;
    assert w[4..z] == name;
  }

  lemma FirstProperty(nameOff: nat, value: Bytes, b: Bytes)
    requires nameOff < LIMIT32 && |value| < LIMIT32
    ensures First(Be32(PROP) + Be32(|value|) + Be32(nameOff) + value + b) == Lex(Property(nameOff, value), 12 + |value|)
  {
    hide Be32, U32;
    var w := Be32(PROP) + Be32(|value|) + Be32(nameOff) + value + b;
    assert w[..4] == Be32(PROP) && w[4..8] == Be32(|value|) && w[8..12] == Be32(nameOff);
    assert w[12..12 + |value|] == value;
    ReadBe32(PROP);
    ReadBe32(|value|);
    ReadBe32(nameOff);
  }

  // ---- blocks of tokens

  ghost function Join<T>(a: Option<seq<T>>, b: Option<seq<T>>): Option<seq<T>> {
    if a.None? || b.None? then None else Some(a.value + b.value)
  }

  lemma JoinAssoc<T>(a: Option<seq<T>>, b: Option<seq<T>>, c: Option<seq<T>>)
    ensures Join(Join(a, b), c) == Join(a, Join(b, c))
  {
    if a.Some? && b.Some? && c.Some? {
      assert a.value + b.value + c.value == a.value + (b.value + c.value);
    }
  }

  lemma JoinEmpty<T>(a: Option<seq<T>>)
    ensures Join(Some([]), a) == a && Join(a, Some([])) == a
  {
    if a.Some? {
      assert [] + a.value == a.value && a.value + [] == a.value;
    }
  }

  /** The tokens of a piece of a structure block made up of whole tokens, none of them the end. */
  ghost function Scan(w: Bytes): (r: Option<seq<Token>>)
    decreases |w|
  {
    if w == [] then Some([])
    else
      var f := First(w);
      if f.Bad? || f.token.End? || Align4(f.size) > |w| then None
      else Join(Some([f.token]), Scan(w[Align4(f.size)..]))
  }

  /** The tokens of a structure block up to its end tag. */
  ghost function Walk(w: Bytes): (r: Option<seq<Token>>)
    decreases |w|
  {
    var f := First(w);
    if f.Bad? then None
    else if f.token.End? then Some([])
    else if Align4(f.size) > |w| then None
    else Join(Some([f.token]), Walk(w[Align4(f.size)..]))
  }

  lemma {:induction false} ScanAppend(a: Bytes, b: Bytes)
    requires Scan(a).Some?
    ensures Scan(a + b) == Join(Scan(a), Scan(b))
    decreases |a|
  {
    hide First;
    if a == [] {
      assert a + b == b;
      JoinEmpty(Scan(b));
    } else {
      FirstAppend(a, b);
      var n := Align4(First(a).size);
      assert (a + b)[n..] == a[n..] + b;
      ScanAppend(a[n..], b);
      JoinAssoc(Some([First(a).token]), Scan(a[n..]), Scan(b));
    }
  }

  lemma {:induction false} WalkAppend(a: Bytes, b: Bytes)
    requires Scan(a).Some?
    ensures Walk(a + b) == Join(Scan(a), Walk(b))
    decreases |a|
  {
    hide First;
    if a == [] {
      assert a + b == b;
      JoinEmpty(Walk(b));
    } else {
      FirstAppend(a, b);
      var n := Align4(First(a).size);
      assert (a + b)[n..] == a[n..] + b;
      WalkAppend(a[n..], b);
      JoinAssoc(Some([First(a).token]), Scan(a[n..]), Walk(b));
    }
  }

  lemma {:induction false} ScanAligned(a: Bytes)
    requires Scan(a).Some?
    ensures |a| % 4 == 0
    decreases |a|
  {
    hide First, Align4, Scan;
    if a != [] {
      ScanTail(a);
      var n := Align4(First(a).size);
      ScanAligned(a[n..]);
      assert |a| == n + |a[n..]|;
    }
  }

  lemma ScanTail(a: Bytes)
    requires Scan(a).Some? && a != []
    ensures First(a).Lex? && 0 < Align4(First(a).size) <= |a| && Scan(a[Align4(First(a).size)..]).Some?
  {
    hide First, Align4;
  }

  lemma ScanNone()
    ensures Scan([]) == Some([])
  {
  }

  lemma MeaningNone(strings: Bytes)
    ensures Meaning([], strings) == Some([])
  {
  }

  /** One token with its padding is a piece. */
  lemma ScanOne(w: Bytes)
    requires First(w).Lex? && !First(w).token.End? && |w| == Align4(First(w).size)
    ensures Scan(w) == Some([First(w).token])
  {
    hide First;
    assert w[|w|..] == [];
    assert Scan([]) == Some([]);
    JoinEmpty(Some([First(w).token]));
  }

  /** A token boundary of a structure block. */
  ghost predicate Boundary(s: Bytes, off: int) {
    0 <= off <= |s| && Scan(s[..off]).Some?
  }

  /** Stepping over a token from one boundary to the next. */
  lemma BoundaryStep(s: Bytes, off: nat)
    requires Boundary(s, off)
    requires First(s[off..]).Lex? && !First(s[off..]).token.End? && off + Align4(First(s[off..]).size) <= |s|
    ensures var f := First(s[off..]); var next := off + Align4(f.size);
            && Boundary(s, next)
            && Scan(s[off..next]) == Some([f.token])
            && Scan(s[..next]).value == Scan(s[..off]).value + [f.token]
            && next == Align4(off + f.size)
  {
    hide First, Scan;
    var f := First(s[off..]);
    var n := Align4(f.size);
    var piece := s[off..off + n];
    assert piece[..f.size] == s[off..][..f.size];
    FirstLocal(piece, s[off..]);
    ScanOne(piece);
    assert s[..off + n] == s[..off] + piece;
    ScanAppend(s[..off], piece);
    ScanAligned(s[..off]);
    assert off == |s[..off]|;
    AlignShift(off, f.size);
  }

  /** Two boundaries delimit a piece. */
  lemma BoundaryBetween(s: Bytes, a: nat, b: nat)
    requires Boundary(s, a) && a <= b <= |s| && Scan(s[a..b]).Some?
    ensures Boundary(s, b) && Scan(s[..b]).value == Scan(s[..a]).value + Scan(s[a..b]).value
  {
    hide First, Scan;
    assert s[..b] == s[..a] + s[a..b];
    ScanAppend(s[..a], s[a..b]);
  }

  lemma WalkAt(s: Bytes, off: nat)
    requires Boundary(s, off)
    ensures Walk(s) == Join(Scan(s[..off]), Walk(s[off..]))
  {
    hide Scan, Walk, First;
    assert s == s[..off] + s[off..];
    WalkAppend(s[..off], s[off..]);
  }

  // ---- what a block means

  /** What a reader of the tree sees, in order: padding tags left out and names looked up. */
  datatype Event = Open(name: Bytes) | Close | Entry(name: Bytes, value: Bytes)

  ghost function Meaning(ts: seq<Token>, strings: Bytes): (r: Option<seq<Event>>) {
    if ts == [] then Some([])
    else Join(MeaningOf(ts[0], strings), Meaning(ts[1..], strings))
  }

  ghost function MeaningOf(t: Token, strings: Bytes): Option<seq<Event>> {
    match t
    case Begin(name) => Some([Open(name)])
    case Finish => Some([Close])
    case Property(o, value) =>
      if StringAt(strings, o).None? then None else Some([Entry(StringAt(strings, o).value, value)])
    case Nop => Some([])
    case End => None
  }

  lemma {:induction false} MeaningAppend(a: seq<Token>, b: seq<Token>, strings: Bytes)
    ensures Meaning(a + b, strings) == Join(Meaning(a, strings), Meaning(b, strings))
    decreases |a|
  {
    if a == [] {
      assert a + b == b;
      JoinEmpty(Meaning(b, strings));
    } else {
      assert (a + b)[1..] == a[1..] + b;
      MeaningAppend(a[1..], b, strings);
      JoinAssoc(MeaningOf(a[0], strings), Meaning(a[1..], strings), Meaning(b, strings));
    }
  }

  lemma {:induction false} MeaningBefore(ts: seq<Token>, strings: Bytes, more: Bytes)
    requires Meaning(ts, strings).Some?
    ensures Meaning(ts, strings + more) == Meaning(ts, strings)
    decreases |ts|
  {
    if ts != [] {
      MeaningBefore(ts[1..], strings, more);
      if ts[0].Property? {
        StringBefore(strings, more, ts[0].nameOff);
      }
    }
  }

  lemma MeaningOne(t: Token, strings: Bytes)
    ensures Meaning([t], strings) == MeaningOf(t, strings)
  {
    assert [t][1..] == [];
    JoinEmpty(MeaningOf(t, strings));
  }

  /** The meaning of a structure block with its strings block. */
  ghost function Events(s: Bytes, strings: Bytes): Option<seq<Event>> {
    if Walk(s).None? then None else Meaning(Walk(s).value, strings)
  }

  /** A block's meaning is put together from its pieces'. */
  lemma EventsAppend(a: Bytes, b: Bytes, strings: Bytes)
    requires Scan(a).Some?
    ensures Events(a + b, strings) ==
            if Walk(b).None? then None else Join(Meaning(Scan(a).value, strings), Events(b, strings))
  {
    hide Scan, Walk, Meaning;
    WalkAppend(a, b);
    if Walk(b).Some? {
      MeaningAppend(Scan(a).value, Walk(b).value, strings);
    }
  }

  // ---- reservations

  const NO_SIZE: Bytes := [0, 0, 0, 0, 0, 0, 0, 0]

  /** The entries of the reservation block at an offset: 16 bytes each, up to the first of size zero. */
  ghost function Reserved(b: Bytes, off: nat): (r: Option<seq<Bytes>>)
    decreases |b| - off
  {
    if off + 16 > |b| then None
    else if b[off + 8..off + 16] == NO_SIZE then Some([])
    else Join(Some([b[off..off + 16]]), Reserved(b, off + 16))
  }

  /** The two numbers of an entry. */
  ghost function AddressOf(e: Bytes): nat
    requires |e| == 16
  {
    BigEndian(e[..8])
  }

  ghost function SizeOf(e: Bytes): nat
    requires |e| == 16
  {
    BigEndian(e[8..16])
  }

  /** An entry ends the block exactly if its size is zero. */
  lemma NoSizeIsZero(b: Bytes)
    requires |b| == 8
    ensures b == NO_SIZE <==> BigEndian(b) == 0
  {
    if b == NO_SIZE {
      AllZero(b);
    } else {
      var i :| 0 <= i < 8 && b[i] != 0;
      NotZero(b, i);
    }
  }

  lemma {:induction false} AllZero(b: Bytes)
    requires forall i | 0 <= i < |b| :: b[i] == 0
    ensures BigEndian(b) == 0
    decreases |b|
  {
    if b != [] {
      AllZero(b[..|b| - 1]);
    }
  }

  lemma {:induction false} NotZero(b: Bytes, i: nat)
    requires i < |b| && b[i] != 0
    ensures BigEndian(b) > 0
    decreases |b|
  {
    if i < |b| - 1 {
      NotZero(b[..|b| - 1], i);
    }
  }

  /** Every entry read has 16 bytes and a size. */
  lemma {:induction false} ReservedSizes(b: Bytes, off: nat)
    requires Reserved(b, off).Some?
    ensures forall i | 0 <= i < |Reserved(b, off).value| ::
      |Reserved(b, off).value[i]| == 16 && SizeOf(Reserved(b, off).value[i]) > 0
    decreases |b| - off
  {
    if b[off + 8..off + 16] != NO_SIZE {
      ReservedSizes(b, off + 16);
      NoSizeIsZero(b[off + 8..off + 16]);
      Inner(b, off, off + 16, 8, 16);
    }
  }

  /** Only the block itself matters. */
  lemma {:induction false} ReservedLocal(b: Bytes, c: Bytes, off: nat, end: nat)
    requires off <= end <= |b| && end <= |c| && b[..end] == c[..end] && Reserved(b[..end], off).Some?
    ensures Reserved(b, off) == Reserved(c, off) == Reserved(b[..end], off)
    decreases end - off
  {
    Inner(b, 0, end, off, off + 16);
    Inner(c, 0, end, off, off + 16);
    Inner(b, 0, end, off + 8, off + 16);
    Inner(c, 0, end, off + 8, off + 16);
    if b[off + 8..off + 16] != NO_SIZE {
      ReservedLocal(b, c, off + 16, end);
    }
  }

  // ---- padding tags

  ghost function Nops(n: nat): (w: Bytes)
    ensures |w| == 4 * n
  {
    if n == 0 then [] else TagWord(NOP) + Nops(n - 1)
  }

  lemma {:induction false} NopsMeanNothing(n: nat, strings: Bytes)
    ensures Scan(Nops(n)).Some? && Meaning(Scan(Nops(n)).value, strings) == Some([])
  {
    hide First, Scan, Meaning, TagWord;
    if n == 0 {
      ScanNone();
      MeaningNone(strings);
    } else {
      NopsMeanNothing(n - 1, strings);
      FirstPlain(Nop, []);
      var w := TagWord(NOP);
      assert w + [] == w;
      ScanOne(w);
      ScanAppend(w, Nops(n - 1));
      MeaningAppend([Nop], Scan(Nops(n - 1)).value, strings);
      MeaningOne(Nop, strings);
      JoinEmpty<Event>(Some([]));
    }
  }
}
