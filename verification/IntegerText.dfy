/**
 Integers as text: strtol, strtoll, strtoul and strtoull, which saturate at the ends of their
 range, and the digit printer behind printf. Texts are the bytes before the terminating zero.
 */
module IntegerText {
  import opened Basics
  import opened Arith

  type Text = seq<Byte>

  const ULLONG_MAX: nat := 0xffff_ffff_ffff_ffff
  const LLONG_MAX: nat := 0x7fff_ffff_ffff_ffff
  const LLONG_MIN: int := -0x8000_0000_0000_0000

  /** A text holds no zero byte; reading at its end gives the terminator. */
  predicate Terminated(s: Text) {
    forall i | 0 <= i < |s| :: s[i] != 0
  }

  function At(s: Text, i: nat): Byte {
    if i < |s| then s[i] else 0
  }

  predicate IsSpace(c: Byte) {
    9 <= c <= 13 || c == 32 || c == 160
  }

  /** The value of a digit or letter. */
  function DigitValue(c: Byte): (r: Option<nat>)
    ensures r.Some? ==> r.value < 36
  {
    if 48 <= c <= 57 then Some(c - 48)
    else if 65 <= c <= 90 then Some(c - 65 + 10)
    else if 97 <= c <= 122 then Some(c - 97 + 10)
    else None
  }

  predicate IsDigit(c: Byte, base: nat) {
    DigitValue(c).Some? && DigitValue(c).value < base
  }

  function Digit(c: Byte, base: nat): (d: nat)
    requires IsDigit(c, base)
    ensures d < base
  {
    DigitValue(c).value
  }

  // ---- what a text says

  /** One more digit. */
  function Shift(acc: nat, base: nat, d: nat): nat {
    MulMono(0, acc, base);
    acc * base + d
  }

  /** The value of a run of digits, most significant first, on top of acc. */
  ghost function Value(s: Text, base: nat, acc: nat): nat
    requires forall i | 0 <= i < |s| :: IsDigit(s[i], base)
  {
    if s == [] then acc
    else Value(s[1..], base, Shift(acc, base, Digit(s[0], base)))
  }

  /** Where the run of digits from i on ends. */
  ghost function DigitsEnd(s: Text, i: nat, base: nat): (e: nat)
    requires i <= |s|
    ensures i <= e <= |s|
    ensures forall k | i <= k < e :: IsDigit(s[k], base)
    ensures e < |s| ==> !IsDigit(s[e], base)
    decreases |s| - i
  {
    if i < |s| && IsDigit(s[i], base) then DigitsEnd(s, i + 1, base) else i
  }

  ghost function SpacesEnd(s: Text, i: nat): (e: nat)
    requires i <= |s|
    ensures i <= e <= |s|
    decreases |s| - i
  {
    if i < |s| && IsSpace(s[i]) then SpacesEnd(s, i + 1) else i
  }

  /** Sign, base and digits of a text: where the digits start, and in what base. */
  datatype Form = Form(neg: bool, base: nat, first: nat)

  predicate HexPrefix(s: Text, p: nat, base: nat) {
    (base == 0 || base == 16) && At(s, p) == 48 && (At(s, p + 1) == 120 || At(s, p + 1) == 88)
  }

  ghost function FormOf(s: Text, base: nat): (f: Form)
    ensures f.first <= |s|
    ensures base <= 36 && base != 1 ==> 2 <= f.base <= 36
  {
    var p := SpacesEnd(s, 0);
    var neg := At(s, p) == 45;
    var q := if neg || At(s, p) == 43 then p + 1 else p;
    if HexPrefix(s, q, base) then Form(neg, 16, q + 2)
    else Form(neg, if base == 0 then (if At(s, q) == 48 then 8 else 10) else base, q)
  }

  /** The digits of the text and the number they stand for. */
  ghost function Magnitude(s: Text, base: nat): nat {
    var f := FormOf(s, base);
    Value(s[f.first..DigitsEnd(s, f.first, f.base)], f.base, 0)
  }

  // ---- accumulating with a cutoff

  predicate Exceeds(acc: nat, d: nat, base: nat, max: nat)
    requires base > 0
  {
    acc > max / base || (acc == max / base && d > max % base)
  }

  /** The cutoff test says exactly whether one more digit exceeds the limit. */
  lemma CutoffExact(acc: nat, d: nat, base: nat, max: nat)
    requires 2 <= base && d < base
    ensures Exceeds(acc, d, base, max) <==> Shift(acc, base, d) > max
  {
    ModRange(max, base);
    var q := max / base;
    if acc > q {
      MulMono(q + 1, acc, base);
      assert (q + 1) * base == q * base + base;
    } else if acc < q {
      MulMono(acc + 1, q, base);
      assert (acc + 1) * base == acc * base + base;
    }
  }

  lemma ValueNone(base: nat)
    ensures Value([], base, 0) == 0
  {
  }

  lemma {:induction false} ValueSnoc(s: Text, c: Byte, base: nat, acc: nat)
    requires IsDigit(c, base) && forall i | 0 <= i < |s| :: IsDigit(s[i], base)
    ensures Value(s + [c], base, acc) == Shift(Value(s, base, acc), base, Digit(c, base))
    decreases |s|
  {
    if s == [] {
      assert s + [c] == [c];
      assert [c][1..] == [];
    } else {
      assert (s + [c])[1..] == s[1..] + [c];
      ValueSnoc(s[1..], c, base, Shift(acc, base, Digit(s[0], base)));
    }
  }

  /** What the digit loop knows: any is 0 before the first digit, -1 once the limit is exceeded. */
  ghost predicate Accumulated(v: nat, digits: nat, max: nat, acc: nat, any: int) {
    if digits == 0 then any == 0 && acc == 0
    else if v > max then any == -1 && acc <= max
    else any == 1 && acc == v
  }

  /** The program's test for a digit that does not fit. */
  predicate Over(acc: nat, any: int, d: nat, base: nat, max: nat)
    requires base > 0
  {
    any < 0 || Exceeds(acc, d, base, max)
  }

  lemma AccumulateStep(v: nat, digits: nat, d: nat, base: nat, max: nat, acc: nat, any: int)
    requires 2 <= base && d < base && (digits == 0 ==> v == 0)
    requires Accumulated(v, digits, max, acc, any)
    ensures var over := Over(acc, any, d, base, max);
            && (!over ==> Shift(acc, base, d) <= max)
            && Accumulated(Shift(v, base, d), digits + 1, max,
                           if over then acc else Shift(acc, base, d), if over then -1 else 1)
  {
    hide Shift, Exceeds;
    CutoffExact(acc, d, base, max);
    ShiftGrows(v, base, d);
  }

  lemma ShiftGrows(v: nat, base: nat, d: nat)
    requires 1 <= base
    ensures v <= Shift(v, base, d) && (v == 0 ==> Shift(v, base, d) == d)
  {
    MulMono(1, base, v);
  }

  /** The digit loop: acc saturates at max, in which case any is -1. */
  method Accumulate(s: Text, first: nat, base: nat, max: nat) returns (acc: nat, any: int, end: nat)
    requires first <= |s| && 2 <= base <= 36
    ensures end == DigitsEnd(s, first, base)
    ensures Accumulated(Value(s[first..end], base, 0), end - first, max, acc, any)
  {
    hide Value, Shift, Exceeds, IsDigit;
    acc, any := 0, 0;
    end := first;
    assert s[first..first] == [];
    while end < |s| && IsDigit(s[end], base)
      invariant first <= end <= |s|
      invariant DigitsEnd(s, first, base) == DigitsEnd(s, end, base)
      invariant Accumulated(Value(s[first..end], base, 0), end - first, max, acc, any)
    {
      var c := Digit(s[end], base);
      ghost var t := s[first..end];
      ValueSnoc(t, s[end], base, 0);
      ValueNone(base);
      AccumulateStep(Value(t, base, 0), |t|, c, base, max, acc, any);
      assert s[first..end + 1] == t + [s[end]];
      if Over(acc, any, c, base, max) {
        any := -1;
      } else {
        any := 1;
        acc := Shift(acc, base, c);
      }
      end := end + 1;
    }
  }

  /** Blanks, sign and prefix. */
  method Preamble(s: Text, base0: nat) returns (f: Form)
    ensures f == FormOf(s, base0)
  {
    var p := 0;
    while p < |s| && IsSpace(s[p])
      invariant 0 <= p <= |s| && SpacesEnd(s, 0) == SpacesEnd(s, p)
    {
      p := p + 1;
    }
    var neg, base := false, base0;
    if At(s, p) == 45 {
      neg := true;
      p := p + 1;
    } else if At(s, p) == 43 {
      p := p + 1;
    }
    if (base == 0 || base == 16) && At(s, p) == 48 && (At(s, p + 1) == 120 || At(s, p + 1) == 88) {
      p := p + 2;
      base := 16;
    }
    if base == 0 {
      base := if At(s, p) == 48 then 8 else 10;
    }
    f := Form(neg, base, p);
  }

  // ---- how texts spell numbers

  /** Tab, line feed, vertical tab, form feed, carriage return, space and the space that does not break. */
  const BLANKS: set<Byte> := {9, 10, 11, 12, 13, 32, 160}

  const PLUS: Text := [43]
  const MINUS: Text := [45]

  /** Blanks, sign, prefix, digits of a base, and what is behind them. */
  datatype Spelling = Spelling(blanks: Text, sign: Text, prefix: Text, digits: Text, rest: Text, base: nat)

  ghost predicate AllDigits(u: Text, base: nat) {
    u != [] && forall i | 0 <= i < |u| :: IsDigit(u[i], base)
  }

  /** A text is put together like this. */
  ghost predicate Spells(s: Text, base: nat, p: Spelling) {
    && s == p.blanks + p.sign + p.prefix + p.digits + p.rest
    && (forall i | 0 <= i < |p.blanks| :: p.blanks[i] in BLANKS)
    && (p.sign == [] || p.sign == PLUS || p.sign == MINUS)
    && AllDigits(p.digits, p.base) && (p.rest != [] ==> !IsDigit(p.rest[0], p.base))
    && if p.prefix == [] then p.base == PlainBase(p.digits, base) && !(HasHex(base) && Prefixed(p.digits + p.rest))
       else p.base == 16 && HasHex(base) && |p.prefix| == 2 && Prefixed(p.prefix)
  }

  ghost predicate Prefixed(u: Text) {
    |u| >= 2 && u[0] == 48 && (u[1] == 120 || u[1] == 88)
  }

  predicate HasHex(base: nat) {
    base == 0 || base == 16
  }

  /** Without a prefix, base 0 leaves the base to the first digit. */
  ghost function PlainBase(digits: Text, base: nat): nat
    requires digits != []
  {
    if base != 0 then base else if digits[0] == 48 then 8 else 10
  }

  /** The number that is spelled. */
  ghost function Number(s: Text, base: nat, p: Spelling): int
    requires Spells(s, base, p)
  {
    var v: int := Value(p.digits, p.base, 0);
    if p.sign == MINUS then -v else v
  }

  /** Digits count on from 0, letters of either case from 10, and nothing else is a digit. */
  lemma Alphabet(c: Byte)
    ensures DigitValue('0' as int) == Some(0) && DigitValue('a' as int) == DigitValue('A' as int) == Some(10)
    ensures ('0' as int < c <= '9' as int || 'a' as int < c <= 'z' as int || 'A' as int < c <= 'Z' as int) ==>
      DigitValue(c - 1).Some? && DigitValue(c) == Some(DigitValue(c - 1).value + 1)
    ensures DigitValue(c).Some? <==>
      '0' as int <= c <= '9' as int || 'a' as int <= c <= 'z' as int || 'A' as int <= c <= 'Z' as int
  {
  }

  /** What a digit stands for depends on how many follow it. */
  lemma {:induction false} ValueByPlaces(s: Text, base: nat)
    requires s != [] && forall i | 0 <= i < |s| :: IsDigit(s[i], base)
    ensures Value(s, base, 0) == Digit(s[0], base) * Power(base, |s| - 1) + Value(s[1..], base, 0)
  {
    hide IsDigit, Power;
    ValueOnTop(s[1..], base, Digit(s[0], base));
    assert Shift(0, base, Digit(s[0], base)) == Digit(s[0], base);
  }

  lemma {:induction false} ValueOnTop(s: Text, base: nat, acc: nat)
    requires forall i | 0 <= i < |s| :: IsDigit(s[i], base)
    ensures Value(s, base, acc) == acc * Power(base, |s|) + Value(s, base, 0)
    decreases |s|
  {
    hide IsDigit;
    if s != [] {
      var d, p := Digit(s[0], base), Power(base, |s| - 1);
      ValueOnTop(s[1..], base, Shift(acc, base, d));
      ValueOnTop(s[1..], base, Shift(0, base, d));
      Places(acc, base, d, p);
    }
  }

  lemma Places(acc: nat, base: nat, d: nat, p: nat)
    ensures Shift(acc, base, d) * p == acc * (base * p) + Shift(0, base, d) * p
  {
    assert acc * base * p == acc * (base * p);
    assert (acc * base + d) * p == acc * base * p + d * p;
  }

  ghost function Power(base: nat, n: nat): nat {
    if n == 0 then 1 else base * Power(base, n - 1)
  }

  lemma {:induction false} BlanksEnd(s: Text, i: nat, n: nat)
    requires i <= n <= |s| && (forall k | i <= k < n :: s[k] in BLANKS) && (n < |s| ==> s[n] !in BLANKS)
    ensures SpacesEnd(s, i) == n
    decreases n - i
  {
    if i < n {
      BlanksEnd(s, i + 1, n);
    }
  }

  lemma {:induction false} DigitsRun(s: Text, i: nat, n: nat, base: nat)
    requires i <= n <= |s| && (forall k | i <= k < n :: IsDigit(s[k], base)) && (n < |s| ==> !IsDigit(s[n], base))
    ensures DigitsEnd(s, i, base) == n
    decreases n - i
  {
    hide IsDigit;
    if i < n {
      DigitsRun(s, i + 1, n, base);
    }
  }

  lemma AtBehind(a: Text, b: Text, i: nat)
    ensures At(a + b, |a| + i) == At(b, i)
  {
  }

  /** Two parts of a text. */
  lemma Parts(a: Text, b: Text)
    ensures (a + b)[..|a|] == a && (a + b)[|a|..] == b
    ensures forall i | 0 <= i < |a| :: (a + b)[i] == a[i]
  {
  }

  lemma Bracketed(p: Spelling)
    ensures p.blanks + p.sign + p.prefix + p.digits + p.rest == p.blanks + Behind(p)
  {
  }

  ghost function Behind(p: Spelling): Text {
    p.sign + (p.prefix + (p.digits + p.rest))
  }

  /** The first character of a number is no blank, and no sign. */
  lemma FirstOfNumber(s: Text, base: nat, p: Spelling)
    requires Spells(s, base, p)
    ensures var v := p.prefix + (p.digits + p.rest); |v| > 0 && v[0] !in BLANKS && v[0] != 43 && v[0] != 45
  {
    assert IsDigit(p.digits[0], p.base);
  }

  /** Where the blanks end, and which sign follows. */
  lemma SpelledSign(s: Text, base: nat, p: Spelling)
    requires Spells(s, base, p)
    ensures var n := |p.blanks|;
            && SpacesEnd(s, 0) == n && (At(s, n) == 45 <==> p.sign == MINUS) && (At(s, n) == 43 <==> p.sign == PLUS)
            && s[n + |p.sign|..] == p.prefix + (p.digits + p.rest)
  {
    hide SpacesEnd, IsDigit, AllDigits;
    FirstOfNumber(s, base, p);
    Bracketed(p);
    var n, v := |p.blanks|, p.prefix + (p.digits + p.rest);
    Parts(p.blanks, Behind(p));
    Parts(p.sign, v);
    AtBehind(p.blanks, Behind(p), 0);
    BlanksEnd(s, 0, n);
    assert s[n..][|p.sign|..] == s[n + |p.sign|..];
  }

  /** The digits behind a prefix. */
  lemma DigitsBehind(prefix: Text, digits: Text, rest: Text, base: nat)
    requires AllDigits(digits, base) && (rest != [] ==> !IsDigit(rest[0], base))
    ensures var v := prefix + (digits + rest); var l, e := |prefix|, |prefix| + |digits|;
            DigitsEnd(v, l, base) == e == |v| - |rest| && v[l..e] == digits
  {
    hide DigitsEnd, IsDigit;
    var u, l, e := digits + rest, |prefix|, |prefix| + |digits|;
    var v := prefix + u;
    assert v[l..e] == digits;
    assert forall k | l <= k < e :: v[k] == digits[k - l];
    assert e < |v| ==> v[e] == rest[0];
    DigitsRun(v, l, e, base);
  }

  /** The prefix and the base. */
  lemma PrefixOf(s: Text, base: nat, p: Spelling)
    requires Spells(s, base, p)
    ensures var v := p.prefix + (p.digits + p.rest);
            && (HexPrefix(v, 0, base) <==> p.prefix != []) && (p.prefix != [] ==> |p.prefix| == 2 && p.base == 16)
            && (p.prefix == [] ==> p.base == if base == 0 then (if At(v, 0) == 48 then 8 else 10) else base)
  {
    hide IsDigit;
    var u := p.digits + p.rest;
    assert p.prefix == [] ==> p.prefix + u == u;
  }

  lemma SpelledDigits(s: Text, base: nat, p: Spelling)
    requires Spells(s, base, p)
    ensures var v := p.prefix + (p.digits + p.rest); var l, e := |p.prefix|, |p.prefix| + |p.digits|;
            DigitsEnd(v, l, p.base) == e == |v| - |p.rest| && v[l..e] == p.digits
  {
    hide DigitsEnd, IsDigit, AllDigits;
    DigitsBehind(p.prefix, p.digits, p.rest, p.base);
  }

  /** The form of a text depends on what is behind its sign. */
  lemma FormBehind(s: Text, q: nat, base: nat, l: nat, b: nat)
    requires q <= |s| && l <= |s| - q
    ensures HexPrefix(s, q, base) == HexPrefix(s[q..], 0, base) && At(s, q) == At(s[q..], 0)
    ensures DigitsEnd(s, q + l, b) == q + DigitsEnd(s[q..], l, b)
  {
    hide IsDigit;
    AtBehind(s[..q], s[q..], 0);
    AtBehind(s[..q], s[q..], 1);
    assert s == s[..q] + s[q..];
    var v := s[q..];
    var e := DigitsEnd(v, l, b);
    assert forall k | q + l <= k < q + e :: s[k] == v[k - q];
    assert q + e < |s| ==> s[q + e] == v[e];
    DigitsRun(s, q + l, q + e, b);
  }

  /** The form of a text that spells a number is that of the number. */
  lemma SpelledForm(s: Text, base: nat, p: Spelling)
    requires ValidBase(base) && Spells(s, base, p)
    ensures var first := |p.blanks| + |p.sign| + |p.prefix|;
            && FormOf(s, base) == Form(p.sign == MINUS, p.base, first)
            && DigitsEnd(s, first, p.base) == first + |p.digits| == |s| - |p.rest|
            && s[first..first + |p.digits|] == p.digits
  {
    hide SpacesEnd, DigitsEnd, HexPrefix, At, Spells, FormOf;
    var q := |p.blanks| + |p.sign|;
    SignKinds(s, base, p);
    SpelledSign(s, base, p);
    FormSpelled(s, base, p);
    SpelledDigits(s, base, p);
    FormBehind(s, q, base, |p.prefix|, p.base);
    Slice(s, q, |p.prefix|, |p.prefix| + |p.digits|);
  }

  lemma FormSpelled(s: Text, base: nat, p: Spelling)
    requires ValidBase(base) && Spells(s, base, p)
    ensures FormOf(s, base) == Form(p.sign == MINUS, p.base, |p.blanks| + |p.sign| + |p.prefix|)
  {
    hide SpacesEnd, DigitsEnd, HexPrefix, At, Spells;
    SignKinds(s, base, p);
    SpelledSign(s, base, p);
    PrefixOf(s, base, p);
    FormBehind(s, |p.blanks| + |p.sign|, base, |p.prefix|, p.base);
  }

  lemma SignKinds(s: Text, base: nat, p: Spelling)
    requires Spells(s, base, p)
    ensures p.sign == [] || p.sign == PLUS || p.sign == MINUS
    ensures |s| == |p.blanks| + |p.sign| + |p.prefix| + |p.digits| + |p.rest|
  {
  }

  lemma Slice(s: Text, q: nat, l: nat, e: nat)
    requires q + e <= |s| && l <= e
    ensures s[q..][l..e] == s[q + l..q + e]
  {
  }

  /** Every text in which digits are found spells a number. */
  lemma FoundSpelled(s: Text, base: nat)
    requires ValidBase(base) && EndOf(s, base) != 0
    ensures exists p :: Spells(s, base, p)
  {
    hide SpacesEnd, IsDigit;
    var f, n := FormOf(s, base), SpacesEnd(s, 0);
    var q := if At(s, n) == 45 || At(s, n) == 43 then n + 1 else n;
    var e := EndOf(s, base);
    SpacesAre(s, 0);
    PutTogether(s, base, n, q, f.first, e, f.base);
  }

  lemma PutTogether(s: Text, base: nat, n: nat, q: nat, l: nat, e: nat, b: nat)
    requires n <= q <= l < e <= |s| && (forall k | 0 <= k < n :: s[k] in BLANKS)
    requires q == if n < |s| && (s[n] == 45 || s[n] == 43) then n + 1 else n
    requires (forall k | l <= k < e :: IsDigit(s[k], b)) && (e < |s| ==> !IsDigit(s[e], b))
    requires if HexPrefix(s, q, base) then l == q + 2 && b == 16
             else l == q && b == if base == 0 then (if At(s, q) == 48 then 8 else 10) else base
    ensures exists p :: Spells(s, base, p)
  {
    hide IsDigit, Prefixed;
    var p := Spelling(s[..n], s[n..q], s[q..l], s[l..e], s[e..], b);
    Cuts(s, n, q, l, e);
    CutDigits(s, l, e, b);
    CutPrefix(s, q, l, e);
    assert q == n + 1 ==> s[n..q] == [s[n]];
    assert s[l..e][0] == s[l];
    assert Spells(s, base, p);
  }

  lemma CutDigits(s: Text, l: nat, e: nat, b: nat)
    requires l < e <= |s| && (forall k | l <= k < e :: IsDigit(s[k], b)) && (e < |s| ==> !IsDigit(s[e], b))
    ensures AllDigits(s[l..e], b) && (s[e..] != [] ==> !IsDigit(s[e..][0], b))
  {
    hide IsDigit;
  }

  lemma Cuts(s: Text, n: nat, q: nat, l: nat, e: nat)
    requires n <= q <= l <= e <= |s|
    ensures s == s[..n] + s[n..q] + s[q..l] + s[l..e] + s[e..]
  {
  }

  lemma CutPrefix(s: Text, q: nat, l: nat, e: nat)
    requires q <= l < e <= |s|
    ensures Prefixed(s[l..e] + s[e..]) <==> l + 2 <= |s| && s[l] == 48 && (s[l + 1] == 120 || s[l + 1] == 88)
    ensures l == q + 2 ==> (Prefixed(s[q..l]) <==> s[q] == 48 && (s[q + 1] == 120 || s[q + 1] == 88))
  {
    assert s[l..e] + s[e..] == s[l..];
  }

  lemma {:induction false} SpacesAre(s: Text, i: nat)
    requires i <= |s|
    ensures forall k | i <= k < SpacesEnd(s, i) :: s[k] in BLANKS
    decreases |s| - i
  {
    if i < |s| && IsSpace(s[i]) {
      SpacesAre(s, i + 1);
    }
  }

  // ---- the conversions

  predicate ValidBase(base: int) {
    0 <= base <= 36 && base != 1
  }

  /** Where the converted part of the text ends; its start if nothing was converted. */
  ghost function EndOf(s: Text, base: nat): nat {
    var f := FormOf(s, base);
    var e := DigitsEnd(s, f.first, f.base);
    if e == f.first then 0 else e
  }

  /** The number a text says, with its sign. */
  ghost function Signed(s: Text, base: nat): int {
    var m: int := Magnitude(s, base);
    if FormOf(s, base).neg then -m else m
  }

  /** The number closest to x between lo and hi. */
  function Clamp(x: int, lo: int, hi: int): int {
    if x < lo then lo else if x > hi then hi else x
  }

  /** Negation of a 64-bit number. */
  function Negate(x: nat): (r: nat)
    requires x <= ULLONG_MAX
    ensures r <= ULLONG_MAX
  {
    (ULLONG_MAX + 1 - x) % (ULLONG_MAX + 1)
  }

  /** A 64-bit number read as a signed one. */
  function AsSigned(x: nat): int
    requires x <= ULLONG_MAX
  {
    if x > LLONG_MAX then x - (ULLONG_MAX + 1) else x
  }

  /** The number that the text spells, as far as it fits; 0, and nothing converted, if it spells none. */
  ghost predicate ReadsSigned(s: Text, base: nat, r: int, end: int) {
    if exists p :: Spells(s, base, p)
    then forall p | Spells(s, base, p) ::
           r == Clamp(Number(s, base, p), LLONG_MIN, LLONG_MAX) && end == |s| - |p.rest|
    else r == end == 0
  }

  /** The same modulo 2^64, but for numbers out of range on either side. */
  ghost predicate ReadsUnsigned(s: Text, base: nat, r: int, end: int) {
    if exists p :: Spells(s, base, p)
    then forall p | Spells(s, base, p) :: r == Unsigned(Number(s, base, p)) && end == |s| - |p.rest|
    else r == end == 0
  }

  function Unsigned(v: int): int {
    if v > ULLONG_MAX || -v > ULLONG_MAX then ULLONG_MAX else if v < 0 then ULLONG_MAX + 1 + v else v
  }

  /** What the two conversions are defined by, for every spelling of a number and for texts without one. */
  lemma SpelledSays(s: Text, base: nat, p: Spelling)
    requires ValidBase(base) && Spells(s, base, p)
    ensures Signed(s, base) == Number(s, base, p) && EndOf(s, base) == |s| - |p.rest|
    ensures Unsigned(Number(s, base, p)) == Wrapped(s, base)
  {
    hide FormOf, Value, Spells, DigitsEnd;
    SpelledForm(s, base, p);
    SomeDigits(s, base, p);
  }

  lemma NothingSaid(s: Text, base: nat)
    requires ValidBase(base) && !exists p :: Spells(s, base, p)
    ensures Signed(s, base) == Wrapped(s, base) == EndOf(s, base) == 0
  {
    hide FormOf, Value, Spells, DigitsEnd;
    if EndOf(s, base) != 0 {
      FoundSpelled(s, base);
      assert false;
    }
    var f := FormOf(s, base);
    assert s[f.first..f.first] == [];
    ValueNone(f.base);
  }

  lemma SignedAnswer(s: Text, base: nat)
    requires ValidBase(base)
    ensures ReadsSigned(s, base, Clamp(Signed(s, base), LLONG_MIN, LLONG_MAX), EndOf(s, base))
  {
    hide Signed, EndOf, Spells, Number;
    if exists p :: Spells(s, base, p) {
      forall p | Spells(s, base, p)
        ensures Signed(s, base) == Number(s, base, p) && EndOf(s, base) == |s| - |p.rest|
      {
        SpelledSays(s, base, p);
      }
    } else {
      NothingSaid(s, base);
    }
  }

  lemma UnsignedAnswer(s: Text, base: nat)
    requires ValidBase(base)
    ensures ReadsUnsigned(s, base, Wrapped(s, base), EndOf(s, base))
  {
    hide Wrapped, EndOf, Spells, Number, Unsigned;
    if exists p :: Spells(s, base, p) {
      forall p | Spells(s, base, p)
        ensures Wrapped(s, base) == Unsigned(Number(s, base, p)) && EndOf(s, base) == |s| - |p.rest|
      {
        SpelledSays(s, base, p);
      }
    } else {
      NothingSaid(s, base);
    }
  }

  /** The magnitude of a text in 64 bits, negated if it has a minus sign. */
  ghost function Wrapped(s: Text, base: nat): nat {
    var m := Magnitude(s, base);
    if m > ULLONG_MAX then ULLONG_MAX else if FormOf(s, base).neg then Negate(m) else m
  }

  lemma SomeDigits(s: Text, base: nat, p: Spelling)
    requires Spells(s, base, p)
    ensures |p.digits| > 0
  {
  }

  /** What the digit loop has found, in terms of the text. */
  lemma Accumulation(s: Text, base: nat, max: nat, acc: nat, any: int, e: nat)
    requires ValidBase(base)
    requires var f := FormOf(s, base);
             && f.first <= e == DigitsEnd(s, f.first, f.base)
             && Accumulated(Value(s[f.first..e], f.base, 0), e - f.first, max, acc, any)
    ensures var m: int := Magnitude(s, base);
            && EndOf(s, base) == (if any != 0 then e else 0) && -1 <= any <= 1
            && Signed(s, base) == (if FormOf(s, base).neg then -m else m)
            && (any < 0 <==> m > max) && (any >= 0 ==> acc == m)
  {
    hide FormOf, Value, DigitsEnd;
    var f := FormOf(s, base);
    assert e == f.first ==> s[f.first..e] == [];
    ValueNone(f.base);
  }

  /** Negating and reading in two's complement is the number itself within its range. */
  lemma InRange(m: nat, neg: bool)
    requires m <= if neg then LLONG_MAX + 1 else LLONG_MAX
    ensures var v: int := m; AsSigned(if neg then Negate(m) else m) == if neg then -v else v
  {
  }

  method StrToLL(s: Text, base: int) returns (r: int, end: nat)
    requires Terminated(s)
    ensures !ValidBase(base) ==> r == 0 && end == 0
    ensures ValidBase(base) ==> r == Clamp(Signed(s, base), LLONG_MIN, LLONG_MAX) && end == EndOf(s, base)
    ensures ValidBase(base) ==> ReadsSigned(s, base, r, end)
  {
    if base < 0 || base == 1 || base > 36 {
      return 0, 0;
    }
    hide FormOf, Value, ReadsSigned, DigitsEnd, Magnitude, Signed, EndOf, Accumulated, Negate, AsSigned;
    SignedAnswer(s, base);
    var f := Preamble(s, base);
    var max: nat := if f.neg then LLONG_MAX + 1 else LLONG_MAX;
    var acc, any, e := Accumulate(s, f.first, f.base, max);
    Accumulation(s, base, max, acc, any, e);
    if any < 0 {
      r := if f.neg then LLONG_MIN else LLONG_MAX;
    } else {
      InRange(acc, f.neg);
      if f.neg {
        acc := Negate(acc);
      }
      r := AsSigned(acc);
    }
    end := if any != 0 then e else 0;
  }

  method StrToULL(s: Text, base: int) returns (r: nat, end: nat)
    requires Terminated(s)
    ensures !ValidBase(base) ==> r == 0 && end == 0
    ensures ValidBase(base) ==> r == Wrapped(s, base) && end == EndOf(s, base)
    ensures ValidBase(base) ==> ReadsUnsigned(s, base, r, end)
  {
    if base < 0 || base == 1 || base > 36 {
      return 0, 0;
    }
    hide FormOf, Value, ReadsUnsigned, DigitsEnd, Magnitude, EndOf, Accumulated, Negate;
    UnsignedAnswer(s, base);
    var f := Preamble(s, base);
    var acc, any, e := Accumulate(s, f.first, f.base, ULLONG_MAX);
    Accumulation(s, base, ULLONG_MAX, acc, any, e);
    if any < 0 {
      acc := ULLONG_MAX;
    } else if f.neg {
      acc := Negate(acc);
    }
    r := acc;
    end := if any != 0 then e else 0;
  }

  // ---- the end of the converted part

  ghost predicate Hexadecimal(u: Text) {
    |u| > 2 && u[0] == 48 && (u[1] == 120 || u[1] == 88) && AllDigits(u[2..], 16)
  }

  /** A number without its sign, as section 7.22.1.4 of C11 has it; base 0 leaves the base to the number. */
  ghost predicate Numeral(u: Text, base: nat) {
    if base == 0 then Hexadecimal(u) || (u != [] && AllDigits(u, if u[0] == 48 then 8 else 10))
    else AllDigits(u, base) || (base == 16 && Hexadecimal(u))
  }

  /** Where the number of a text starts behind blanks and sign. */
  ghost function SignEnd(s: Text): (q: nat) {
    var p := SpacesEnd(s, 0);
    if At(s, p) == 45 || At(s, p) == 43 then p + 1 else p
  }

  /** e ends the longest part of the text behind its blanks and sign that is a number; it is 0 if there is none. */
  ghost predicate LongestNumber(s: Text, base: nat, e: nat) {
    var q := SignEnd(s);
    if exists k :: q < k <= |s| && Numeral(s[q..k], base)
    then q < e <= |s| && Numeral(s[q..e], base) && forall k | e < k <= |s| :: !Numeral(s[q..k], base)
    else e == 0
  }

  /** A prefix for base 16 without a digit behind it. */
  ghost predicate BarePrefix(s: Text, base: nat) {
    HexPrefix(s, SignEnd(s), base) && !IsDigit(At(s, SignEnd(s) + 2), 16)
  }

  lemma DigitsTo(s: Text, q: nat, k: nat, base: nat)
    requires q < k <= |s|
    ensures AllDigits(s[q..k], base) <==> k <= DigitsEnd(s, q, base)
  {
    hide IsDigit, DigitsEnd;
    var e := DigitsEnd(s, q, base);
    if k <= e {
      forall i | 0 <= i < k - q ensures IsDigit(s[q..k][i], base) {
        assert s[q..k][i] == s[q + i];
      }
    } else {
      assert s[q..k][e - q] == s[e];
    }
  }

  /** The numbers of a text without a prefix. */
  lemma PlainNumerals(s: Text, base: nat, k: nat)
    requires ValidBase(base) && SignEnd(s) < k <= |s| && !HexPrefix(s, SignEnd(s), base)
    ensures Numeral(s[SignEnd(s)..k], base) <==> k <= DigitsEnd(s, SignEnd(s), FormOf(s, base).base)
  {
    hide DigitsEnd, AllDigits, SpacesEnd;
    var q := SignEnd(s);
    DigitsTo(s, q, k, FormOf(s, base).base);
    assert s[q..k][0] == s[q] && (k - q > 1 ==> s[q..k][1] == s[q + 1]);
  }

  /** The numbers of a text with one. */
  lemma HexNumerals(s: Text, base: nat, k: nat)
    requires ValidBase(base) && SignEnd(s) < k <= |s| && HexPrefix(s, SignEnd(s), base)
    ensures var q := SignEnd(s);
            Numeral(s[q..k], base) <==> k == q + 1 || q + 2 < k <= DigitsEnd(s, q + 2, 16)
  {
    hide DigitsEnd, SpacesEnd, Numeral, SignEnd, AllDigits, IsDigit;
    var q := SignEnd(s);
    Starts(s, q, k);
    if k > q + 2 {
      DigitsTo(s, q + 2, k, 16);
    }
    HexNumeral(s[q..k], base);
  }

  lemma Starts(s: Text, q: nat, k: nat)
    requires q < k <= |s|
    ensures s[q..k][0] == s[q] && (k > q + 1 ==> s[q..k][1] == s[q + 1])
    ensures k > q + 2 ==> s[q..k][2..] == s[q + 2..k]
  {
  }

  /** A number that starts with a prefix is 0 alone, or has digits behind the prefix. */
  lemma HexNumeral(u: Text, base: nat)
    requires HasHex(base) && |u| >= 1 && u[0] == 48 && (|u| >= 2 ==> u[1] == 120 || u[1] == 88)
    ensures Numeral(u, base) <==> |u| == 1 || (|u| > 2 && AllDigits(u[2..], 16))
  {
    if |u| >= 2 {
      assert !IsDigit(u[1], 16) && !IsDigit(u[1], 8);
    }
  }

  /** The end that a conversion gives is the end of the number, except behind a prefix without digits. */
  lemma EndExactly(s: Text, base: nat)
    requires ValidBase(base)
    ensures LongestNumber(s, base, EndOf(s, base)) <==> !BarePrefix(s, base)
    ensures BarePrefix(s, base) ==> EndOf(s, base) == 0 && LongestNumber(s, base, SignEnd(s) + 1)
  {
    hide DigitsEnd, Numeral, SpacesEnd;
    var q, f := SignEnd(s), FormOf(s, base);
    if HexPrefix(s, q, base) {
      forall k | q < k <= |s|
        ensures Numeral(s[q..k], base) <==> k == q + 1 || q + 2 < k <= DigitsEnd(s, q + 2, 16)
      {
        HexNumerals(s, base, k);
      }
      AfterPrefix(s, q + 2);
      assert Numeral(s[q..q + 1], base);
    } else {
      forall k | q < k <= |s|
        ensures Numeral(s[q..k], base) <==> k <= DigitsEnd(s, q, f.base)
      {
        PlainNumerals(s, base, k);
      }
    }
  }

  lemma AfterPrefix(s: Text, i: nat)
    requires i <= |s|
    ensures IsDigit(At(s, i), 16) <==> DigitsEnd(s, i, 16) > i
  {
  }

  // ---- printing digits

  /** The digits of num, least significant first. */
  ghost function Digits(num: nat, base: nat): (ds: seq<nat>)
    requires 2 <= base
    ensures |ds| >= 1 && forall i | 0 <= i < |ds| :: ds[i] < base
    decreases num
  {
    ModRange(num, base);
    if num / base == 0 then [num % base]
    else
      Halving(num, base);
      [num % base] + Digits(num / base, base)
  }

  lemma Halving(num: nat, base: nat)
    requires 2 <= base
    ensures 0 <= num / base && 2 * (num / base) <= num
  {
    ModRange(num, base);
    MulMono(2, base, num / base);
  }

  /** The characters of the digits 0..35. */
  function DigitChar(d: nat, upper: bool): (c: Byte)
    requires d < 36
    ensures DigitValue(c) == Some(d)
    ensures !IsSpace(c) && c != 43 && c != 45 && c != 0
  {
    if d < 10 then 48 + d else (if upper then 65 else 97) + (d - 10)
  }

  /** Digits as characters, most significant first. */
  ghost function Letters(ds: seq<nat>, upper: bool): (t: Text)
    requires forall i | 0 <= i < |ds| :: ds[i] < 36
    ensures |t| == |ds|
    ensures forall i | 0 <= i < |t| :: t[i] == DigitChar(ds[|ds| - 1 - i], upper)
  {
    seq(|ds|, i requires 0 <= i < |ds| => DigitChar(ds[|ds| - 1 - i], upper))
  }

  /** The printed text. */
  ghost function Printed(num: nat, base: nat, upper: bool): Text
    requires 2 <= base <= 36
  {
    Letters(Digits(num, base), upper)
  }

  lemma PrintedDigits(num: nat, base: nat, upper: bool)
    requires 2 <= base <= 36
    ensures forall i | 0 <= i < |Printed(num, base, upper)| :: IsDigit(Printed(num, base, upper)[i], base)
  {
    hide DigitValue, Digits;
    var t, ds := Printed(num, base, upper), Digits(num, base);
    forall i | 0 <= i < |t| ensures IsDigit(t[i], base) {
      assert ds[|t| - 1 - i] < base;
    }
  }

  lemma {:induction false} PrintedLast(num: nat, base: nat, upper: bool)
    requires 2 <= base <= 36
    ensures 0 <= num % base < base && num / base >= 0
    ensures Printed(num, base, upper) ==
            (if num / base == 0 then [] else Printed(num / base, base, upper)) + [DigitChar(num % base, upper)]
  {
    hide DigitChar, Digits, Letters;
    ModRange(num, base);
    DigitsFirst(num, base);
    if num / base == 0 {
      LettersLast(num % base, [], upper);
      LettersNone(upper);
    } else {
      LettersLast(num % base, Digits(num / base, base), upper);
    }
  }

  lemma {:induction false} DigitsFirst(num: nat, base: nat)
    requires 2 <= base
    ensures num / base >= 0
    ensures Digits(num, base) == [num % base] + if num / base == 0 then [] else Digits(num / base, base)
  {
    ModRange(num, base);
    assert [num % base] + [] == [num % base];
  }

  lemma LettersLast(d: nat, ds: seq<nat>, upper: bool)
    requires d < 36 && forall i | 0 <= i < |ds| :: ds[i] < 36
    ensures Letters([d] + ds, upper) == Letters(ds, upper) + [DigitChar(d, upper)]
  {
    hide DigitChar;
  }

  lemma LettersNone(upper: bool)
    ensures Letters([], upper) == []
  {
  }

  /** Reading the printed digits gives the number. */
  lemma {:induction false} PrintedValue(num: nat, base: nat, upper: bool)
    requires 2 <= base <= 36
    ensures forall i | 0 <= i < |Printed(num, base, upper)| :: IsDigit(Printed(num, base, upper)[i], base)
    ensures Value(Printed(num, base, upper), base, 0) == num
    decreases num
  {
    hide DigitValue, Printed, Digits;
    PrintedDigits(num, base, upper);
    PrintedLast(num, base, upper);
    ModRange(num, base);
    var last := DigitChar(num % base, upper);
    if num / base == 0 {
      ValueSnoc([], last, base, 0);
    } else {
      Halving(num, base);
      PrintedValue(num / base, base, upper);
      ValueSnoc(Printed(num / base, base, upper), last, base, 0);
    }
  }

  /** A number below 2^k has at most k digits. */
  lemma {:induction false} DigitCount(num: nat, base: nat, k: nat, bound: nat)
    requires 2 <= base && 1 <= k && num < bound && Pow2(k) == bound
    ensures |Digits(num, base)| <= k
    decreases k
  {
    ModRange(num, base);
    Halving(num, base);
    if num / base != 0 {
      assert k > 1;
      DigitCount(num / base, base, k - 1, Pow2(k - 1));
    }
  }

  const MAXNBUF: nat := 65

  /** Fills nbuf with the digits in reverse and returns the index of the first character of the text. */
  method Ksprintn(nbuf: array<Byte>, num0: nat, base: nat, upper: bool) returns (p: nat)
    requires nbuf.Length >= MAXNBUF && num0 <= ULLONG_MAX && 2 <= base <= 36
    modifies nbuf
    ensures p == |Printed(num0, base, upper)| <= 64 && nbuf[0] == 0
    ensures forall i | 0 <= i < p :: nbuf[p - i] == Printed(num0, base, upper)[i]
  {
    hide Pow2, Digits, DigitValue;
    Limit64();
    DigitCount(num0, base, 64, ULLONG_MAX + 1);
    ghost var ds := Digits(num0, base);
    var num: nat := num0;
    p := 0;
    nbuf[0] := 0;
    while true
      invariant p < |ds| && nbuf[0] == 0
      invariant Digits(num, base) == ds[p..]
      invariant forall i | 0 < i <= p :: nbuf[i] == DigitChar(ds[i - 1], upper)
      decreases num
    {
      NextDigit(num, base);
      var c := DigitChar(num % base, upper);
      p := p + 1;
      nbuf[p] := c;
      num := num / base;
      if num == 0 {
        break;
      }
    }
  }

  lemma NextDigit(num: nat, base: nat)
    requires 2 <= base
    ensures 0 <= num % base < base && num / base >= 0
    ensures Digits(num, base)[0] == num % base
    ensures num / base != 0 ==> Digits(num, base)[1..] == Digits(num / base, base) && num / base < num
    ensures num / base == 0 ==> |Digits(num, base)| == 1
  {
    ModRange(num, base);
    Halving(num, base);
  }

  lemma Limit64()
    ensures Pow2(64) == ULLONG_MAX + 1
  {
    hide Pow2;
    Pow2One();
    Pow2Add(1, 1);
    Pow2Add(2, 2);
    Pow2Add(4, 4);
    Pow2Add(8, 8);
    Pow2Add(16, 16);
    Pow2Add(32, 32);
  }

  lemma Pow2One()
    ensures Pow2(1) == 2
  {
  }

  // ---- the round trip

  /** A text of digits has no blanks, sign or prefix, and is digits to its end. */
  lemma PlainForm(t: Text, base: nat)
    requires 2 <= base <= 36 && |t| >= 1 && forall i | 0 <= i < |t| :: IsDigit(t[i], base)
    ensures FormOf(t, base) == Form(false, base, 0)
  {
    assert IsDigit(t[0], base);
    assert SpacesEnd(t, 0) == 0;
    assert |t| > 1 ==> IsDigit(t[1], base);
    assert !HexPrefix(t, 0, base);
  }

  lemma PlainEnd(t: Text, base: nat)
    requires forall i | 0 <= i < |t| :: IsDigit(t[i], base)
    ensures DigitsEnd(t, 0, base) == |t|
  {
  }

  lemma PrintedTerminated(num: nat, base: nat, upper: bool)
    requires 2 <= base <= 36
    ensures Terminated(Printed(num, base, upper)) && |Printed(num, base, upper)| >= 1
  {
    hide Digits, DigitValue;
  }

  /** strtoull reads back every 64-bit number that was printed, in every base. */
  lemma RoundTrip(num: nat, base: nat, upper: bool)
    requires 2 <= base <= 36
    ensures var t := Printed(num, base, upper);
            && Terminated(t) && !FormOf(t, base).neg && Magnitude(t, base) == num && EndOf(t, base) == |t|
  {
    hide FormOf, Value, Printed, Digits, IsDigit, Terminated;
    var t := Printed(num, base, upper);
    PrintedValue(num, base, upper);
    PrintedTerminated(num, base, upper);
    PlainForm(t, base);
    PlainEnd(t, base);
    assert t[0..|t|] == t;
  }

  /** The text of a number, taken out of the printer's buffer. */
  method PrintText(num: nat, base: nat, upper: bool) returns (text: Text)
    requires num <= ULLONG_MAX && 2 <= base <= 36
    ensures text == Printed(num, base, upper)
  {
    hide Printed;
    var nbuf := new Byte[MAXNBUF](_ => 0);
    var p := Ksprintn(nbuf, num, base, upper);
    text := [];
    var q := p;
    while q > 0
      invariant 0 <= q <= p && text == Printed(num, base, upper)[..p - q]
    {
      text := text + [nbuf[q]];
      q := q - 1;
    }
  }

  /** Prints a number into a buffer and converts the text back. */
  method PrintAndRead(num: nat, base: nat, upper: bool) returns (r: nat)
    requires num <= ULLONG_MAX && 2 <= base <= 36
    ensures r == num
  {
    hide FormOf, Magnitude, Printed, EndOf, ReadsUnsigned;
    var text := PrintText(num, base, upper);
    RoundTrip(num, base, upper);
    var end;
    r, end := StrToULL(text, base);
  }

  // ---- signed numbers

  /** A sign and digits, printed as a number is. */
  lemma PrintedSpells(num: nat, base: nat, upper: bool, sign: Text)
    requires 2 <= base <= 36 && (sign == [] || sign == PLUS || sign == MINUS)
    ensures var t := Printed(num, base, upper); var p, n: int := Spelling([], sign, [], t, [], base), num;
            && Terminated(sign + t) && Spells(sign + t, base, p)
            && Number(sign + t, base, p) == if sign == MINUS then -n else n
  {
    hide Printed, IsDigit, Value;
    var t := Printed(num, base, upper);
    PrintedTerminated(num, base, upper);
    PrintedValue(num, base, upper);
    NoPrefix(t, base);
    assert [] + sign + [] + t + [] == sign + t;
  }

  lemma NoPrefix(t: Text, base: nat)
    requires base <= 36 && forall i | 0 <= i < |t| :: IsDigit(t[i], base)
    ensures !(HasHex(base) && Prefixed(t + []))
  {
    assert t + [] == t;
  }

  /** Prints a number with its sign and converts the text back. */
  method PrintAndReadSigned(num: int, base: nat, upper: bool) returns (r: int)
    requires LLONG_MIN <= num <= LLONG_MAX && 2 <= base <= 36
    ensures r == num
  {
    hide Printed, Spells, FormOf, Signed, EndOf;
    var neg := num < 0;
    var size: nat := if neg then -num else num;
    var text := PrintText(size, base, upper);
    if neg {
      text := MINUS + text;
    }
    ghost var sign: Text := if neg then MINUS else [];
    PrintedSpells(size, base, upper, sign);
    assert text == sign + Printed(size, base, upper);
    var end;
    r, end := StrToLL(text, base);
  }
}
