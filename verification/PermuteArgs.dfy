/**
 Exchange of two adjacent blocks of an array in place, by gcd-many cycles.

 Positions are counted from the start of the first block: nn entries, then no more,
 T = nn + no in all. One hop of a cycle takes position r to r - nn modulo T.
 */
module PermuteArgs {
  import opened Arith

  predicate Divides(d: nat, x: int)
  {
    d > 0 && x % d == 0
  }

  lemma DividesMeans(d: nat, x: int) returns (k: int)
    requires Divides(d, x)
    ensures x == k * d
  {
    ModRange(x, d);
    k := x / d;
  }

  lemma MeansDivides(d: nat, x: int, k: int)
    requires d > 0 && x == k * d
    ensures Divides(d, x)
  {
    DivMulCancel(k, d);
  }

  /** g is a common divisor of a and b that is also a combination of them, so the greatest one. */
  ghost predicate IsGcd(g: nat, a: nat, b: nat) {
    && Divides(g, a) && Divides(g, b)
    && exists u: int, v: int :: Combines(g, a, b, u, v)
  }

  ghost predicate Combines(g: int, a: int, b: int, u: int, v: int) {
    g == u * a + v * b
  }

  /** Every common divisor divides such a g. */
  lemma GcdIsGreatest(g: nat, a: nat, b: nat, d: nat)
    requires IsGcd(g, a, b) && Divides(d, a) && Divides(d, b)
    ensures Divides(d, g) && (g > 0 ==> d <= g)
  {
    var u, v :| Combines(g, a, b, u, v);
    hide Divides;
    var x := DividesMeans(d, a);
    var y := DividesMeans(d, b);
    MulAssoc(u, x, d);
    MulAssoc(v, y, d);
    Distrib3(u * x, 0, v * y, d);
    MeansDivides(d, g, u * x + v * y);
    MulSigns(u * x + v * y, d);
  }

  /** Euclid's step keeps the divisors and the combinations. */
  lemma GcdStep(g: nat, a: nat, b: nat)
    requires b > 0 && IsGcd(g, b, a % b)
    ensures IsGcd(g, a, b)
  {
    var u, v :| Combines(g, b, a % b, u, v);
    var q, c := a / b, a % b;
    ModRange(a, b);
    hide Divides;
    var x := DividesMeans(g, b);
    var y := DividesMeans(g, c);
    MulAssoc(q, x, g);
    Distrib3(q * x, 0, y, g);
    MeansDivides(g, a, q * x + y);
    assert Combines(g, a, b, v, u - v * q) by {
      assert v * a == v * (q * b) + v * c;
      MulAssoc(v, q, b);
      Distrib3(u, v * q, 0, b);
    }
  }

  method Gcd(a0: nat, b0: nat) returns (g: nat)
    requires b0 > 0
    ensures g > 0 && IsGcd(g, a0, b0)
  {
    var a, b := a0, b0;
    var c := a % b;
    while c != 0
      invariant b > 0 && c == a % b
      invariant forall d: nat | d > 0 && IsGcd(d, a, b) :: IsGcd(d, a0, b0)
      decreases b
    {
      ghost var a', b' := a, b;
      a := b;
      b := c;
      c := a % b;
      forall d: nat | d > 0 && IsGcd(d, a, b)
        ensures IsGcd(d, a0, b0)
      {
        GcdStep(d, a', b');
      }
    }
    assert Combines(b, a, b, 0, 1);
    return b;
  }

  // ---- the cycles

  /** Two blocks of nn and no entries, their gcd g, and the number L of hops in a cycle. */
  ghost predicate Blocks(nn: nat, no: nat, g: nat, L: nat) {
    && 0 < nn && 0 < no && 0 < g
    && IsGcd(g, nn, no)
    && L * g == nn + no
  }

  function Hop(nn: nat, no: nat, r: nat): (r': nat)
    requires r < nn + no
    ensures r' < nn + no
  {
    if r >= nn then r - nn else r + no
  }

  /** Where the entry that ends up at r comes from. */
  function Unhop(nn: nat, no: nat, r: nat): (r': nat)
    requires r < nn + no
    ensures r' < nn + no && Hop(nn, no, r') == r
  {
    if r < no then r + nn else r - no
  }

  /** The position reached from nn + i after j hops. */
  ghost function Orbit(nn: nat, no: nat, i: nat, j: nat): (r: nat)
    requires i < no
    ensures r < nn + no
  {
    if j == 0 then nn + i else Hop(nn, no, Orbit(nn, no, i, j - 1))
  }

  lemma {:induction false} OrbitForm(nn: nat, no: nat, i: nat, j: nat) returns (q: int)
    requires i < no
    ensures Orbit(nn, no, i, j) == nn + i - j * nn + q * (nn + no)
    decreases j
  {
    if j == 0 {
      q := 0;
    } else {
      var p := OrbitForm(nn, no, i, j - 1);
      var r := Orbit(nn, no, i, j - 1);
      q := if r >= nn then p else p + 1;
      assert j * nn == (j - 1) * nn + nn;
      assert (p + 1) * (nn + no) == p * (nn + no) + (nn + no);
    }
  }

  /** Numbers below T that differ by a multiple of T are equal. */
  lemma SameBelow(x: int, y: int, k: int, T: int)
    requires 0 <= x < T && 0 <= y < T && x - y == k * T
    ensures x == y
  {
    MulSigns(k, T);
  }

  /** A combination of nn and T that gives g. */
  lemma Bezout(nn: nat, no: nat, g: nat, L: nat) returns (u: int, v: int)
    requires Blocks(nn, no, g, L)
    ensures g == u * nn + v * (nn + no)
  {
    var x, y :| Combines(g, nn, no, x, y);
    u, v := x - y, y;
    assert (x - y) * nn == x * nn - y * nn;
    assert y * (nn + no) == y * nn + y * no;
  }

  /** g divides no, so there are at most no cycles, and they start inside the second block. */
  lemma GcdAtMost(nn: nat, no: nat, g: nat, L: nat)
    requires Blocks(nn, no, g, L)
    ensures g <= no
  {
    var k := DividesMeans(g, no);
    MulSigns(k, g);
  }

  lemma MulAssoc(a: int, b: int, c: int)
    ensures a * (b * c) == (a * b) * c
  {
  }

  lemma Distrib3(a: int, b: int, c: int, t: int)
    ensures (a - b + c) * t == a * t - b * t + c * t
  {
  }

  lemma CancelFactor(x: int, y: int, g: int)
    requires g > 0 && x * g == y * g
    ensures x == y
  {
    Distrib3(x, y, 0, g);
    MulSigns(x - y, g);
  }

  /** The number of the cycle that position r lies on. */
  function Class(g: nat, r: nat): (c: nat)
    requires g > 0
    ensures c < g
  {
    r % g
  }

  /** A cycle stays among the positions congruent to its number. */
  lemma OrbitClass(nn: nat, no: nat, g: nat, L: nat, i: nat, j: nat)
    requires Blocks(nn, no, g, L) && i < g && i < no
    ensures Class(g, Orbit(nn, no, i, j)) == i
  {
    hide IsGcd, Orbit, Divides;
    var q := OrbitForm(nn, no, i, j);
    var x := DividesMeans(g, nn) by { assert IsGcd(g, nn, no); GcdDivides(g, nn, no); }
    MulAssoc(j, x, g);
    MulAssoc(q, L, g);
    Distrib3(x, j * x, q * L, g);
    DivUnique(Orbit(nn, no, i, j), g, x - j * x + q * L, i);
  }

  lemma GcdDivides(g: nat, a: nat, b: nat)
    requires IsGcd(g, a, b)
    ensures Divides(g, a) && Divides(g, b)
  {
  }

  /** After L hops a cycle is back where it started. */
  lemma OrbitCloses(nn: nat, no: nat, g: nat, L: nat, i: nat)
    requires Blocks(nn, no, g, L) && i < no
    ensures Orbit(nn, no, i, L) == nn + i
  {
    hide IsGcd, Orbit, Divides;
    var T := nn + no;
    var q := OrbitForm(nn, no, i, L);
    GcdDivides(g, nn, no);
    var x := DividesMeans(g, nn);
    assert L * nn == x * T by {
      MulAssoc(L, x, g);
      MulAssoc(x, L, g);
    }
    Distrib3(q, x, 0, T);
    SameBelow(Orbit(nn, no, i, L), nn + i, q - x, T);
  }

  /** Hop counts with equal effect differ by a multiple of L. */
  lemma HopMultiple(nn: nat, g: nat, L: nat, T: nat, u: int, v: int, d: int, w: int) returns (m: int)
    requires g > 0 && L * g == T && g == u * nn + v * T && d * nn == w * T
    ensures d == m * L
  {
    m := u * w + d * v;
    assert d * g == m * T by {
      assert d * g == d * (u * nn) + d * (v * T);
      assert d * (u * nn) == u * (d * nn);
      MulAssoc(u, w, T);
      MulAssoc(d, v, T);
      Distrib3(u * w, 0, d * v, T);
    }
    MulAssoc(m, L, g);
    CancelFactor(d, m * L, g);
  }

  /** and not before. */
  lemma OrbitDistinct(nn: nat, no: nat, g: nat, L: nat, i: nat, j: nat, k: nat)
    requires Blocks(nn, no, g, L) && i < no && j < k && k - j < L
    ensures Orbit(nn, no, i, j) != Orbit(nn, no, i, k)
  {
    hide IsGcd, Orbit, Divides;
    if Orbit(nn, no, i, j) == Orbit(nn, no, i, k) {
      var T := nn + no;
      var p := OrbitForm(nn, no, i, j);
      var q := OrbitForm(nn, no, i, k);
      var u, v := Bezout(nn, no, g, L);
      Distrib3(k, j, 0, nn);
      Distrib3(q, p, 0, T);
      var m := HopMultiple(nn, g, L, T, u, v, k - j, q - p);
      MulSigns(m, L);
    }
  }

  /** A number of hops that takes a cycle over the distance e * g, and any such number does. */
  lemma HopsOver(nn: nat, g: nat, L: nat, T: nat, x: int, u: int, v: int, e: int, m: int)
    requires nn == x * g && T == L * g && g == u * nn + v * T
    ensures (e * u + m * L) * nn == e * g - (e * v - m * x) * T
  {
    assert e * g == e * (u * nn) + e * (v * T);
    MulAssoc(e, u, nn);
    MulAssoc(e, v, T);
    assert (m * L) * nn == (m * x) * T by {
      assert (m * L) * (x * g) == (m * x) * (L * g);
    }
    Distrib3(e * u, 0, m * L, nn);
    Distrib3(e * v, m * x, 0, T);
  }

  /** Every position congruent to the cycle's number is on the cycle. */
  lemma OrbitCovers(nn: nat, no: nat, g: nat, L: nat, i: nat, r: nat) returns (j: nat)
    requires Blocks(nn, no, g, L) && i < g && i < no && r < nn + no && Class(g, r) == i
    ensures 1 <= j <= L && Orbit(nn, no, i, j) == r
  {
    hide IsGcd, Orbit, Divides;
    var T := nn + no;
    GcdDivides(g, nn, no);
    var x := DividesMeans(g, nn);
    var u, v := Bezout(nn, no, g, L);
    MulSigns(L, g);
    ModRange(r, g);
    var e := x - r / g;
    assert nn + i - r == e * g by { Distrib3(x, r / g, 0, g); }
    var j0 := e * u;
    var m;
    j, m := IntoCycle(j0, L);
    HopsOver(nn, g, L, T, x, u, v, e, m);
    var q := OrbitForm(nn, no, i, j);
    var z := e * v - m * x;
    Distrib3(q, 0, z, T);
    SameBelow(Orbit(nn, no, i, j), r, q + z, T);
  }

  /** Every number is, modulo L, one of 1..L. */
  lemma IntoCycle(j0: int, L: nat) returns (j: nat, m: int)
    requires L > 0
    ensures 1 <= j <= L && j == j0 + m * L
  {
    ModRange(j0, L);
    m := -(j0 / L);
    j := j0 % L;
    if j == 0 {
      j := L;
      m := m + 1;
    }
  }

  // ---- the exchange in place

  /** The first c cycles are done: their entries have hopped, the others have not moved. */
  ghost predicate CyclesDone<A>(orig: seq<A>, now: seq<A>, nn: nat, no: nat, g: nat, c: nat)
    requires g > 0 && |orig| == nn + no
  {
    && |now| == nn + no
    && forall r | 0 <= r < nn + no :: now[r] == if Class(g, r) < c then orig[Unhop(nn, no, r)] else orig[r]
  }

  /** What slot k of the orbit holds after j hops of cycle i; the start slot carries the entry in hand. */
  ghost function Carried(nn: nat, no: nat, L: nat, i: nat, j: nat, k: nat): (r: nat)
    requires i < no && 0 < L
    ensures r < nn + no
  {
    if k == 0 then Orbit(nn, no, i, if j < L then j else L - 1)
    else if k <= j then Orbit(nn, no, i, k - 1)
    else Orbit(nn, no, i, k)
  }

  /** j hops of cycle i have been made on top of what the earlier cycles left. */
  ghost predicate InCycle<A>(orig: seq<A>, base: seq<A>, now: seq<A>, nn: nat, no: nat, g: nat, L: nat, i: nat, j: nat)
    requires g > 0 && i < no && 0 < L && |orig| == nn + no
  {
    && |now| == |base| == nn + no
    && (forall r | 0 <= r < nn + no && Class(g, r) != i :: now[r] == base[r])
    && (forall k: nat {:trigger Carried(nn, no, L, i, j, k)} | k < L ::
      now[Orbit(nn, no, i, k)] == orig[Carried(nn, no, L, i, j, k)])
  }

  lemma NoCycles<A>(orig: seq<A>, nn: nat, no: nat, g: nat)
    requires g > 0 && |orig| == nn + no
    ensures CyclesDone(orig, orig, nn, no, g, 0)
  {
  }

  lemma CycleStart<A>(orig: seq<A>, now: seq<A>, nn: nat, no: nat, g: nat, L: nat, i: nat)
    requires Blocks(nn, no, g, L) && i < g && i < no && |orig| == nn + no
    requires CyclesDone(orig, now, nn, no, g, i)
    ensures L > 0 && InCycle(orig, now, now, nn, no, g, L, i, 0)
  {
    hide IsGcd, Class;
    MulSigns(L, g);
    forall k: nat {:trigger Carried(nn, no, L, i, 0, k)}
      ensures now[Orbit(nn, no, i, k)] == orig[Carried(nn, no, L, i, 0, k)]
    {
      OrbitClass(nn, no, g, L, i, k);
    }
  }

  /** One hop: the entry in hand is put down and the one there picked up. */
  lemma CycleHop<A>(orig: seq<A>, base: seq<A>, now: seq<A>, nn: nat, no: nat, g: nat, L: nat, i: nat, j: nat)
    requires Blocks(nn, no, g, L) && i < g && i < no && j < L && |orig| == nn + no
    requires InCycle(orig, base, now, nn, no, g, L, i, j)
    ensures var p, c := Orbit(nn, no, i, j + 1), nn + i;
            InCycle(orig, base, now[p := now[c]][c := now[p]], nn, no, g, L, i, j + 1)
  {
    hide Blocks, Class;
    var p, c := Orbit(nn, no, i, j + 1), nn + i;
    var next := now[p := now[c]][c := now[p]];
    OrbitClass(nn, no, g, L, i, j + 1);
    OrbitClass(nn, no, g, L, i, 0);
    assert Orbit(nn, no, i, 0) == c;
    if j + 1 == L {
      OrbitCloses(nn, no, g, L, i);
      assert next == now;
      forall k: nat {:trigger Carried(nn, no, L, i, j + 1, k)} | k < L
        ensures next[Orbit(nn, no, i, k)] == orig[Carried(nn, no, L, i, j + 1, k)]
      {
        assert now[Orbit(nn, no, i, k)] == orig[Carried(nn, no, L, i, j, k)];
      }
    } else {
      forall k: nat {:trigger Carried(nn, no, L, i, j + 1, k)} | k < L
        ensures next[Orbit(nn, no, i, k)] == orig[Carried(nn, no, L, i, j + 1, k)]
      {
        HopSlot(orig, base, now, nn, no, g, L, i, j, k);
      }
    }
  }

  lemma HopSlot<A>(orig: seq<A>, base: seq<A>, now: seq<A>, nn: nat, no: nat, g: nat, L: nat, i: nat, j: nat, k: nat)
    requires Blocks(nn, no, g, L) && i < g && i < no && j + 1 < L && k < L && |orig| == nn + no
    requires InCycle(orig, base, now, nn, no, g, L, i, j)
    ensures var p, c := Orbit(nn, no, i, j + 1), nn + i;
            now[p := now[c]][c := now[p]][Orbit(nn, no, i, k)] == orig[Carried(nn, no, L, i, j + 1, k)]
  {
    hide Blocks, Class, Orbit;
    var c := nn + i;
    assert Orbit(nn, no, i, 0) == c by { OrbitZero(nn, no, i); }
    OrbitDistinct(nn, no, g, L, i, 0, j + 1);
    assert now[c] == orig[Carried(nn, no, L, i, j, 0)];
    assert now[Orbit(nn, no, i, j + 1)] == orig[Carried(nn, no, L, i, j, j + 1)];
    assert now[Orbit(nn, no, i, k)] == orig[Carried(nn, no, L, i, j, k)];
    if k > 0 { OrbitDistinct(nn, no, g, L, i, 0, k); }
    if k < j + 1 {
      OrbitDistinct(nn, no, g, L, i, k, j + 1);
    } else if j + 1 < k {
      OrbitDistinct(nn, no, g, L, i, j + 1, k);
    }
  }

  lemma OrbitZero(nn: nat, no: nat, i: nat)
    requires i < no
    ensures Orbit(nn, no, i, 0) == nn + i
  {
  }

  lemma CycleEnd<A>(orig: seq<A>, base: seq<A>, now: seq<A>, nn: nat, no: nat, g: nat, L: nat, i: nat)
    requires Blocks(nn, no, g, L) && i < g && i < no && 0 < L && |orig| == nn + no
    requires CyclesDone(orig, base, nn, no, g, i) && InCycle(orig, base, now, nn, no, g, L, i, L)
    ensures CyclesDone(orig, now, nn, no, g, i + 1)
  {
    hide Blocks, Class;
    forall r: nat | r < nn + no && Class(g, r) == i
      ensures now[r] == orig[Unhop(nn, no, r)]
    {
      var k := OrbitCovers(nn, no, g, L, i, r);
      if k == L {
        OrbitCloses(nn, no, g, L, i);
        assert now[Orbit(nn, no, i, 0)] == orig[Carried(nn, no, L, i, L, 0)];
      } else {
        assert now[Orbit(nn, no, i, k)] == orig[Carried(nn, no, L, i, L, k)];
      }
    }
  }

  /** The array with the blocks [s, m) and [m, e) exchanged. */
  ghost function Exchanged<A>(a: seq<A>, s: nat, m: nat, e: nat): (r: seq<A>)
    requires s <= m <= e <= |a|
    ensures |r| == |a|
  {
    a[..s] + a[m..e] + a[s..m] + a[e..]
  }

  lemma AllCycles<A>(orig: seq<A>, now: seq<A>, nn: nat, no: nat, g: nat)
    requires g > 0 && |orig| == nn + no && CyclesDone(orig, now, nn, no, g, g)
    ensures now == orig[nn..] + orig[..nn]
  {
    forall r | 0 <= r < nn + no
      ensures now[r] == (orig[nn..] + orig[..nn])[r]
    {
      ModRange(r, g);
    }
  }

  lemma Assembled<A>(o: seq<A>, now: seq<A>, s: nat, m: nat, e: nat)
    requires s <= m <= e <= |o| == |now|
    requires now[..s] == o[..s] && now[e..] == o[e..]
    requires now[s..e] == o[s..e][m - s..] + o[s..e][..m - s]
    ensures now == Exchanged(o, s, m, e)
  {
    assert now == now[..s] + now[s..e] + now[e..];
    assert o[s..e][m - s..] == o[m..e] && o[s..e][..m - s] == o[s..m];
  }

  /** Swapping two elements of a slice. */
  lemma SliceSwap<A>(o: seq<A>, s: nat, e: nat, p: nat, c: nat)
    requires s <= p < e <= |o| && s <= c < e
    ensures var now, b := o[p := o[c]][c := o[p]], o[s..e];
            && now[..s] == o[..s] && now[e..] == o[e..]
            && now[s..e] == b[p - s := b[c - s]][c - s := b[p - s]]
  {
  }

  /** Exchanges the block from start to mid with the block from mid to end, keeping order in each. */
  method Permute<A>(args: array<A>, start: nat, mid: nat, end: nat)
    requires start < mid < end <= args.Length
    modifies args
    ensures args[..] == Exchanged(old(args[..]), start, mid, end)
  {
    hide IsGcd, Blocks, CyclesDone;
    var nnonopts, nopts := mid - start, end - mid;
    var ncycle := Gcd(nnonopts, nopts);
    var cyclelen := (end - start) / ncycle;
    ghost var orig := args[start..end];
    CycleLength(nnonopts, nopts, ncycle);
    NoCycles(orig, nnonopts, nopts, ncycle);
    GcdAtMost(nnonopts, nopts, ncycle, cyclelen);
    var i := 0;
    while i < ncycle
      invariant 0 <= i <= ncycle
      invariant args[..start] == old(args[..start]) && args[end..] == old(args[end..])
      invariant CyclesDone(orig, args[start..end], nnonopts, nopts, ncycle, i)
    {
      RunCycle(args, start, mid, end, ncycle, cyclelen, i, orig);
      i := i + 1;
    }
    AllCycles(orig, args[start..end], nnonopts, nopts, ncycle);
    Assembled(old(args[..]), args[..], start, mid, end);
  }

  method RunCycle<A>(args: array<A>, start: nat, mid: nat, end: nat, ncycle: nat, cyclelen: nat, i: nat,
      ghost orig: seq<A>)
    requires start < mid < end <= args.Length && |orig| == end - start
    requires Blocks(mid - start, end - mid, ncycle, cyclelen) && i < ncycle <= end - mid
    requires CyclesDone(orig, args[start..end], mid - start, end - mid, ncycle, i)
    modifies args
    ensures args[..start] == old(args[..start]) && args[end..] == old(args[end..])
    ensures CyclesDone(orig, args[start..end], mid - start, end - mid, ncycle, i + 1)
  {
    hide Blocks, CyclesDone, InCycle;
    ghost var nn, no := mid - start, end - mid;
    ghost var base := args[start..end];
    CycleStart(orig, base, nn, no, ncycle, cyclelen, i);
    var cstart := mid + i;
    var pos := cstart;
    var j := 0;
    while j < cyclelen
      invariant 0 <= j <= cyclelen
      invariant start <= pos < end && pos == start + Orbit(nn, no, i, j)
      invariant args[..start] == old(args[..start]) && args[end..] == old(args[end..])
      invariant InCycle(orig, base, args[start..end], nn, no, ncycle, cyclelen, i, j)
    {
      ghost var before := args[start..end];
      CycleHop(orig, base, before, nn, no, ncycle, cyclelen, i, j);
      if pos >= mid {
        pos := pos - (mid - start);
      } else {
        pos := pos + (end - mid);
      }
      SliceSwap(args[..], start, end, pos, cstart);
      ghost var all := args[..];
      var swap := args[pos];
      args[pos] := args[cstart];
      args[cstart] := swap;
      assert args[..] == all[pos := all[cstart]][cstart := all[pos]];
      j := j + 1;
    }
    CycleEnd(orig, base, args[start..end], nn, no, ncycle, cyclelen, i);
  }

  lemma CycleLength(nn: nat, no: nat, g: nat)
    requires 0 < nn && 0 < no && 0 < g && IsGcd(g, nn, no)
    ensures Blocks(nn, no, g, (nn + no) / g)
  {
    var x := DividesMeans(g, nn);
    var y := DividesMeans(g, no);
    Distrib3(x, 0, y, g);
    DivMulCancel(x + y, g);
    MulSigns(x + y, g);
  }
}
