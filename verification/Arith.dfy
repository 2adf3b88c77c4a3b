/** Facts about multiplication, division and remainder that the solver needs spelled out. */
module Arith {

  lemma MulSigns(d: int, n: int)
    requires n > 0
    ensures d >= 1 ==> d * n >= n
    ensures d <= -1 ==> d * n <= -n
    ensures d >= 0 ==> d * n >= 0
  {
    if d >= 1 {
      assert d * n == (d - 1) * n + n;
      assert (d - 1) * n >= 0;
    } else if d <= -1 {
      assert d * n == (d + 1) * n - n;
      assert (d + 1) * n <= 0;
    }
  }

  lemma MulMono(a: int, b: int, n: int)
    requires n >= 0 && a <= b
    ensures a * n <= b * n
  {
    assert (b - a) * n >= 0;
  }

  lemma DivUnique(x: int, n: int, q: int, r: int)
    requires n > 0 && 0 <= r < n && x == q * n + r
    ensures x / n == q && x % n == r
  {
    var d := x / n - q;
    assert x == (x / n) * n + x % n;
    assert d * n == (x / n) * n - q * n;
    MulSigns(d, n);
  }

  lemma DivMulCancel(a: int, n: int)
    requires n > 0
    ensures (a * n) / n == a && (a * n) % n == 0
  {
    DivUnique(a * n, n, a, 0);
  }

  lemma ModRange(x: int, n: int)
    requires n > 0
    ensures 0 <= x % n < n
    ensures x == (x / n) * n + x % n
    ensures 0 <= x ==> 0 <= x / n && x % n <= x
  {
    if 0 <= x && x / n <= -1 {
      MulSigns(x / n, n);
    }
    MulSigns(x / n, n);
  }

  lemma DivDiv(x: nat, s: nat, n: nat)
    requires s > 0 && n > 0
    ensures s * n > 0
    ensures x / (s * n) == (x / s) / n
    ensures x % (s * n) == ((x / s) % n) * s + x % s
  {
    MulSigns(n, s);
    var q := x / s;
    ModRange(x, s);
    ModRange(q, n);
    var a, b := q / n, q % n;
    var r := b * s + x % s;
    MulMono(b, n - 1, s);
    MulMono(0, b, s);
    assert x == a * (s * n) + r by {
      assert q * s == a * n * s + b * s;
      assert a * n * s == a * (s * n);
    }
    assert (n - 1) * s == s * n - s;
    DivUnique(x, s * n, a, r);
  }

  /** A number modulo N * n splits into a high part modulo N and a low part modulo n. */
  lemma ModSplit(q: nat, N: nat, n: nat)
    requires N > 0 && n > 0
    ensures N * n > 0
    ensures q % (N * n) == ((q / n) % N) * n + q % n
  {
    DivDiv(q, n, N);
    assert n * N == N * n;
  }

  lemma IndexFits(i: nat, n: nat, s: nat)
    requires i < n
    ensures 0 <= i * s && i * s + s <= s * n
  {
    MulMono(i, n - 1, s);
    assert (n - 1) * s == s * n - s;
  }

  /** Equal remainders of a larger and a smaller number are at least the modulus apart. */
  lemma ModGap(q: int, p: int, N: int)
    requires N > 0 && q > p && q % N == p % N
    ensures q - p >= N
  {
    ModRange(q, N);
    ModRange(p, N);
    var k := q / N - p / N;
    assert k * N == (q / N) * N - (p / N) * N;
    MulSigns(k, N);
  }

  lemma FarMultiple(addr: nat, w: nat, s: nat, N: nat)
    requires s > 0 && N > 0
    requires addr % s == 0 && addr + s <= w && (w / s) % N == (addr / s) % N
    ensures w >= addr + N * s
  {
    ModRange(addr, s);
    ModRange(w, s);
    var q, p := w / s, addr / s;
    assert (q - p) * s == q * s - p * s;
    MulSigns(q - p, s);
    ModGap(q, p, N);
    MulMono(N, q - p, s);
  }

  lemma MultipleSum(a: nat, j: nat, s: nat, m: nat)
    requires m > 0 && a % m == 0 && s % m == 0
    ensures (a + j * s) % m == 0
  {
    ModRange(a, m);
    ModRange(s, m);
    var x, y := a / m, s / m;
    assert a + j * s == (x + j * y) * m by {
      assert (x + j * y) * m == x * m + j * (y * m);
    }
    DivMulCancel(x + j * y, m);
  }

  /** Rounding down to a multiple, and the distance of two multiples. */
  lemma RoundDown(w: nat, s: nat)
    requires s > 0
    ensures w % s <= w && (w - w % s) % s == 0
  {
    ModRange(w, s);
    DivMulCancel(w / s, s);
  }

  lemma MultiplesApart(a: nat, b: nat, s: nat)
    requires s > 0 && a % s == 0 && b % s == 0 && a < b
    ensures a + s <= b
  {
    ModGap(b, a, s);
  }

  lemma MulTwice(x: int, y: int)
    ensures x * (2 * y) == 2 * (x * y)
  {
  }

  /** Reducing modulo N blocks of size s keeps the offset and reduces the block number. */
  lemma BlockReduce(va: nat, s: nat, N: nat)
    requires s > 0 && N > 0
    ensures N * s > 0
    ensures va % (N * s) == ((va / s) % N) * s + va % s
    ensures (va % (N * s)) / s == (va / s) % N
  {
    ModRange(va, s);
    DivDiv(va, s, N);
    assert s * N == N * s;
    DivUnique(va % (N * s), s, (va / s) % N, va % s);
  }

  /** The block after an aligned one, when it is not the last of its group of n. */
  lemma NextInGroup(addr: nat, s: nat, n: nat)
    requires s > 0 && n > 0 && addr % s == 0 && (addr / s) % n + 1 < n
    ensures s * n > 0
    ensures ((addr + s) / s) % n == (addr / s) % n + 1
    ensures (addr + s) / (s * n) == addr / (s * n)
  {
    ModRange(addr, s);
    var q := addr / s;
    DivUnique(addr + s, s, q + 1, 0);
    ModRange(q, n);
    DivUnique(q + 1, n, q / n, q % n + 1);
    DivDiv(addr, s, n);
    DivDiv(addr + s, s, n);
  }

  function Pow2(n: nat): (r: nat)
    ensures r >= 1
  {
    if n == 0 then 1 else 2 * Pow2(n - 1)
  }

  lemma NextGroup(q: nat, n: nat)
    requires n > 0 && q % n + 1 >= n
    ensures (q + 1) / n == q / n + 1
  {
    ModRange(q, n);
    var k := q / n;
    assert (k + 1) * n == k * n + n;
    DivUnique(q + 1, n, k + 1, 0);
  }

  lemma NextBlock(addr: nat, s: nat)
    requires s > 0 && addr % s == 0
    ensures (addr + s) / s == addr / s + 1
  {
    ModRange(addr, s);
    var k := addr / s;
    assert (k + 1) * s == k * s + s;
    DivUnique(addr + s, s, k + 1, 0);
  }

  /** The last block of a group is followed by the first one of the next. */
  lemma GroupEnds(addr: nat, s: nat, n: nat)
    requires s > 0 && n > 0 && addr % s == 0 && (addr / s) % n + 1 >= n
    ensures s * n > 0
    ensures (addr + s) / (s * n) == addr / (s * n) + 1
  {
    DivDiv(addr, s, n);
    DivDiv(addr + s, s, n);
    NextBlock(addr, s);
    ModRange(addr, s);
    NextGroup(addr / s, n);
  }

  /** A multiple less another one. */
  lemma LessMultiple(x: int, j: int, s: int)
    requires s > 0 && x % s == 0
    ensures (x - j * s) % s == 0
  {
    ModRange(x, s);
    var k := x / s;
    assert x - j * s == (k - j) * s;
    IsMultiple(x - j * s, k - j, s);
  }

  lemma IsMultiple(x: int, q: int, s: int)
    requires s > 0 && x == q * s
    ensures x % s == 0
  {
    DivUnique(x, s, q, 0);
  }

  lemma {:induction false} Pow2Add(a: nat, b: nat)
    ensures Pow2(a + b) == Pow2(a) * Pow2(b)
    decreases b
  {
    if b > 0 {
      Pow2Add(a, b - 1);
      MulTwice(Pow2(a), Pow2(b - 1));
    }
  }
}
