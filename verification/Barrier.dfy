/**
 The reusable barrier of n CPUs on one token, as a state machine over its atomic steps.

 A call spins until the token is ready, increments the counter and computes from the value
 it got the count at which its round is complete, then spins until that count is reached.
 */
module Barrier {
  import opened Basics
  import opened Arith

  datatype Pc = Idle | Called | Waiting(target: nat)

  /** Where a CPU is, how often it has incremented the counter and how often it has returned. */
  datatype Cpu = Cpu(pc: Pc, entered: nat, returned: nat)

  datatype State = State(ready: bool, count: nat, cpus: seq<Cpu>)

  datatype Action = SetUp | Call(cpu: nat) | Arrive(cpu: nat) | Return(cpu: nat)

  /** The count at which the round of the CPU that got val is complete. */
  function Target(val: nat, n: nat): nat
    requires val > 0 && n > 0
  {
    ModRange(val - 1, n);
    MulSigns((val - 1) / n + 1, n);
    ((val - 1) / n + 1) * n
  }

  ghost predicate Initial(s: State) {
    && !s.ready && s.count == 0 && |s.cpus| > 0
    && forall c | 0 <= c < |s.cpus| :: s.cpus[c] == Cpu(Idle, 0, 0)
  }

  ghost predicate Step(s: State, a: Action, s': State) {
    match a
    case SetUp =>
      !s.ready && s' == s.(ready := true, count := 0)
    case Call(c) =>
      && c < |s.cpus| && s.cpus[c].pc == Idle
      && s' == s.(cpus := s.cpus[c := s.cpus[c].(pc := Called)])
    case Arrive(c) =>
      && c < |s.cpus| && s.cpus[c].pc == Called && s.ready
      && var val := s.count + 1;
         var target := Target(val, |s.cpus|);
         && target <= INT_MAX
         && s' == s.(count := val,
                     cpus := s.cpus[c := s.cpus[c].(pc := Waiting(target), entered := s.cpus[c].entered + 1)])
    case Return(c) =>
      && c < |s.cpus| && s.cpus[c].pc.Waiting? && s.cpus[c].pc.target <= s.count
      && s' == s.(cpus := s.cpus[c := s.cpus[c].(pc := Idle, returned := s.cpus[c].returned + 1)])
  }

  /** A finite run: states and the actions between them. */
  ghost predicate Run(ss: seq<State>, acts: seq<Action>) {
    && |ss| == |acts| + 1
    && Initial(ss[0])
    && forall i | 0 <= i < |acts| :: Step(ss[i], acts[i], ss[i + 1])
  }

  // ---- counting

  ghost function Total(cpus: seq<Cpu>): nat {
    if cpus == [] then 0 else Total(cpus[..|cpus| - 1]) + cpus[|cpus| - 1].entered
  }

  lemma {:induction false} TotalUpdate(cpus: seq<Cpu>, c: nat, x: Cpu)
    requires c < |cpus|
    ensures Total(cpus[c := x]) == Total(cpus) - cpus[c].entered + x.entered
    decreases |cpus|
  {
    var n := |cpus| - 1;
    assert cpus[c := x][..n] == if c == n then cpus[..n] else cpus[..n][c := x];
    if c < n { TotalUpdate(cpus[..n], c, x); }
  }

  /** Counts between r and r + 1 add up to between n * r and n * (r + 1), strictly unless all agree. */
  lemma {:induction false} TotalBounds(cpus: seq<Cpu>, r: nat)
    requires forall c | 0 <= c < |cpus| :: r <= cpus[c].entered <= r + 1
    ensures |cpus| * r <= Total(cpus) <= |cpus| * (r + 1)
    ensures Total(cpus) == |cpus| * r ==> forall c | 0 <= c < |cpus| :: cpus[c].entered == r
    ensures Total(cpus) == |cpus| * (r + 1) ==> forall c | 0 <= c < |cpus| :: cpus[c].entered == r + 1
    decreases |cpus|
  {
    if cpus != [] {
      var n := |cpus| - 1;
      TotalBounds(cpus[..n], r);
      assert |cpus| * r == n * r + r && |cpus| * (r + 1) == n * (r + 1) + (r + 1);
      forall c | 0 <= c < n ensures cpus[c] == cpus[..n][c] { }
    }
  }

  // ---- the invariant

  /** Rounds completed so far. */
  ghost function Round(s: State): nat
    requires |s.cpus| > 0
  {
    ModRange(s.count, |s.cpus|);
    s.count / |s.cpus|
  }

  /** One CPU, in a state whose completed round is r. */
  ghost predicate CpuOk(x: Cpu, r: nat, n: nat) {
    match x.pc
    case Waiting(t) => t == x.entered * n && x.entered == x.returned + 1 && r <= x.entered <= r + 1
    case _ => x.entered == x.returned == r
  }

  ghost predicate Inv(s: State) {
    && |s.cpus| > 0
    && s.count == Total(s.cpus)
    && (!s.ready ==> s.count == 0)
    && forall c | 0 <= c < |s.cpus| :: CpuOk(s.cpus[c], Round(s), |s.cpus|)
  }

  lemma InitialInv(s: State)
    requires Initial(s)
    ensures Inv(s)
  {
    NobodyEntered(s.cpus);
    DivUnique(0, |s.cpus|, 0, 0);
  }

  lemma {:induction false} NobodyEntered(cpus: seq<Cpu>)
    requires forall c | 0 <= c < |cpus| :: cpus[c].entered == 0
    ensures Total(cpus) == 0
    decreases |cpus|
  {
    if cpus != [] { NobodyEntered(cpus[..|cpus| - 1]); }
  }

  /** The round after one more increment. */
  lemma NextRound(count: nat, n: nat)
    requires n > 0
    ensures var r := count / n;
            && r >= 0 && r * n <= count < (r + 1) * n
            && (count + 1) / n == if count + 1 == (r + 1) * n then r + 1 else r
  {
    ModRange(count, n);
    var r := count / n;
    assert (r + 1) * n == r * n + n;
    if count + 1 == (r + 1) * n {
      DivUnique(count + 1, n, r + 1, 0);
    } else {
      DivUnique(count + 1, n, r, count % n + 1);
    }
  }

  /** What an arrival does to the counter and the rounds. */
  lemma ArriveRound(s: State, c: nat, s': State)
    requires Inv(s) && Step(s, Arrive(c), s')
    ensures var r, r', n := Round(s), Round(s'), |s.cpus|;
            && s'.count == Total(s'.cpus)
            && s'.cpus[c].entered == r + 1 && s'.cpus[c].pc == Waiting((r + 1) * n)
            && (r' == r || (r' == r + 1 && forall d | 0 <= d < n :: s'.cpus[d].entered == r + 1))
  {
    var n, r := |s.cpus|, Round(s);
    NextRound(s.count, n);
    TotalUpdate(s.cpus, c, s'.cpus[c]);
    assert CpuOk(s.cpus[c], r, n);
    forall d | 0 <= d < n
      ensures r <= s'.cpus[d].entered <= r + 1
    {
      assert CpuOk(s.cpus[d], r, n);
    }
    TotalBounds(s'.cpus, r);
    assert n * (r + 1) == (r + 1) * n;
  }

  lemma ArriveInv(s: State, c: nat, s': State)
    requires Inv(s) && Step(s, Arrive(c), s')
    ensures Inv(s')
  {
    hide Round, Total, Target;
    ArriveRound(s, c, s');
    var n, r, r' := |s.cpus|, Round(s), Round(s');
    forall d | 0 <= d < n
      ensures CpuOk(s'.cpus[d], r', n)
    {
      assert CpuOk(s.cpus[d], r, n);
      assert d != c ==> s'.cpus[d] == s.cpus[d];
    }
  }

  /** A CPU that may return is in the completed round. */
  lemma ReturnRound(s: State, c: nat)
    requires Inv(s) && c < |s.cpus| && s.cpus[c].pc.Waiting? && s.cpus[c].pc.target <= s.count
    ensures s.cpus[c].entered == Round(s)
  {
    var n, r := |s.cpus|, Round(s);
    assert CpuOk(s.cpus[c], r, n);
    NextRound(s.count, n);
  }

  lemma StepInv(s: State, a: Action, s': State)
    requires Inv(s) && Step(s, a, s')
    ensures Inv(s')
  {
    match a
    case SetUp =>
    case Call(c) =>
      TotalUpdate(s.cpus, c, s'.cpus[c]);
      assert CpuOk(s.cpus[c], Round(s), |s.cpus|);
    case Arrive(c) =>
      ArriveInv(s, c, s');
    case Return(c) =>
      TotalUpdate(s.cpus, c, s'.cpus[c]);
      ReturnRound(s, c);
      assert CpuOk(s.cpus[c], Round(s), |s.cpus|);
  }

  lemma {:induction false} RunInv(ss: seq<State>, acts: seq<Action>, i: nat)
    requires Run(ss, acts) && i < |ss|
    ensures Inv(ss[i])
    decreases i
  {
    if i == 0 {
      InitialInv(ss[0]);
    } else {
      RunInv(ss, acts, i - 1);
      StepInv(ss[i - 1], acts[i - 1], ss[i]);
    }
  }

  // ---- what the barrier promises

  /** No CPU returns from its k-th barrier before all have entered their k-th. */
  lemma ReturnsAfterAllEntered(ss: seq<State>, acts: seq<Action>, i: nat)
    requires Run(ss, acts) && i < |acts| && acts[i].Return?
    ensures var c := acts[i].cpu;
            && c < |ss[i].cpus|
            && var k := ss[i + 1].cpus[c].returned;
               k == ss[i].cpus[c].entered && forall d | 0 <= d < |ss[i].cpus| :: ss[i].cpus[d].entered >= k
  {
    var s, c := ss[i], acts[i].cpu;
    RunInv(ss, acts, i);
    assert Step(s, acts[i], ss[i + 1]);
    ReturnRound(s, c);
    forall d | 0 <= d < |s.cpus|
      ensures s.cpus[d].entered >= Round(s)
    {
      assert CpuOk(s.cpus[d], Round(s), |s.cpus|);
    }
    assert CpuOk(s.cpus[c], Round(s), |s.cpus|);
  }

  ghost predicate Blocked(s: State, c: nat)
    requires c < |s.cpus|
  {
    match s.cpus[c].pc
    case Idle => false
    case Called => !s.ready
    case Waiting(t) => s.count < t
  }

  /** Once the token is set up, the CPUs are never all blocked. */
  lemma NeverAllBlocked(ss: seq<State>, acts: seq<Action>, i: nat)
    requires Run(ss, acts) && i < |ss| && ss[i].ready
    ensures exists c :: 0 <= c < |ss[i].cpus| && !Blocked(ss[i], c)
  {
    var s := ss[i];
    RunInv(ss, acts, i);
    var n, r := |s.cpus|, Round(s);
    ModRange(s.count, n);
    assert n * (r + 1) == r * n + n;
    if forall c | 0 <= c < n :: Blocked(s, c) {
      forall c | 0 <= c < n
        ensures s.cpus[c].entered == r + 1
      {
        assert CpuOk(s.cpus[c], r, n);
        assert Blocked(s, c);
      }
      TotalBounds(s.cpus, r + 1);
    }
  }

  /** No CPU gets more than one round ahead of another. */
  lemma RoundsTogether(ss: seq<State>, acts: seq<Action>, i: nat, c: nat, d: nat)
    requires Run(ss, acts) && i < |ss| && c < |ss[i].cpus| && d < |ss[i].cpus|
    ensures ss[i].cpus[c].entered <= ss[i].cpus[d].entered + 1
    ensures ss[i].cpus[c].returned <= ss[i].cpus[d].entered
  {
    RunInv(ss, acts, i);
    assert CpuOk(ss[i].cpus[c], Round(ss[i]), |ss[i].cpus|);
    assert CpuOk(ss[i].cpus[d], Round(ss[i]), |ss[i].cpus|);
  }
}
