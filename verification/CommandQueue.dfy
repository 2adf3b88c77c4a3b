/**
 The command queue of the SMMUv3: a ring of N = 2^shift slots whose producer and consumer
 registers carry one wrap bit above the index. The driver works with a cached copy of the
 consumer register; the device consumes at its own pace.
 */
module CommandQueue {
  import opened Arith

  // ---- registers

  /** The top bit of a producer register, kept by every update. */
  const OVERFLOW_FLAG: nat := 0x8000_0000

  function Index(reg: nat, N: nat): (i: nat)
    requires N > 0
    ensures i < N
  {
    ModRange(reg, N);
    reg % N
  }

  function Wrap(reg: nat, N: nat): nat
    requires N > 0
  {
    ModRange(reg, N);
    (reg / N) % 2
  }

  predicate Empty(prod: nat, cons: nat, N: nat)
    requires N > 0
  {
    Index(prod, N) == Index(cons, N) && Wrap(prod, N) == Wrap(cons, N)
  }

  predicate Full(prod: nat, cons: nat, N: nat)
    requires N > 0
  {
    Index(prod, N) == Index(cons, N) && Wrap(prod, N) != Wrap(cons, N)
  }

  /** The wrap bit and the index of a register, without its other bits. */
  function Parts(reg: nat, N: nat): nat
    requires N > 0
  {
    MulMono(0, Wrap(reg, N), N);
    Wrap(reg, N) * N + Index(reg, N)
  }

  /** The next producer register: index and wrap bit advance together. */
  function Advance(reg: nat, N: nat): nat
    requires N > 0
  {
    reg / OVERFLOW_FLAG * OVERFLOW_FLAG + Parts(Parts(reg, N) + 1, N)
  }

  /** The register stands for the running number k. */
  ghost predicate Stands(reg: nat, k: nat, N: nat)
    requires N > 0
  {
    Index(reg, N) == Index(k, N) && Wrap(reg, N) == Wrap(k, N)
  }

  /** Index and wrap bit determine the number modulo 2N. */
  lemma WrapIndex(k: nat, N: nat)
    requires N > 0
    ensures 2 * N > 0 && k % (2 * N) == Parts(k, N)
  {
    ModSplit(k, 2, N);
  }

  /** Below N apart, equal index and wrap bit mean equal numbers; N apart, the wrap bits differ. */
  lemma Distance(p: nat, s: nat, N: nat)
    requires N > 0 && s <= p <= s + N
    ensures Empty(p, s, N) <==> p == s
    ensures Full(p, s, N) <==> p == s + N
  {
    WrapIndex(p, N);
    WrapIndex(s, N);
    if Index(p, N) == Index(s, N) && p > s {
      ModGap(p, s, N);
    }
    if p % (2 * N) == s % (2 * N) && p > s {
      ModGap(p, s, 2 * N);
    }
    if p == s + N {
      ModRange(s, N);
      DivUnique(p, N, s / N + 1, s % N);
      ModRange(s / N, 2);
    }
  }

  lemma PartsStand(k: nat, N: nat)
    requires N > 0
    ensures Stands(Parts(k, N), k, N) && Stands(Parts(k, N) + 1, k + 1, N)
  {
    hide Index, Wrap, Parts;
    WrapIndex(k, N);
    ModRange(k, 2 * N);
    SameParts(Parts(k, N), k, k / (2 * N), N);
    SameParts(Parts(k, N) + 1, k + 1, k / (2 * N), N);
  }

  lemma FlagKeeps(y: nat, f: nat, N: nat)
    requires N > 0 && OVERFLOW_FLAG % (2 * N) == 0
    ensures Stands(f * OVERFLOW_FLAG + y, y, N)
  {
    hide Index, Wrap;
    ModRange(OVERFLOW_FLAG, 2 * N);
    var m := OVERFLOW_FLAG / (2 * N);
    assert f * (m * (2 * N)) == f * m * (2 * N);
    SameParts(y, f * OVERFLOW_FLAG + y, f * m, N);
  }

  /** Advancing the register advances the number it stands for. */
  lemma AdvanceStands(reg: nat, k: nat, N: nat)
    requires N > 0 && OVERFLOW_FLAG % (2 * N) == 0 && Stands(reg, k, N)
    ensures Stands(Advance(reg, N), k + 1, N)
  {
    hide Index, Wrap;
    assert Parts(reg, N) == Parts(k, N);
    hide Parts;
    PartsStand(k, N);
    var x := Parts(k, N) + 1;
    PartsStand(x, N);
    FlagKeeps(Parts(x, N), reg / OVERFLOW_FLAG, N);
  }

  /** Adding a multiple of 2N changes neither index nor wrap bit. */
  lemma SameParts(a: nat, b: nat, q: int, N: nat)
    requires N > 0 && b == a + q * (2 * N)
    ensures Index(a, N) == Index(b, N) && Wrap(a, N) == Wrap(b, N)
  {
    ModRange(a, N);
    assert q * (2 * N) == (2 * q) * N;
    assert b == (a / N + 2 * q) * N + a % N by { assert (a / N + 2 * q) * N == (a / N) * N + (2 * q) * N; }
    DivUnique(b, N, a / N + 2 * q, a % N);
  }

  // ---- the queue and its users

  datatype Command = Sync | Other(word0: bv64, word1: bv64)

  /** Where the driver is inside one insertion. */
  datatype Driver = Idle | Filling(cmd: Command) | Written(cmd: Command) | Draining | Synced

  /**
   prod and cons are the driver's copies; consReg and error belong to the device.
   The last five fields record the history: commands published, commands consumed, how many
   had been consumed when cons was last read, which the device has stopped on with an error, and
   which the driver has turned into Sync.
   */
  datatype State = State(
    N: nat, prod: nat, cons: nat, consReg: nat, error: bool, ring: seq<Command>, driver: Driver,
    issued: seq<Command>, consumed: seq<Command>, synced: nat, faulty: set<nat>, fixed: set<nat>)

  datatype Action =
    | Begin(cmd: Command) | SyncFull | WriteSlot | Publish | SyncDrain | CheckError | Finish
    | Consume | Fail

  ghost predicate Sized(N: nat) {
    N > 0 && OVERFLOW_FLAG % (2 * N) == 0
  }

  ghost predicate Initial(s: State) {
    && Sized(s.N) && |s.ring| == s.N
    && s.prod == s.cons == s.consReg == 0 && !s.error && s.driver == Idle
    && s.issued == s.consumed == [] && s.synced == 0 && s.faulty == s.fixed == {}
  }

  ghost predicate Step(s: State, a: Action, s': State)
    requires s.N > 0 && |s.ring| == s.N
  {
    match a
    case Begin(cmd) =>
      s.driver == Idle && s' == s.(driver := Filling(cmd))
    case SyncFull =>
      && s.driver.Filling? && Full(s.prod, s.cons, s.N)
      && s' == s.(cons := s.consReg, synced := |s.consumed|)
    case WriteSlot =>
      && s.driver.Filling? && !Full(s.prod, s.cons, s.N)
      && s' == s.(ring := s.ring[Index(s.prod, s.N) := s.driver.cmd], driver := Written(s.driver.cmd))
    case Publish =>
      && s.driver.Written?
      && s' == s.(prod := Advance(s.prod, s.N), issued := s.issued + [s.driver.cmd], driver := Draining)
    case SyncDrain =>
      && s.driver == Draining && !Empty(s.prod, s.cons, s.N)
      && s' == s.(cons := s.consReg, synced := |s.consumed|, driver := Synced)
    case CheckError =>
      && s.driver == Synced
      && s' == if !s.error then s.(driver := Draining)
               else s.(ring := s.ring[Index(s.cons, s.N) := Sync], error := false, driver := Draining,
                       fixed := s.fixed + {s.synced})
    case Finish =>
      s.driver == Draining && Empty(s.prod, s.cons, s.N) && s' == s.(driver := Idle)
    case Consume =>
      && !s.error && !Empty(s.prod, s.consReg, s.N)
      && s' == s.(consumed := s.consumed + [s.ring[Index(s.consReg, s.N)]], consReg := Advance(s.consReg, s.N))
    case Fail =>
      && !s.error && !Empty(s.prod, s.consReg, s.N)
      && s' == s.(error := true, faulty := s.faulty + {|s.consumed|})
  }

  ghost predicate Run(ss: seq<State>, acts: seq<Action>) {
    && |ss| == |acts| + 1
    && Initial(ss[0])
    && forall i | 0 <= i < |acts| :: ss[i].N > 0 && |ss[i].ring| == ss[i].N && Step(ss[i], acts[i], ss[i + 1])
  }

  // ---- the invariant

  /** Command number k as the device should see it. */
  ghost function Effective(s: State, k: nat): Command
    requires k < |s.issued|
  {
    if k in s.fixed then Sync else s.issued[k]
  }

  ghost predicate Inv(s: State) {
    var P, C, S := |s.issued|, |s.consumed|, s.synced;
    && Sized(s.N) && |s.ring| == s.N
    && S <= C <= P <= S + s.N
    && Stands(s.prod, P, s.N) && Stands(s.cons, S, s.N) && Stands(s.consReg, C, s.N)
    && (forall k | k in s.fixed :: k < P)
    && (forall k: nat | C <= k < P :: s.ring[Index(k, s.N)] == Effective(s, k))
    && (forall k: nat | k < C :: s.consumed[k] == Effective(s, k))
    && (s.error ==> C < P)
    && (s.driver.Written? ==> P < S + s.N && s.ring[Index(P, s.N)] == s.driver.cmd)
  }

  /**
   What the driver's way of waiting adds: it inserts into a drained queue and with an exact copy of
   the consumer, so that at most one command is outstanding, and an error is about that one.
   */
  ghost predicate OneAtATime(s: State) {
    var P, C, S := |s.issued|, |s.consumed|, s.synced;
    && P <= S + 1
    && (s.driver.Idle? || s.driver.Filling? || s.driver.Written? ==> P == S)
    && s.faulty == if s.error then s.fixed + {C} else s.fixed
  }

  /** Numbers less than N apart have different slots. */
  lemma SlotsDiffer(j: nat, k: nat, N: nat)
    requires N > 0 && j < k < j + N
    ensures Index(j, N) != Index(k, N)
  {
    if Index(j, N) == Index(k, N) { ModGap(k, j, N); }
  }

  /** The register tests are tests on the running numbers they stand for. */
  lemma Tests(prod: nat, cons: nat, P: nat, S: nat, N: nat)
    requires N > 0 && Stands(prod, P, N) && Stands(cons, S, N) && S <= P <= S + N
    ensures Empty(prod, cons, N) <==> P == S
    ensures Full(prod, cons, N) <==> P == S + N
  {
    Distance(P, S, N);
  }

  /**
   In every state of the ring, with up to N commands waiting and however old the copy of the
   consumer is, the test for a full queue keeps a new command from overwriting a waiting one.
   */
  lemma NoOverwrite(s: State, s': State)
    requires Inv(s) && Step(s, WriteSlot, s')
    ensures Inv(s')
    ensures forall k: nat | |s.consumed| <= k < |s.issued| :: Index(k, s.N) != Index(s.prod, s.N)
    ensures forall k: nat | |s.consumed| <= k < |s.issued| :: s'.ring[Index(k, s.N)] == s.ring[Index(k, s.N)]
  {
    hide Index, Wrap;
    var P := |s.issued|;
    Tests(s.prod, s.cons, P, s.synced, s.N);
    forall k: nat | |s.consumed| <= k < P
      ensures Index(k, s.N) != Index(P, s.N)
    {
      SlotsDiffer(k, P, s.N);
    }
  }

  /** There are such states with any number of commands waiting, up to the last free slot. */
  lemma ManyWaiting(N: nat, waiting: nat, cmd: Command) returns (s: State, s': State)
    requires Sized(N) && waiting < N
    ensures s.N == N && Inv(s) && |s.issued| - |s.consumed| == waiting && Step(s, WriteSlot, s')
  {
    hide Index, Wrap;
    var ring := seq(N, i => Sync);
    s := State(N, waiting, 0, 0, false, ring, Filling(cmd), seq(waiting, i => Sync), [], 0, {}, {});
    Tests(s.prod, s.cons, waiting, 0, N);
    s' := s.(ring := s.ring[Index(s.prod, s.N) := cmd], driver := Written(cmd));
  }

  lemma PublishInv(s: State, s': State)
    requires Inv(s) && Step(s, Publish, s')
    ensures Inv(s')
  {
    hide Index, Wrap, Advance;
    AdvanceStands(s.prod, |s.issued|, s.N);
    forall k: nat | k < |s.issued|
      ensures Effective(s', k) == Effective(s, k)
    {
    }
  }

  /** The command replaced after an error is the one that the device stopped on. */
  lemma CheckErrorInv(s: State, s': State)
    requires Inv(s) && OneAtATime(s) && Step(s, CheckError, s')
    ensures Inv(s')
    ensures s.error ==> s.synced == |s.consumed| && s'.fixed == s.fixed + {|s.consumed|}
  {
    hide Index, Wrap;
    if s.error {
      forall k: nat | |s.consumed| <= k < |s.issued|
        ensures s'.ring[Index(k, s.N)] == Effective(s', k)
      {
        if k != s.synced { SlotsDiffer(s.synced, k, s.N); }
      }
    }
  }

  lemma ConsumeInv(s: State, s': State)
    requires Inv(s) && Step(s, Consume, s')
    ensures Inv(s')
  {
    hide Index, Wrap, Advance;
    Tests(s.prod, s.consReg, |s.issued|, |s.consumed|, s.N);
    AdvanceStands(s.consReg, |s.consumed|, s.N);
  }

  lemma StepInv(s: State, a: Action, s': State)
    requires Inv(s) && OneAtATime(s) && Step(s, a, s')
    ensures Inv(s')
  {
    hide Index, Wrap, Advance;
    match a
    case Begin(_) =>
    case SyncFull =>
    case WriteSlot => NoOverwrite(s, s');
    case Publish => PublishInv(s, s');
    case SyncDrain =>
    case CheckError => CheckErrorInv(s, s');
    case Finish =>
    case Consume => ConsumeInv(s, s');
    case Fail => Tests(s.prod, s.consReg, |s.issued|, |s.consumed|, s.N);
  }

  lemma StepOneAtATime(s: State, a: Action, s': State)
    requires Inv(s) && OneAtATime(s) && Step(s, a, s')
    ensures OneAtATime(s')
    ensures a != SyncFull
    ensures a == WriteSlot ==> s.synced == |s.consumed| == |s.issued|
  {
    hide Index, Wrap, Advance;
    Tests(s.prod, s.cons, |s.issued|, s.synced, s.N);
    Tests(s.prod, s.consReg, |s.issued|, |s.consumed|, s.N);
  }

  lemma {:induction false} RunInv(ss: seq<State>, acts: seq<Action>, i: nat)
    requires Run(ss, acts) && i < |ss|
    ensures Inv(ss[i]) && OneAtATime(ss[i])
    decreases i
  {
    hide Inv, OneAtATime, Step;
    if i > 0 {
      RunInv(ss, acts, i - 1);
      StepInv(ss[i - 1], acts[i - 1], ss[i]);
      StepOneAtATime(ss[i - 1], acts[i - 1], ss[i]);
    } else {
      InitialInv(ss[0]);
    }
  }

  lemma InitialInv(s: State)
    requires Initial(s)
    ensures Inv(s) && OneAtATime(s)
  {
  }

  // ---- what the queue promises

  /**
   At most one command is ever outstanding. An insertion finds the queue drained and its copy of the
   consumer exact, so that it never waits for a full queue, and with more than one slot the queue is
   never full.
   */
  lemma OneOutstanding(ss: seq<State>, acts: seq<Action>, i: nat)
    requires Run(ss, acts) && i < |ss|
    ensures var s := ss[i];
            && s.N > 0 && |s.consumed| <= |s.issued| <= |s.consumed| + 1
            && (s.driver.Filling? ==> s.synced == |s.consumed| == |s.issued|)
            && (s.N > 1 ==> !Full(s.prod, s.cons, s.N) && !Full(s.prod, s.consReg, s.N))
    ensures i < |acts| ==> acts[i] != SyncFull
  {
    RunInv(ss, acts, i);
    var s := ss[i];
    Tests(s.prod, s.cons, |s.issued|, s.synced, s.N);
    Tests(s.prod, s.consReg, |s.issued|, |s.consumed|, s.N);
    if i < |acts| {
      StepOneAtATime(s, acts[i], ss[i + 1]);
    }
  }

  /** In every state of the ring the register difference modulo 2N is the number of commands waiting. */
  lemma QueueLength(s: State)
    requires Inv(s)
    ensures var length := |s.issued| - |s.consumed|;
            0 <= length <= s.N && (Parts(s.prod, s.N) - Parts(s.consReg, s.N)) % (2 * s.N) == length
  {
    RegisterDifference(s.prod, s.consReg, |s.issued|, |s.consumed|, s.N);
  }

  lemma RegisterDifference(prod: nat, cons: nat, P: nat, C: nat, N: nat)
    requires N > 0 && Stands(prod, P, N) && Stands(cons, C, N) && C <= P <= C + N
    ensures (Parts(prod, N) - Parts(cons, N)) % (2 * N) == P - C
  {
    hide Index, Wrap;
    assert Parts(prod, N) == Parts(P, N) && Parts(cons, N) == Parts(C, N);
    hide Parts;
    WrapIndex(P, N);
    WrapIndex(C, N);
    ModRange(P, 2 * N);
    ModRange(C, 2 * N);
    var q := C / (2 * N) - P / (2 * N);
    assert q * (2 * N) == (C / (2 * N)) * (2 * N) - (P / (2 * N)) * (2 * N);
    DivUnique(Parts(P, N) - Parts(C, N), 2 * N, q, P - C);
  }

  /** Full and empty are told apart, for the driver's cached copy and for the device. */
  lemma FullAndEmpty(ss: seq<State>, acts: seq<Action>, i: nat)
    requires Run(ss, acts) && i < |ss|
    ensures var s := ss[i];
            && s.N > 0
            && (Full(s.prod, s.cons, s.N) <==> |s.issued| == s.synced + s.N)
            && (Empty(s.prod, s.cons, s.N) <==> |s.issued| == s.synced)
            && (Full(s.prod, s.consReg, s.N) <==> |s.issued| == |s.consumed| + s.N)
            && (Empty(s.prod, s.consReg, s.N) <==> |s.issued| == |s.consumed|)
  {
    RunInv(ss, acts, i);
    var s := ss[i];
    Tests(s.prod, s.cons, |s.issued|, s.synced, s.N);
    Tests(s.prod, s.consReg, |s.issued|, |s.consumed|, s.N);
  }

  /**
   The device sees the commands in the order of their insertion. Those it sees as Sync instead are
   exactly the ones it has stopped on, but for the one it is standing on.
   */
  lemma Fifo(ss: seq<State>, acts: seq<Action>, i: nat)
    requires Run(ss, acts) && i < |ss|
    ensures var s := ss[i];
            && |s.consumed| <= |s.issued|
            && (forall k | 0 <= k < |s.consumed| :: s.consumed[k] == if k in s.faulty then Sync else s.issued[k])
            && s.faulty == (if s.error then s.fixed + {|s.consumed|} else s.fixed)
  {
    RunInv(ss, acts, i);
    forall k | 0 <= k < |ss[i].consumed|
      ensures ss[i].consumed[k] == Effective(ss[i], k)
    {
    }
  }

  /** An insertion returns only when everything has been consumed. */
  lemma DrainedAtReturn(ss: seq<State>, acts: seq<Action>, i: nat)
    requires Run(ss, acts) && i < |acts| && acts[i] == Finish
    ensures |ss[i].consumed| == |ss[i].issued|
  {
    hide Index, Wrap;
    RunInv(ss, acts, i);
    var s := ss[i];
    assert Step(s, acts[i], ss[i + 1]);
    Tests(s.prod, s.cons, |s.issued|, s.synced, s.N);
  }

  // ---- no insertion gets stuck

  /** How many steps an insertion needs at most from here on, if the device does not stop again. */
  ghost function Rank(s: State): nat {
    var P, C, S := |s.issued|, |s.consumed|, s.synced;
    match s.driver
    case Idle => 0
    case Filling(_) => 6
    case Written(_) => 5
    case Draining => if s.error then 6 else if C < P then 4 else if S < P then 3 else 1
    case Synced => if s.error || C < P then 5 else if S < P then 4 else 2
  }

  /** Some step of the driver or of the device brings an insertion nearer to its end. */
  lemma Onward(s: State) returns (a: Action, s': State)
    requires Inv(s) && OneAtATime(s) && !s.driver.Idle?
    ensures Step(s, a, s') && Rank(s') < Rank(s) && !a.Fail? && !a.Begin?
  {
    hide Index, Wrap, Advance;
    Tests(s.prod, s.cons, |s.issued|, s.synced, s.N);
    Tests(s.prod, s.consReg, |s.issued|, |s.consumed|, s.N);
    match s.driver
    case Filling(cmd) =>
      a, s' := WriteSlot, s.(ring := s.ring[Index(s.prod, s.N) := cmd], driver := Written(cmd));
    case Written(cmd) =>
      a, s' := Publish, s.(prod := Advance(s.prod, s.N), issued := s.issued + [cmd], driver := Draining);
    case Draining =>
      if !s.error && |s.consumed| < |s.issued| {
        var cmd := s.ring[Index(s.consReg, s.N)];
        a, s' := Consume, s.(consumed := s.consumed + [cmd], consReg := Advance(s.consReg, s.N));
      } else if s.synced < |s.issued| {
        a, s' := SyncDrain, s.(cons := s.consReg, synced := |s.consumed|, driver := Synced);
      } else {
        a, s' := Finish, s.(driver := Idle);
      }
    case Synced =>
      if s.error {
        a, s' := CheckError, s.(ring := s.ring[Index(s.cons, s.N) := Sync], error := false, driver := Draining,
                                fixed := s.fixed + {s.synced});
      } else {
        a, s' := CheckError, s.(driver := Draining);
      }
  }

  /**
   Every run can be gone on with, without another command or error, so that the insertion in progress
   returns after at most six steps with everything consumed.
   */
  lemma {:induction false} CanFinish(ss: seq<State>, acts: seq<Action>) returns (tt: seq<State>, bs: seq<Action>)
    requires Run(ss, acts)
    ensures Run(ss + tt, acts + bs) && |bs| <= Rank(ss[|ss| - 1]) <= 6
    ensures forall k | 0 <= k < |bs| :: !bs[k].Fail? && !bs[k].Begin?
    ensures var s := (ss + tt)[|ss + tt| - 1]; s.driver.Idle? && |s.consumed| == |s.issued|
    decreases Rank(ss[|ss| - 1])
  {
    hide Inv, OneAtATime, Step, Initial;
    var s := ss[|ss| - 1];
    RunInv(ss, acts, |ss| - 1);
    if s.driver.Idle? {
      tt, bs := [], [];
      assert ss + tt == ss && acts + bs == acts;
      IdleDrained(s);
    } else {
      var a, s' := Onward(s);
      InvSizes(s);
      RunOn(ss, acts, a, s');
      tt, bs := CanFinish(ss + [s'], acts + [a]);
      tt, bs := [s'] + tt, [a] + bs;
      assert ss + tt == ss + [s'] + tt[1..] && acts + bs == acts + [a] + bs[1..];
    }
  }

  lemma RunOn(ss: seq<State>, acts: seq<Action>, a: Action, s': State)
    requires Run(ss, acts)
    requires var s := ss[|ss| - 1]; s.N > 0 && |s.ring| == s.N && Step(s, a, s')
    ensures Run(ss + [s'], acts + [a])
  {
    hide Step, Initial;
  }

  lemma InvSizes(s: State)
    requires Inv(s)
    ensures s.N > 0 && |s.ring| == s.N
  {
  }

  lemma IdleDrained(s: State)
    requires Inv(s) && OneAtATime(s) && s.driver.Idle?
    ensures |s.consumed| == |s.issued|
  {
  }
}
