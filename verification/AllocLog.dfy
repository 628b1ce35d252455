/**
 The allocation log as a concurrent protocol.

 `mem_core_` surrounds each raw allocator call with log steps and counter steps.  Every step is atomic
 (a mutex section, an atomic counter operation, or one raw call), and steps of different threads
 interleave freely.  The program counter of a thread is kept with the block it works on.
 */
module AllocLog {

  type Addr = nat
  type Tid = nat

  /** Where the owner of a live block stands with it. */
  datatype Phase =
    | Held            // between operations
    | AllocRaw        // the raw allocator returned it, it is not in the log yet
    | AllocLogged     // put into the log, not counted yet
    | FreeUnlogged    // removed from the log, still counted
    | FreeCounted     // no longer counted, the raw free is next
    | ReallocDropped  // removed from the log, the raw realloc is next
    | ReallocMoved    // returned by the raw realloc, it is not in the log yet

  /** `lost` remembers that the log entry of the block was dropped by a failed realloc or refused for lack of memory. */
  datatype Block = Block(owner: Tid, phase: Phase, lost: bool)

  /**
   `reports` counts the messages about a double free or an invalid pointer, `unrecorded` those about a
   resized block that could not be put into the log.
   */
  datatype State = State(blocks: map<Addr, Block>, log: set<Addr>, count: int, reports: nat, unrecorded: nat)

  datatype Step =
    | AllocBegin(t: Tid, p: Addr)
    | AllocPut(t: Tid, p: Addr, oom: bool)
    | AllocCount(t: Tid, p: Addr)
    | FreeRemove(t: Tid, p: Addr)
    | FreeCount(t: Tid, p: Addr)
    | FreeRaw(t: Tid, p: Addr)
    | ReallocRemove(t: Tid, p: Addr)
    | ReallocRaw(t: Tid, p: Addr, q: Addr)
    | ReallocFail(t: Tid, p: Addr)
    | ReallocPut(t: Tid, p: Addr, oom: bool)
    | Handoff(t: Tid, p: Addr, u: Tid)

  /** The block is in the given phase and belongs to the thread. */
  predicate At(s: State, t: Tid, p: Addr, phase: Phase) {
    p in s.blocks && s.blocks[p].owner == t && s.blocks[p].phase == phase
  }

  predicate Busy(s: State, t: Tid) {
    exists p | p in s.blocks :: s.blocks[p].owner == t && s.blocks[p].phase != Held
  }

  /** When a step can be taken.  Threads free and realloc only blocks that they own. */
  predicate Enabled(s: State, a: Step) {
    match a
    case AllocBegin(t, p) => p != 0 && p !in s.blocks && !Busy(s, t)
    case AllocPut(t, p, _) => At(s, t, p, AllocRaw)
    case AllocCount(t, p) => At(s, t, p, AllocLogged)
    case FreeRemove(t, p) => At(s, t, p, Held) && !Busy(s, t)
    case FreeCount(t, p) => At(s, t, p, FreeUnlogged)
    case FreeRaw(t, p) => At(s, t, p, FreeCounted)
    case ReallocRemove(t, p) => At(s, t, p, Held) && !Busy(s, t)
    case ReallocRaw(t, p, q) => At(s, t, p, ReallocDropped) && q != 0 && (q == p || q !in s.blocks)
    case ReallocFail(t, p) => At(s, t, p, ReallocDropped)
    case ReallocPut(t, p, _) => At(s, t, p, ReallocMoved)
    case Handoff(t, p, _) => At(s, t, p, Held)
  }

  function Moved(s: State, p: Addr, phase: Phase): (r: State)
    requires p in s.blocks
  {
    s.(blocks := s.blocks[p := s.blocks[p].(phase := phase)])
  }

  /** Removing an address from the log reports an error when it is not there. */
  function Removed(s: State, p: Addr): (r: State) {
    s.(log := s.log - {p}, reports := if p in s.log then s.reports else s.reports + 1)
  }

  /** Putting an address into the log fails silently for the log itself when its table cannot grow. */
  function PutInto(s: State, p: Addr, oom: bool): (r: State)
    requires p in s.blocks
  {
    if oom then s.(blocks := s.blocks[p := s.blocks[p].(lost := true)]) else s.(log := s.log + {p})
  }

  /** Unlike an allocation, a realloc tells when its block could not be recorded. */
  function Announced(s: State, oom: bool): (r: State) {
    if oom then s.(unrecorded := s.unrecorded + 1) else s
  }

  function Apply(s: State, a: Step): (r: State)
    requires Enabled(s, a)
  {
    match a
    case AllocBegin(t, p) => s.(blocks := s.blocks[p := Block(t, AllocRaw, false)])
    case AllocPut(t, p, oom) => PutInto(Moved(s, p, AllocLogged), p, oom)
    case AllocCount(t, p) => Moved(s, p, Held).(count := s.count + 1)
    case FreeRemove(t, p) => Removed(Moved(s, p, FreeUnlogged), p)
    case FreeCount(t, p) => Moved(s, p, FreeCounted).(count := s.count - 1)
    case FreeRaw(t, p) => s.(blocks := s.blocks - {p})
    case ReallocRemove(t, p) => Removed(Moved(s, p, ReallocDropped), p)
    case ReallocRaw(t, p, q) => s.(blocks := (s.blocks - {p})[q := Block(t, ReallocMoved, false)])
    case ReallocFail(t, p) => s.(blocks := s.blocks[p := Block(t, Held, true)])
    case ReallocPut(t, p, oom) => Announced(PutInto(Moved(s, p, Held), p, oom), oom)
    case Handoff(t, p, u) => s.(blocks := s.blocks[p := s.blocks[p].(owner := u)])
  }

  /** The blocks that the log must contain: settled or just logged, and not lost. */
  predicate Logged(b: Block) {
    (b.phase == Held || b.phase == AllocLogged) && !b.lost
  }

  /** The blocks that the counter counts. */
  predicate Counted(b: Block) {
    b.phase != AllocRaw && b.phase != AllocLogged && b.phase != FreeCounted
  }

  function CountedSet(blocks: map<Addr, Block>): (r: set<Addr>) {
    set p | p in blocks && Counted(blocks[p])
  }

  ghost predicate Inv(s: State) {
    && (forall p :: p in s.log <==> p in s.blocks && Logged(s.blocks[p]))
    && s.count == |CountedSet(s.blocks)|
    && (forall p | p in s.blocks :: s.blocks[p].phase == ReallocMoved || s.blocks[p].phase == AllocRaw ==> !s.blocks[p].lost)
  }

  lemma SizeWithout<E>(a: set<E>, p: E)
    ensures |a| == |a - {p}| + if p in a then 1 else 0
  {
    if p !in a {
      assert a - {p} == a;
    }
  }

  /** Changing one block changes the counted blocks by at most that one. */
  lemma CountedChange(was: map<Addr, Block>, now: map<Addr, Block>, p: Addr)
    requires forall q | q != p :: q in was <==> q in now
    requires forall q | q in was && q != p :: was[q] == now[q]
    ensures |CountedSet(now)| ==
            |CountedSet(was)|
            - (if p in was && Counted(was[p]) then 1 else 0)
            + (if p in now && Counted(now[p]) then 1 else 0)
  {
    assert CountedSet(was) - {p} == CountedSet(now) - {p};
    SizeWithout(CountedSet(was), p);
    SizeWithout(CountedSet(now), p);
  }

  /** Every step of every thread keeps the invariant. */
  lemma StepKeepsInv(s: State, a: Step)
    requires Inv(s) && Enabled(s, a)
    ensures Inv(Apply(s, a))
  {
    var n := Apply(s, a);
    if a.ReallocRaw? {
      var mid := s.blocks - {a.p};
      CountedChange(s.blocks, mid, a.p);
      CountedChange(mid, n.blocks, a.q);
    } else {
      CountedChange(s.blocks, n.blocks, a.p);
    }
  }

  // Runs.

  predicate CanRun(s: State, steps: seq<Step>)
    decreases |steps|
  {
    steps == [] || (Enabled(s, steps[0]) && CanRun(Apply(s, steps[0]), steps[1..]))
  }

  function Run(s: State, steps: seq<Step>): (r: State)
    requires CanRun(s, steps)
    decreases |steps|
  {
    if steps == [] then s else Run(Apply(s, steps[0]), steps[1..])
  }

  const INIT: State := State(map[], {}, 0, 0, 0)

  /** No raw realloc fails and the table of the log can always grow. */
  predicate Faultless(a: Step) {
    !a.ReallocFail? && !(a.AllocPut? && a.oom) && !(a.ReallocPut? && a.oom)
  }

  /** The step looks for the log entry of a block whose entry was lost. */
  predicate RemovesLost(s: State, a: Step)
    requires Enabled(s, a)
  {
    (a.FreeRemove? || a.ReallocRemove?) && s.blocks[a.p].lost
  }

  function LostRemovals(s: State, steps: seq<Step>): (n: nat)
    requires CanRun(s, steps)
    decreases |steps|
  {
    if steps == [] then 0
    else (if RemovesLost(s, steps[0]) then 1 else 0) + LostRemovals(Apply(s, steps[0]), steps[1..])
  }

  /**
   Every run of every interleaving: the invariant holds at the end, and the "double free" and "invalid
   pointer" reports are exactly the frees and reallocs of blocks whose log entry was lost before.
   */
  lemma {:induction false} RunKeepsInv(s: State, steps: seq<Step>)
    requires Inv(s) && CanRun(s, steps)
    ensures Inv(Run(s, steps))
    ensures Run(s, steps).reports == s.reports + LostRemovals(s, steps)
    decreases |steps|
  {
    if steps != [] {
      StepKeepsInv(s, steps[0]);
      ReportIffLost(s, steps[0]);
      RunKeepsInv(Apply(s, steps[0]), steps[1..]);
    }
  }

  lemma ReportIffLost(s: State, a: Step)
    requires Inv(s) && Enabled(s, a)
    ensures Apply(s, a).reports == s.reports + if RemovesLost(s, a) then 1 else 0
  {
    assert a.p in s.log <==> a.p in s.blocks && Logged(s.blocks[a.p]);
  }

  ghost predicate NothingLost(s: State) {
    forall p | p in s.blocks :: !s.blocks[p].lost
  }

  lemma {:induction false} FaultlessLosesNothing(s: State, steps: seq<Step>)
    requires NothingLost(s) && CanRun(s, steps) && forall a | a in steps :: Faultless(a)
    ensures NothingLost(Run(s, steps)) && LostRemovals(s, steps) == 0
    ensures Run(s, steps).unrecorded == s.unrecorded
    decreases |steps|
  {
    if steps != [] {
      assert Faultless(steps[0]);
      assert NothingLost(Apply(s, steps[0]));
      FaultlessLosesNothing(Apply(s, steps[0]), steps[1..]);
    }
  }

  predicate Quiescent(s: State) {
    forall p | p in s.blocks :: s.blocks[p].phase == Held
  }

  /**
   Without a failed realloc and without log exhaustion no run reports an error, and between operations
   the log lists exactly the live blocks.
   */
  lemma FaultlessRun(steps: seq<Step>)
    requires CanRun(INIT, steps) && forall a | a in steps :: Faultless(a)
    ensures var s := Run(INIT, steps);
            && s.reports == 0 && s.unrecorded == 0
            && s.log <= s.blocks.Keys
            && (Quiescent(s) ==> s.log == s.blocks.Keys && s.count == |s.blocks|)
  {
    var s := Run(INIT, steps);
    assert CountedSet(INIT.blocks) == {};
    RunKeepsInv(INIT, steps);
    FaultlessLosesNothing(INIT, steps);
    AnyRun(steps);
  }

  /** With failures too: the log never names a dead block, and the counter is exact between operations. */
  lemma AnyRun(steps: seq<Step>)
    requires CanRun(INIT, steps)
    ensures var s := Run(INIT, steps);
            && s.log <= s.blocks.Keys
            && s.reports == LostRemovals(INIT, steps)
            && (Quiescent(s) ==> s.count == |s.blocks|)
            && (Quiescent(s) ==> s.log == set p | p in s.blocks && !s.blocks[p].lost)
  {
    var s := Run(INIT, steps);
    assert CountedSet(INIT.blocks) == {};
    RunKeepsInv(INIT, steps);
    if Quiescent(s) {
      assert CountedSet(s.blocks) == s.blocks.Keys;
    }
  }

  /** The sequence of steps of one failed realloc and a free, on the single block 8 of thread 1. */
  function FailedReallocSteps(): (steps: seq<Step>) {
    [AllocBegin(1, 8), AllocPut(1, 8, false), AllocCount(1, 8), ReallocRemove(1, 8), ReallocFail(1, 8), FreeRemove(1, 8)]
  }

  /** A failed realloc breaks the log: the later, legitimate free of the still live block is reported. */
  lemma FailedReallocIsReported()
    ensures CanRun(INIT, FailedReallocSteps()) && Run(INIT, FailedReallocSteps()).reports == 1
  {
    var a := FailedReallocSteps();
    hide CanRun, Run;
    var s1 := Apply(INIT, a[0]);
    var s2 := Apply(s1, a[1]);
    var s3 := Apply(s2, a[2]);
    var s4 := Apply(s3, a[3]);
    var s5 := Apply(s4, a[4]);
    var s6 := Apply(s5, a[5]);
    assert s6.reports == 1;
    RunNothing(s6);
    assert a[5..][1..] == [];
    RunStep(s5, a[5..]);
    assert a[4..][1..] == a[5..];
    RunStep(s4, a[4..]);
    assert a[3..][1..] == a[4..];
    RunStep(s3, a[3..]);
    assert a[2..][1..] == a[3..];
    RunStep(s2, a[2..]);
    assert a[1..][1..] == a[2..];
    RunStep(s1, a[1..]);
    assert a[0..] == a;
    RunStep(INIT, a);
  }

  lemma RunNothing(s: State)
    ensures CanRun(s, []) && Run(s, []) == s
  {
  }

  lemma RunStep(s: State, steps: seq<Step>)
    requires steps != [] && Enabled(s, steps[0]) && CanRun(Apply(s, steps[0]), steps[1..])
    ensures CanRun(s, steps) && Run(s, steps) == Run(Apply(s, steps[0]), steps[1..])
  {
  }
}
