/**
 The aligned allocator on top of the logged one, in every interleaving of threads.

 An aligned allocation is an ordinary allocation of the log, after which its block is granted at an
 aligned address; an aligned free reads the hidden byte and starts the ordinary free of the address that
 it computes.  All other steps of the log may come in between.
 */
module AlignedLog {
  import Log = AllocLog
  import Heap = AlignedAlloc

  datatype State = State(heap: Heap.State, log: Log.State)

  datatype Step =
    | Grant(t: Log.Tid, base: Log.Addr, size: nat, align: nat)
    | Store(u: Heap.Addr, i: nat, v: int)
    | Release(t: Log.Tid, u: Heap.Addr)
    | Other(a: Log.Step)

  /** Other steps neither free nor resize the raw block of a live aligned pointer. */
  predicate Enabled(s: State, a: Step) {
    match a
    case Grant(t, base, size, align) =>
      && Log.At(s.log, t, base, Log.Held) && base !in s.heap.raw
      && Heap.Enabled(s.heap, Heap.Alloc(base, size, align))
    case Store(u, i, v) => Heap.Enabled(s.heap, Heap.Write(u, i, v))
    case Release(t, u) =>
      && u in s.heap.given && s.heap.given[u].base in s.log.blocks
      && s.log.blocks[s.heap.given[u].base].owner == t && !Log.Busy(s.log, t)
    case Other(b) => Log.Enabled(s.log, b) && (b.Handoff? || b.p !in s.heap.raw)
  }

  /** The raw block of every live aligned pointer is settled in the log's eyes. */
  ghost predicate Inv(s: State) {
    && Heap.Inv(s.heap) && Log.Inv(s.log)
    && forall b | b in s.heap.raw :: 0 < b && b in s.log.blocks && s.log.blocks[b].phase == Log.Held
  }

  /** The log step with which an aligned free begins: the address comes from the hidden byte. */
  function FreeStep(s: State, t: Log.Tid, u: Heap.Addr): (a: Log.Step)
    requires u - 1 in s.heap.mem && Heap.HiddenBase(s.heap.mem, u) >= 0
  {
    Log.FreeRemove(t, Heap.HiddenBase(s.heap.mem, u))
  }

  ghost predicate CanApply(s: State, a: Step) {
    && Enabled(s, a)
    && (a.Release? ==>
          && a.u - 1 in s.heap.mem && Heap.HiddenBase(s.heap.mem, a.u) >= 0
          && Log.Enabled(s.log, FreeStep(s, a.t, a.u)))
  }

  ghost function Apply(s: State, a: Step): (r: State)
    requires CanApply(s, a)
  {
    match a
    case Grant(t, base, size, align) => s.(heap := Heap.Apply(s.heap, Heap.Alloc(base, size, align)))
    case Store(u, i, v) => s.(heap := Heap.Apply(s.heap, Heap.Write(u, i, v)))
    case Release(t, u) => State(Heap.Apply(s.heap, Heap.Free(u)), Log.Apply(s.log, FreeStep(s, t, u)))
    case Other(b) => s.(log := Log.Apply(s.log, b))
  }

  /** An aligned free always hands the log a live, settled block of its thread. */
  lemma ReleaseFindsBlock(s: State, t: Log.Tid, u: Heap.Addr)
    requires Inv(s) && Enabled(s, Release(t, u))
    ensures CanApply(s, Release(t, u))
    ensures FreeStep(s, t, u) == Log.FreeRemove(t, s.heap.given[u].base)
    ensures s.heap.given[u].base in s.heap.raw
  {
    Heap.FreeRecoversBase(s.heap, u);
  }

  lemma EveryStepApplies(s: State, a: Step)
    requires Inv(s) && Enabled(s, a)
    ensures CanApply(s, a)
  {
    if a.Release? {
      ReleaseFindsBlock(s, a.t, a.u);
    }
  }

  lemma OtherKeepsBlocks(s: Log.State, a: Log.Step, b: Log.Addr)
    requires Log.Enabled(s, a) && b in s.blocks && s.blocks[b].phase == Log.Held
    requires a.Handoff? || a.p != b
    ensures b in Log.Apply(s, a).blocks && Log.Apply(s, a).blocks[b].phase == Log.Held
    ensures Log.Apply(s, a).blocks[b].lost == s.blocks[b].lost
  {
  }

  lemma StepKeepsInv(s: State, a: Step)
    requires Inv(s) && Enabled(s, a)
    ensures CanApply(s, a) && Inv(Apply(s, a))
  {
    EveryStepApplies(s, a);
    match a
    case Grant(t, base, size, align) =>
      Heap.StepKeepsInv(s.heap, Heap.Alloc(base, size, align));
      hide Heap.Inv, Log.Inv;
    case Store(u, i, v) =>
      Heap.StepKeepsInv(s.heap, Heap.Write(u, i, v));
      hide Heap.Inv, Log.Inv;
    case Release(t, u) =>
      ReleaseFindsBlock(s, t, u);
      Heap.StepKeepsInv(s.heap, Heap.Free(u));
      Heap.FreeRecoversBase(s.heap, u);
      Log.StepKeepsInv(s.log, FreeStep(s, t, u));
      hide Heap.Inv, Log.Inv;
    case Other(b) =>
      Log.StepKeepsInv(s.log, b);
      hide Heap.Inv, Log.Inv;
      forall x | x in s.heap.raw
        ensures x in Log.Apply(s.log, b).blocks && Log.Apply(s.log, b).blocks[x].phase == Log.Held
      {
        OtherKeepsBlocks(s.log, b, x);
      }
  }

  // Runs.

  const INIT: State := State(Heap.INIT, Log.INIT)

  ghost predicate CanRun(s: State, steps: seq<Step>)
    decreases |steps|
  {
    steps == [] || (CanApply(s, steps[0]) && CanRun(Apply(s, steps[0]), steps[1..]))
  }

  ghost function Run(s: State, steps: seq<Step>): (r: State)
    requires CanRun(s, steps)
    decreases |steps|
  {
    if steps == [] then s else Run(Apply(s, steps[0]), steps[1..])
  }

  /** The program only respects the rules of `Enabled`. */
  ghost predicate Allowed(s: State, steps: seq<Step>)
    decreases |steps|
  {
    steps == [] || (Enabled(s, steps[0]) && (CanApply(s, steps[0]) ==> Allowed(Apply(s, steps[0]), steps[1..])))
  }

  /** The log had room for every block that was granted. */
  ghost predicate Recorded(s: State, steps: seq<Step>)
    requires CanRun(s, steps)
    decreases |steps|
  {
    steps == [] ||
    (var a := steps[0];
     (a.Grant? ==> !s.log.blocks[a.base].lost) && Recorded(Apply(s, a), steps[1..]))
  }

  /** The reports that the other steps cause by removing lost blocks. */
  ghost function OtherReports(s: State, steps: seq<Step>): (n: nat)
    requires CanRun(s, steps)
    decreases |steps|
  {
    if steps == [] then 0
    else
      var a := steps[0];
      (if a.Other? && Log.RemovesLost(s.log, a.a) then 1 else 0) + OtherReports(Apply(s, a), steps[1..])
  }

  ghost predicate NoneLost(s: State)
    requires Inv(s)
  {
    forall b | b in s.heap.raw :: !s.log.blocks[b].lost
  }

  /** One step: an aligned free is not reported, and only an other step can be. */
  lemma StepReports(s: State, a: Step)
    requires Inv(s) && NoneLost(s) && Enabled(s, a)
    requires a.Grant? ==> !s.log.blocks[a.base].lost
    ensures CanApply(s, a) && Inv(Apply(s, a)) && NoneLost(Apply(s, a))
    ensures Apply(s, a).log.reports == s.log.reports + if a.Other? && Log.RemovesLost(s.log, a.a) then 1 else 0
  {
    StepKeepsInv(s, a);
    match a
    case Grant(t, base, size, align) =>
      hide Heap.Inv, Log.Inv;
    case Store(u, i, v) =>
      hide Heap.Inv, Log.Inv;
    case Release(t, u) =>
      ReleaseFindsBlock(s, t, u);
      Log.ReportIffLost(s.log, FreeStep(s, t, u));
      hide Heap.Inv, Log.Inv;
    case Other(b) =>
      Log.ReportIffLost(s.log, b);
      hide Heap.Inv, Log.Inv;
      forall x | x in s.heap.raw
        ensures x in Log.Apply(s.log, b).blocks && !Log.Apply(s.log, b).blocks[x].lost
      {
        OtherKeepsBlocks(s.log, b, x);
      }
  }

  lemma {:induction false} AllowedRuns(s: State, steps: seq<Step>)
    requires Inv(s) && Allowed(s, steps)
    ensures CanRun(s, steps) && Inv(Run(s, steps))
    decreases |steps|
  {
    if steps != [] {
      StepKeepsInv(s, steps[0]);
      AllowedRuns(Apply(s, steps[0]), steps[1..]);
    }
  }

  /**
   Aligned frees of live pointers are never reported: over every run in which the log had room for the
   granted blocks, all reports come from other blocks, and the log still lists every live aligned block.
   */
  lemma {:induction false} AlignedFreesAreSilent(s: State, steps: seq<Step>)
    requires Inv(s) && NoneLost(s) && Allowed(s, steps)
    requires CanRun(s, steps) ==> Recorded(s, steps)
    ensures CanRun(s, steps)
    ensures var r := Run(s, steps);
            && r.log.reports == s.log.reports + OtherReports(s, steps)
            && Inv(r) && NoneLost(r) && forall b | b in r.heap.raw :: b in r.log.log
    decreases |steps|
  {
    AllowedRuns(s, steps);
    if steps == [] {
      forall b | b in s.heap.raw
        ensures b in s.log.log
      {
        assert Log.Logged(s.log.blocks[b]);
      }
    } else {
      StepReports(s, steps[0]);
      hide Inv, NoneLost;
      AlignedFreesAreSilent(Apply(s, steps[0]), steps[1..]);
    }
  }

  lemma NothingAtStart()
    ensures Inv(INIT) && NoneLost(INIT)
  {
    assert Log.CountedSet(Log.INIT.blocks) == {};
  }
}
