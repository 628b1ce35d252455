/** The allocation entry point of the library with its log and counter, as one thread executes it. */
module MemCore {
  import opened AllocLog

  class Allocator {
    /** The blocks that the raw allocator has handed out. */
    var blocks: map<Addr, Block>
    /** `g_allocated`, the log table, and `g_allocated_count`. */
    var log: set<Addr>
    var count: int
    /** How many errors of either kind were reported. */
    var reports: nat
    var unrecorded: nat

    function Snapshot(): (s: State)
      reads this
    {
      State(blocks, log, count, reports, unrecorded)
    }

    constructor ()
      ensures Snapshot() == INIT
    {
      blocks, log, count, reports, unrecorded := map[], {}, 0, 0, 0;
    }

    method SetPhase(p: Addr, phase: Phase)
      requires p in blocks
      modifies this`blocks
      ensures blocks == old(blocks)[p := old(blocks)[p].(phase := phase)]
    {
      blocks := blocks[p := blocks[p].(phase := phase)];
    }

    /** `allocated_put` under the lock; `oom` tells whether the table failed to grow. */
    method AllocatedPut(p: Addr, oom: bool)
      requires p in blocks
      modifies this`log, this`blocks
      ensures Snapshot() == PutInto(old(Snapshot()), p, oom)
    {
      if oom {
        blocks := blocks[p := blocks[p].(lost := true)];
      } else {
        log := log + {p};
      }
    }

    /** `allocated_remove` under the lock: tells whether the entry was missing. */
    method AllocatedRemove(p: Addr) returns (missing: bool)
      modifies this`log
      ensures missing == (p !in old(log)) && log == old(log) - {p}
    {
      missing := p !in log;
      log := log - {p};
    }

    method MemLogAllocated(t: Tid, p: Addr, oom: bool)
      requires At(Snapshot(), t, p, AllocRaw)
      modifies this
      ensures CanRun(old(Snapshot()), [AllocPut(t, p, oom), AllocCount(t, p)])
      ensures Snapshot() == Run(old(Snapshot()), [AllocPut(t, p, oom), AllocCount(t, p)])
      ensures blocks == old(blocks)[p := Block(t, Held, old(blocks)[p].lost || oom)] && count == old(count) + 1
      ensures log == if oom then old(log) else old(log) + {p}
      ensures reports == old(reports) && unrecorded == old(unrecorded)
    {
      ghost var s := Snapshot();
      SetPhase(p, AllocLogged);
      AllocatedPut(p, oom);
      SetPhase(p, Held);
      count := count + 1;
      RunTwo(s, AllocPut(t, p, oom), AllocCount(t, p));
    }

    method MemLogFree(t: Tid, p: Addr)
      requires Enabled(Snapshot(), FreeRemove(t, p))
      modifies this
      ensures CanRun(old(Snapshot()), [FreeRemove(t, p), FreeCount(t, p)])
      ensures Snapshot() == Run(old(Snapshot()), [FreeRemove(t, p), FreeCount(t, p)])
      ensures blocks == old(blocks)[p := old(blocks)[p].(phase := FreeCounted)] && count == old(count) - 1
      ensures log == old(log) - {p}
      ensures reports == old(reports) + (if p in old(log) then 0 else 1) && unrecorded == old(unrecorded)
    {
      ghost var s := Snapshot();
      var foundDoubleFree := AllocatedRemove(p);
      if foundDoubleFree {
        reports := reports + 1;
      }
      SetPhase(p, FreeUnlogged);
      SetPhase(p, FreeCounted);
      count := count - 1;
      RunTwo(s, FreeRemove(t, p), FreeCount(t, p));
    }

    method MemLogReallocValidate(t: Tid, p: Addr)
      requires Enabled(Snapshot(), ReallocRemove(t, p))
      modifies this
      ensures Snapshot() == Apply(old(Snapshot()), ReallocRemove(t, p))
      ensures blocks == old(blocks)[p := old(blocks)[p].(phase := ReallocDropped)] && count == old(count)
      ensures log == old(log) - {p}
      ensures reports == old(reports) + (if p in old(log) then 0 else 1) && unrecorded == old(unrecorded)
    {
      var foundUninitialized := AllocatedRemove(p);
      if foundUninitialized {
        reports := reports + 1;
      }
      SetPhase(p, ReallocDropped);
    }

    method MemLogReallocUpdate(t: Tid, p: Addr, oom: bool)
      requires Enabled(Snapshot(), ReallocPut(t, p, oom))
      modifies this
      ensures Snapshot() == Apply(old(Snapshot()), ReallocPut(t, p, oom))
      ensures blocks == old(blocks)[p := Block(t, Held, old(blocks)[p].lost || oom)] && count == old(count)
      ensures log == if oom then old(log) else old(log) + {p}
      ensures reports == old(reports) && unrecorded == old(unrecorded) + (if oom then 1 else 0)
    {
      SetPhase(p, Held);
      AllocatedPut(p, oom);
      if oom {
        unrecorded := unrecorded + 1;
      }
    }

    /** The raw realloc of the block `p`, or of no block; `q == 0` is failure. */
    method RawRealloc(t: Tid, p: Addr, q: Addr)
      requires q == p || q !in blocks
      modifies this`blocks
      ensures blocks == if q == 0 then old(blocks) else (old(blocks) - {p})[q := Block(t, if p == 0 then AllocRaw else ReallocMoved, false)]
    {
      if q != 0 {
        blocks := (blocks - {p})[q := Block(t, if p == 0 then AllocRaw else ReallocMoved, false)];
      }
    }

    /**
     `mem_core_`: allocates, resizes or frees the block `pp` (0 is the null pointer).  `raw` is what the
     raw allocator returns and `oom` whether the log table fails to grow.  Undisturbed by other threads it
     performs exactly the steps of its kind of call.
     */
    method Perform(t: Tid, pp: Addr, sz: nat, raw: Addr, oom: bool) returns (ok: bool, np: Addr)
      requires pp != 0 ==> At(Snapshot(), t, pp, Held)
      requires !Busy(Snapshot(), t) && 0 !in blocks
      requires raw == 0 || raw == pp || raw !in blocks
      modifies this
      ensures CanRun(old(Snapshot()), CoreSteps(t, pp, sz, raw, oom))
      ensures Snapshot() == Run(old(Snapshot()), CoreSteps(t, pp, sz, raw, oom))
      ensures ok == (if sz == 0 then pp != 0 else raw != 0)
      ensures np == if sz == 0 then 0 else if raw == 0 then pp else raw
    {
      ghost var s := Snapshot();
      if sz == 0 {
        if pp == 0 {
          return false, pp;
        }
        MemLogFree(t, pp);
        RunTwo(s, FreeRemove(t, pp), FreeCount(t, pp));
        RunOne(Snapshot(), FreeRaw(t, pp));
        blocks := blocks - {pp};
        RunAppend(s, [FreeRemove(t, pp), FreeCount(t, pp)], [FreeRaw(t, pp)]);
        return true, 0;
      }
      if pp != 0 {
        MemLogReallocValidate(t, pp);
      }
      RawRealloc(t, pp, raw);
      if raw == 0 {
        if pp != 0 {
          blocks := blocks[pp := Block(t, Held, true)];
          RunTwo(s, ReallocRemove(t, pp), ReallocFail(t, pp));
        }
        return false, pp;
      }
      if pp == 0 {
        RunOne(s, AllocBegin(t, raw));
        assert blocks == s.blocks[raw := Block(t, AllocRaw, false)];
        MemLogAllocated(t, raw, oom);
        RunAppend(s, [AllocBegin(t, raw)], [AllocPut(t, raw, oom), AllocCount(t, raw)]);
      } else {
        RunOne(Snapshot(), ReallocPut(t, raw, oom));
        MemLogReallocUpdate(t, raw, oom);
        RunTwo(s, ReallocRemove(t, pp), ReallocRaw(t, pp, raw));
        RunAppend(s, [ReallocRemove(t, pp), ReallocRaw(t, pp, raw)], [ReallocPut(t, raw, oom)]);
      }
      return true, raw;
    }

    /** The same call as its caller sees it: what it leaves in the log, the counter and the raw allocator. */
    method Core(t: Tid, pp: Addr, sz: nat, raw: Addr, oom: bool) returns (ok: bool, np: Addr)
      requires pp != 0 ==> At(Snapshot(), t, pp, Held)
      requires !Busy(Snapshot(), t) && 0 !in blocks
      requires raw == 0 || raw == pp || raw !in blocks
      modifies this
      ensures CanRun(old(Snapshot()), CoreSteps(t, pp, sz, raw, oom))
      ensures Snapshot() == Run(old(Snapshot()), CoreSteps(t, pp, sz, raw, oom))
      ensures ok == (if sz == 0 then pp != 0 else raw != 0)
      ensures np == if sz == 0 then 0 else if raw == 0 then pp else raw
      ensures sz == 0 && pp != 0 ==>
                && blocks == old(blocks) - {pp} && log == old(log) - {pp} && count == old(count) - 1
                && reports == old(reports) + (if pp in old(log) then 0 else 1) && unrecorded == old(unrecorded)
      ensures sz > 0 && pp == 0 && raw != 0 ==>
                && blocks == old(blocks)[raw := Block(t, Held, oom)] && count == old(count) + 1
                && log == (if oom then old(log) else old(log) + {raw})
                && reports == old(reports) && unrecorded == old(unrecorded)
      ensures sz > 0 && pp != 0 && raw != 0 ==>
                && blocks == (old(blocks) - {pp})[raw := Block(t, Held, oom)] && count == old(count)
                && log == (if oom then old(log) - {pp} else old(log) - {pp} + {raw})
                && reports == old(reports) + (if pp in old(log) then 0 else 1)
                && unrecorded == old(unrecorded) + (if oom then 1 else 0)
      ensures sz > 0 && pp != 0 && raw == 0 ==>
                && blocks == old(blocks)[pp := Block(t, Held, true)] && count == old(count)
                && log == old(log) - {pp}
                && reports == old(reports) + (if pp in old(log) then 0 else 1) && unrecorded == old(unrecorded)
      ensures pp == 0 && (sz == 0 || raw == 0) ==> Snapshot() == old(Snapshot())
      ensures !Busy(Snapshot(), t) && forall p | p in blocks && blocks[p].owner == t :: blocks[p].phase == Held
      ensures old(Quiescent(Snapshot())) ==> Quiescent(Snapshot())
    {
      ghost var s := Snapshot();
      ok, np := Perform(t, pp, sz, raw, oom);
      hide CoreSteps, CanRun, Run, Busy, At, Quiescent;
      if pp == 0 {
        NothingDone(s, t, sz, raw, oom);
        if sz > 0 && raw != 0 {
          AllocationDone(s, t, raw, sz, oom);
        }
      } else if sz == 0 {
        FreeDone(s, t, pp, raw, oom);
      } else if raw == 0 {
        FailedResizeDone(s, t, pp, sz, oom);
      } else {
        ResizeDone(s, t, pp, sz, raw, oom);
      }
      IdleIs(Snapshot(), t);
    }
  }

  // What the steps of each kind of call leave.

  lemma NothingDone(s: State, t: Tid, sz: nat, raw: Addr, oom: bool)
    ensures sz == 0 || raw == 0 ==> CanRun(s, CoreSteps(t, 0, sz, raw, oom)) && Run(s, CoreSteps(t, 0, sz, raw, oom)) == s
  {
  }

  lemma IdleIs(s: State, t: Tid)
    ensures !Busy(s, t) <==> forall p | p in s.blocks && s.blocks[p].owner == t :: s.blocks[p].phase == Held
  {
  }

  /** Whoever was not busy is not busy now, when only settled blocks of the thread were added. */
  lemma StaysIdle(s: State, r: State, t: Tid)
    requires !Busy(s, t)
    requires forall p | p in r.blocks :: r.blocks[p].phase == Held || (p in s.blocks && r.blocks[p] == s.blocks[p])
    ensures !Busy(r, t)
    ensures Quiescent(s) ==> Quiescent(r)
  {
  }

  lemma FreeDone(s: State, t: Tid, p: Addr, raw: Addr, oom: bool)
    requires p != 0 && At(s, t, p, Held) && !Busy(s, t)
    ensures CanRun(s, CoreSteps(t, p, 0, raw, oom))
    ensures var r := Run(s, CoreSteps(t, p, 0, raw, oom));
            && r.blocks == s.blocks - {p} && r.log == s.log - {p} && r.count == s.count - 1
            && r.reports == s.reports + (if p in s.log then 0 else 1) && r.unrecorded == s.unrecorded
            && !Busy(r, t) && (Quiescent(s) ==> Quiescent(r))
  {
    var one := Apply(s, FreeRemove(t, p));
    var two := Apply(one, FreeCount(t, p));
    var three := Apply(two, FreeRaw(t, p));
    hide CanRun, Run, Busy, Quiescent;
    RunTwo(s, FreeRemove(t, p), FreeCount(t, p));
    RunOne(two, FreeRaw(t, p));
    RunAppend(s, [FreeRemove(t, p), FreeCount(t, p)], [FreeRaw(t, p)]);
    StaysIdle(s, three, t);
  }

  lemma AllocationDone(s: State, t: Tid, q: Addr, sz: nat, oom: bool)
    requires q != 0 && q !in s.blocks && sz > 0 && !Busy(s, t)
    ensures CanRun(s, CoreSteps(t, 0, sz, q, oom))
    ensures var r := Run(s, CoreSteps(t, 0, sz, q, oom));
            && r.blocks == s.blocks[q := Block(t, Held, oom)] && r.count == s.count + 1
            && r.log == (if oom then s.log else s.log + {q})
            && r.reports == s.reports && r.unrecorded == s.unrecorded
            && !Busy(r, t) && (Quiescent(s) ==> Quiescent(r))
  {
    var one := Apply(s, AllocBegin(t, q));
    var two := Apply(one, AllocPut(t, q, oom));
    var three := Apply(two, AllocCount(t, q));
    hide CanRun, Run, Busy, Quiescent;
    RunOne(s, AllocBegin(t, q));
    RunTwo(one, AllocPut(t, q, oom), AllocCount(t, q));
    RunAppend(s, [AllocBegin(t, q)], [AllocPut(t, q, oom), AllocCount(t, q)]);
    StaysIdle(s, three, t);
  }

  lemma ResizedState(s: State, t: Tid, p: Addr, q: Addr, oom: bool)
    requires p != 0 && At(s, t, p, Held) && !Busy(s, t) && q != 0 && (q == p || q !in s.blocks)
    ensures Enabled(s, ReallocRemove(t, p))
    ensures var one := Apply(s, ReallocRemove(t, p));
            Enabled(one, ReallocRaw(t, p, q)) && Enabled(Apply(one, ReallocRaw(t, p, q)), ReallocPut(t, q, oom))
    ensures var r := Apply(Apply(Apply(s, ReallocRemove(t, p)), ReallocRaw(t, p, q)), ReallocPut(t, q, oom));
            && r.blocks == (s.blocks - {p})[q := Block(t, Held, oom)] && r.count == s.count
            && r.log == (if oom then s.log - {p} else s.log - {p} + {q})
            && r.reports == s.reports + (if p in s.log then 0 else 1)
            && r.unrecorded == s.unrecorded + (if oom then 1 else 0)
  {
    hide Busy;
  }

  lemma ResizeDone(s: State, t: Tid, p: Addr, sz: nat, q: Addr, oom: bool)
    requires p != 0 && At(s, t, p, Held) && !Busy(s, t) && sz > 0 && q != 0 && (q == p || q !in s.blocks)
    ensures CanRun(s, CoreSteps(t, p, sz, q, oom))
    ensures var r := Run(s, CoreSteps(t, p, sz, q, oom));
            && r.blocks == (s.blocks - {p})[q := Block(t, Held, oom)] && r.count == s.count
            && r.log == (if oom then s.log - {p} else s.log - {p} + {q})
            && r.reports == s.reports + (if p in s.log then 0 else 1)
            && r.unrecorded == s.unrecorded + (if oom then 1 else 0)
            && !Busy(r, t) && (Quiescent(s) ==> Quiescent(r))
  {
    ResizedState(s, t, p, q, oom);
    hide Enabled, Apply, CanRun, Run, Busy, Quiescent;
    var one := Apply(s, ReallocRemove(t, p));
    var two := Apply(one, ReallocRaw(t, p, q));
    var three := Apply(two, ReallocPut(t, q, oom));
    RunTwo(s, ReallocRemove(t, p), ReallocRaw(t, p, q));
    RunOne(two, ReallocPut(t, q, oom));
    RunAppend(s, [ReallocRemove(t, p), ReallocRaw(t, p, q)], [ReallocPut(t, q, oom)]);
    StaysIdle(s, three, t);
  }

  lemma FailedResizeDone(s: State, t: Tid, p: Addr, sz: nat, oom: bool)
    requires p != 0 && At(s, t, p, Held) && !Busy(s, t) && sz > 0
    ensures CanRun(s, CoreSteps(t, p, sz, 0, oom))
    ensures var r := Run(s, CoreSteps(t, p, sz, 0, oom));
            && r.blocks == s.blocks[p := Block(t, Held, true)] && r.count == s.count && r.log == s.log - {p}
            && r.reports == s.reports + (if p in s.log then 0 else 1) && r.unrecorded == s.unrecorded
            && !Busy(r, t) && (Quiescent(s) ==> Quiescent(r))
  {
    var one := Apply(s, ReallocRemove(t, p));
    var two := Apply(one, ReallocFail(t, p));
    hide CanRun, Run, Busy, Quiescent;
    RunTwo(s, ReallocRemove(t, p), ReallocFail(t, p));
    StaysIdle(s, two, t);
  }

  /** The steps of one call. */
  function CoreSteps(t: Tid, pp: Addr, sz: nat, raw: Addr, oom: bool): (steps: seq<Step>) {
    if sz == 0 then
      if pp == 0 then [] else [FreeRemove(t, pp), FreeCount(t, pp)] + [FreeRaw(t, pp)]
    else if pp == 0 then
      if raw == 0 then [] else [AllocBegin(t, raw)] + [AllocPut(t, raw, oom), AllocCount(t, raw)]
    else if raw == 0 then [ReallocRemove(t, pp), ReallocFail(t, pp)]
    else [ReallocRemove(t, pp), ReallocRaw(t, pp, raw)] + [ReallocPut(t, raw, oom)]
  }

  lemma RunOne(s: State, a: Step)
    requires Enabled(s, a)
    ensures CanRun(s, [a]) && Run(s, [a]) == Apply(s, a)
  {
    assert [a][1..] == [];
  }

  lemma RunTwo(s: State, a: Step, b: Step)
    requires Enabled(s, a) && Enabled(Apply(s, a), b)
    ensures CanRun(s, [a, b]) && Run(s, [a, b]) == Apply(Apply(s, a), b)
  {
    assert [a, b][1..] == [b];
    RunOne(Apply(s, a), b);
  }

  lemma {:induction false} RunAppend(s: State, a: seq<Step>, b: seq<Step>)
    requires CanRun(s, a) && CanRun(Run(s, a), b)
    ensures CanRun(s, a + b) && Run(s, a + b) == Run(Run(s, a), b)
    decreases |a|
  {
    if a == [] {
      assert a + b == b;
    } else {
      RunAppend(Apply(s, a[0]), a[1..], b);
      assert (a + b)[1..] == a[1..] + b;
    }
  }
}
