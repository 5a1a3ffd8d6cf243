/**
  Whole runs of the kernel: any sequence of system calls and clock ticks, in any order the processes choose.
 */
module KernelRun {
  import opened Sequences
  import opened ProcessQueue
  import opened ProcessTable
  import opened ProcessExit
  import opened Kernel

  datatype Call =
    | Start(prio: int, ssize: nat, granted: bool) | Exit(value: int) | Waitpid(pid: int) | Kill(pid: int)
    | Chprio(pid: int, prio: int) | WaitClock(until: int) | Tick
    | SemCreate(count: int) | SemWait(sid: int) | TryWait(sid: int) | Signal(sid: int) | SignalN(sid: int, count: int)
    | SemReset(sid: int, count: int) | SemDelete(sid: int)

  /** What a step means for the ends of processes: somebody ended, or a parent was given a child and its value. */
  datatype Outcome = Quiet | Ended(incarnation: nat) | Delivered(incarnation: nat, value: int)

  /** The value a process leaves behind when this call ends it: the argument of exit, 0 for kill. */
  function EndValue(call: Call): int {
    if call.Exit? then call.value else 0
  }

  predicate Ends(call: Call) { call.Exit? || call.Kill? }

  /** Whom such a call ends: the caller, or the victim named. */
  function EndedBy(call: Call, cur: int, inc: seq<nat>): int {
    var p := if call.Kill? then call.pid else cur;
    if 0 <= p < |inc| then inc[p] else -1
  }

  /** One step against the values left behind and the incarnations delivered, before and after. */
  ghost predicate Accounted(call: Call, out: Outcome, final0: map<nat, int>, reaped0: set<nat>, final: map<nat, int>, reaped: set<nat>) {
    match out
    case Quiet => final == final0 && reaped == reaped0
    case Ended(i) =>
      && Ends(call) && reaped == reaped0 && i !in final0
      && (final == final0 || final == final0[i := EndValue(call)])
    case Delivered(i, v) =>
      && final == final0 && i in final && v == final[i] && i !in reaped0 && reaped == reaped0 + {i}
  }

  // ---------------------------------------------------------------- the log of a run

  /** The value of incarnation i is that of the call that ended it, at step at[i]. */
  ghost predicate EndAt(calls: seq<Call>, outs: seq<Outcome>, at: map<nat, nat>, final: map<nat, int>, i: nat) {
    && i in final && i in at && at[i] < |outs| == |calls|
    && outs[at[i]] == Ended(i) && Ends(calls[at[i]]) && final[i] == EndValue(calls[at[i]])
  }

  ghost predicate DeliveryAt(outs: seq<Outcome>, at: map<nat, nat>, final: map<nat, int>, reaped: set<nat>, k: int) {
    && 0 <= k < |outs|
    && (outs[k].Delivered? ==>
          var i := outs[k].incarnation;
          i in reaped && i in final && outs[k].value == final[i] && i in at && at[i] < k)
  }

  ghost predicate Distinct(outs: seq<Outcome>, j: int, k: int) {
    0 <= j < k < |outs| && outs[j].Delivered? && outs[k].Delivered? ==> outs[j].incarnation != outs[k].incarnation
  }

  ghost predicate Faithful(calls: seq<Call>, outs: seq<Outcome>, at: map<nat, nat>, final: map<nat, int>, reaped: set<nat>) {
    && |calls| == |outs|
    && (forall i {:trigger EndAt(calls, outs, at, final, i)} :: i in final ==> EndAt(calls, outs, at, final, i))
    && (forall k {:trigger DeliveryAt(outs, at, final, reaped, k)} :: 0 <= k < |outs| ==> DeliveryAt(outs, at, final, reaped, k))
    && (forall j, k {:trigger Distinct(outs, j, k)} :: Distinct(outs, j, k))
  }

  /** The step at which an incarnation ended, once it has left a value. */
  ghost function Record(at: map<nat, nat>, out: Outcome, final0: map<nat, int>, final: map<nat, int>, k: nat): map<nat, nat> {
    if out.Ended? && final != final0 then at[out.incarnation := k] else at
  }

  lemma LogGrows(calls: seq<Call>, outs: seq<Outcome>, at: map<nat, nat>, final0: map<nat, int>, reaped0: set<nat>,
                 call: Call, out: Outcome, final: map<nat, int>, reaped: set<nat>)
    requires Faithful(calls, outs, at, final0, reaped0) && Accounted(call, out, final0, reaped0, final, reaped)
    ensures Faithful(calls + [call], outs + [out], Record(at, out, final0, final, |calls|), final, reaped)
  {
    var calls', outs', at' := calls + [call], outs + [out], Record(at, out, final0, final, |calls|);
    forall i {:trigger EndAt(calls', outs', at', final, i)} | i in final ensures EndAt(calls', outs', at', final, i) {
      assert i in final0 ==> EndAt(calls, outs, at, final0, i);
    }
    forall k {:trigger DeliveryAt(outs', at', final, reaped, k)} | 0 <= k < |outs'| ensures DeliveryAt(outs', at', final, reaped, k) {
      if k < |outs| {
        assert DeliveryAt(outs, at, final0, reaped0, k);
      } else if out.Delivered? {
        assert EndAt(calls, outs, at, final0, out.incarnation);
      }
    }
    forall j, k {:trigger Distinct(outs', j, k)} ensures Distinct(outs', j, k) {
      assert Distinct(outs, j, k);
      if 0 <= j < |outs| { assert DeliveryAt(outs, at, final0, reaped0, j); }
    }
  }

  /** The delivery of step k: an earlier exit or kill of this very incarnation, whose value it is. */
  ghost predicate TrueTo(calls: seq<Call>, outs: seq<Outcome>, j: int, k: int) {
    && 0 <= j < k < |outs| == |calls| && outs[k].Delivered?
    && outs[j] == Ended(outs[k].incarnation) && Ends(calls[j]) && outs[k].value == EndValue(calls[j])
  }

  lemma DeliveriesAreTrue(calls: seq<Call>, outs: seq<Outcome>, at: map<nat, nat>, final: map<nat, int>, reaped: set<nat>, k: int)
    requires Faithful(calls, outs, at, final, reaped) && 0 <= k < |outs| && outs[k].Delivered?
    ensures exists j :: TrueTo(calls, outs, j, k)
  {
    var i := outs[k].incarnation;
    assert DeliveryAt(outs, at, final, reaped, k);
    assert EndAt(calls, outs, at, final, i);
    assert TrueTo(calls, outs, at[i], k);
  }

  // ---------------------------------------------------------------- Init inside waitpid

  /** Once Init is inside waitpid it stays there, at the same place. */
  ghost predicate InitStays(tab0: Table, tab: Table) {
    |tab| == |tab0| && |tab| >= 2 && (InWaitpid(tab0[1]) ==> InWaitpid(tab[1]) && tab[1].resume == tab0[1].resume)
  }

  // ---------------------------------------------------------------- steps

  /** Calls that are part of clean runs: Init never exits, and kills are clean. */
  predicate Admissible(tab: Table, cur: int, call: Call) {
    match call
    case Exit(_) => cur != 1
    case Kill(pid) => 1 <= pid < |tab| && Live(tab[pid]) ==> CleanKill(tab, pid)
    case SemCreate(c) => SHRT_MIN <= c <= SHRT_MAX
    case SignalN(_, c) => SHRT_MIN <= c <= SHRT_MAX
    case SemReset(_, c) => SHRT_MIN <= c <= SHRT_MAX
    case _ => true
  }

  /** A system call of the running process, or a clock interrupt. */
  method Perform(m: Machine, call: Call) returns (ghost out: Outcome)
    requires m.Running() && Admissible(m.tab, m.cur, call)
    modifies m
    ensures m.Inv() && m.Scheduled()
    ensures Accounted(call, out, old(m.final), old(m.reaped), m.final, m.reaped)
    ensures out.Ended? ==> out.incarnation == EndedBy(call, old(m.cur), old(m.inc))
    ensures InitStays(old(m.tab), m.tab)
  {
    out := Quiet;
    if Ends(call) {
      out := PerformEnd(m, call);
    } else if call.Waitpid? {
      out := PerformWaitpid(m, call.pid);
    } else if call.Start? || call.Chprio? || call.WaitClock? || call.Tick? {
      PerformTurn(m, call);
    } else if call.SemCreate? || call.SemWait? || call.TryWait? {
      PerformTake(m, call);
    } else {
      PerformWake(m, call);
    }
  }

  /** The calls about creation, priorities and time. */
  method PerformTurn(m: Machine, call: Call)
    requires m.Running() && (call.Start? || call.Chprio? || call.WaitClock? || call.Tick?)
    modifies m
    ensures m.Inv() && m.Scheduled() && m.final == old(m.final) && m.reaped == old(m.reaped)
    ensures InitStays(old(m.tab), m.tab)
  {
    InitNotRunning(m);
    if call.Start? {
      var _ := m.Start(call.prio, call.ssize, call.granted);
    } else if call.Chprio? {
      var _ := m.Chprio(call.pid, call.prio);
    } else if call.WaitClock? {
      m.WaitClock(call.until);
    } else {
      m.Tick();
    }
    assert InWaitpid(old(m.tab)[1]) ==> m.tab[1].resume == old(m.tab)[1].resume;
  }

  /** exit and kill. */
  method PerformEnd(m: Machine, call: Call) returns (ghost out: Outcome)
    requires m.Running() && Admissible(m.tab, m.cur, call) && Ends(call)
    modifies m
    ensures m.Inv() && m.Scheduled()
    ensures Accounted(call, out, old(m.final), old(m.reaped), m.final, m.reaped)
    ensures out.Ended? ==> out.incarnation == EndedBy(call, old(m.cur), old(m.inc))
    ensures call.Exit? ==> out.Ended?
    ensures InitStays(old(m.tab), m.tab)
  {
    if call.Exit? {
      m.Exit(call.value);
      out := Ended(m.inc[old(m.cur)]);
    } else {
      var r := m.Kill(call.pid);
      out := if r == 0 then Ended(m.inc[call.pid]) else Quiet;
    }
  }

  method PerformWaitpid(m: Machine, pid: int) returns (ghost out: Outcome)
    requires m.Running()
    modifies m
    ensures m.Inv() && m.Scheduled()
    ensures !out.Ended? && Accounted(Waitpid(pid), out, old(m.final), old(m.reaped), m.final, m.reaped)
    ensures InitStays(old(m.tab), m.tab)
  {
    var blocked, r, val := m.Waitpid(pid);
    out := if !blocked && r > 0 then Delivered(m.inc[r], val) else Quiet;
  }

  /** The semaphore calls of a process that wants a pass. */
  method PerformTake(m: Machine, call: Call)
    requires m.Running() && Admissible(m.tab, m.cur, call) && (call.SemCreate? || call.SemWait? || call.TryWait?)
    modifies m
    ensures m.Inv() && m.Scheduled() && m.final == old(m.final) && m.reaped == old(m.reaped)
    ensures InitStays(old(m.tab), m.tab)
  {
    InitNotRunning(m);
    if call.SemCreate? {
      var _ := m.SemCreate(call.count);
    } else if call.TryWait? {
      var _ := m.TryWait(call.sid);
    } else {
      var _, _ := m.SemWait(call.sid);
    }
    assert InWaitpid(old(m.tab)[1]) ==> m.tab[1].resume == old(m.tab)[1].resume;
  }

  /** The semaphore calls that wake others. */
  method PerformWake(m: Machine, call: Call)
    requires m.Running() && Admissible(m.tab, m.cur, call)
    requires call.Signal? || call.SignalN? || call.SemReset? || call.SemDelete?
    modifies m
    ensures m.Inv() && m.Scheduled() && m.final == old(m.final) && m.reaped == old(m.reaped)
    ensures InitStays(old(m.tab), m.tab)
  {
    InitNotRunning(m);
    ghost var tab0, sid := m.tab, call.sid;
    InitNotAsleep(m, sid);
    if call.Signal? {
      var _ := m.Signal(call.sid);
    } else if call.SignalN? {
      var _ := m.SignalN(call.sid, call.count);
    } else if call.SemReset? {
      var _ := m.SemReset(call.sid, call.count);
    } else {
      var _ := m.SemDelete(call.sid);
    }
    assert InWaitpid(tab0[1]) ==> m.tab[1].resume == tab0[1].resume;
  }

  /** Init inside waitpid is not the running process, */
  lemma InitNotRunning(m: Machine)
    requires m.Running()
    ensures |m.tab| >= 2 && (InWaitpid(m.tab[1]) ==> m.cur != 1 && m.tab[1].state == WaitChild && m.tab[1].valid)
  {
    assert ForestAt(m.tab, m.inc, 1);
    if InWaitpid(m.tab[1]) { InitStaysBlocked(m.tab, m.inc); }
  }

  /** nor does it sleep on a semaphore. */
  lemma InitNotAsleep(m: Machine, sid: int)
    requires m.Inv() && (InWaitpid(m.tab[1]) ==> m.tab[1].state == WaitChild)
    ensures m.ValidSid(sid) && InWaitpid(m.tab[1]) ==> 1 !in m.sems[sid].waiters
  {
    assert m.ValidSid(sid) ==> SleepersAt(m.tab, m.sems, sid);
  }

  /** One step of the machine: an idle kernel only ticks, a woken process first finishes the call it slept in. */
  method Step(m: Machine, call: Call) returns (ghost out: Outcome)
    requires m.Inv() && (m.cur != 0 ==> m.Scheduled())
    modifies m
    ensures m.Inv() && m.Scheduled()
    ensures Accounted(call, out, old(m.final), old(m.reaped), m.final, m.reaped)
    ensures out.Ended? ==> out.incarnation == EndedBy(call, old(m.cur), old(m.inc))
    ensures InitStays(old(m.tab), m.tab)
  {
    out := Quiet;
    if m.cur == 0 {
      m.Tick();
      assert Switched(Roused(old(m.tab)[1], m.clock), m.tab[1]);
    } else if m.tab[m.cur].resume.InWaitSem? {
      var _ := m.ResumeWait();
    } else if m.tab[m.cur].resume != Idle {
      out := Resume(m);
    } else if Admissible(m.tab, m.cur, call) {
      out := Perform(m, call);
    }
  }

  /** A process woken in waitpid finishes it. */
  method Resume(m: Machine) returns (ghost out: Outcome)
    requires m.Inv() && m.Scheduled() && m.cur != 0 && InWaitpid(m.tab[m.cur])
    modifies m
    ensures m.Inv() && m.Scheduled()
    ensures out.Delivered? && forall call :: Accounted(call, out, old(m.final), old(m.reaped), m.final, m.reaped)
    ensures InitStays(old(m.tab), m.tab)
  {
    if m.cur == 1 { InitStaysBlocked(m.tab, m.inc); }
    var r, val := m.ResumeWaitpid();
    out := Delivered(m.inc[r], val);
  }

  /**
    Every run from boot, whatever the processes call and whenever the clock ticks (calls outside the clean ones
    are skipped): the invariant and the scheduling discipline hold after every step; no incarnation is delivered
    twice; each delivered value is the argument of the exit, or the 0 of the kill, that ended this incarnation
    earlier in the run; and Init, once inside waitpid, is there for the rest of the run.
   */
  method Run(maxProcs: nat, maxSems: nat, calls: seq<Call>) returns (m: Machine, ghost outs: seq<Outcome>, ghost trace: seq<Table>)
    requires 1 <= maxProcs < 32768
    ensures fresh(m) && m.Inv() && (calls != [] ==> m.Scheduled())
    ensures |outs| == |calls| && |trace| == |calls| + 1 && trace[|calls|] == m.tab
    ensures forall k {:trigger outs[k]} :: 0 <= k < |outs| && outs[k].Delivered? ==> exists j :: TrueTo(calls, outs, j, k)
    ensures forall j, k {:trigger Distinct(outs, j, k)} :: Distinct(outs, j, k)
    ensures forall j, k {:trigger InitStays(trace[j], trace[k])} :: 0 <= j <= k < |trace| ==> InitStays(trace[j], trace[k])
  {
    m := new Machine(maxProcs, maxSems);
    outs, trace := [], [m.tab];
    ghost var at: map<nat, nat> := map[];
    for k := 0 to |calls|
      invariant m.Inv() && (m.cur != 0 || k > 0 ==> m.Scheduled())
      invariant Faithful(calls[..k], outs, at, m.final, m.reaped)
      invariant |trace| == k + 1 && trace[k] == m.tab
      invariant forall i, j {:trigger InitStays(trace[i], trace[j])} :: 0 <= i <= j < |trace| ==> InitStays(trace[i], trace[j])
    {
      ghost var final0, reaped0, tab0 := m.final, m.reaped, m.tab;
      ghost var out := Step(m, calls[k]);
      LogGrows(calls[..k], outs, at, final0, reaped0, calls[k], out, m.final, m.reaped);
      at := Record(at, out, final0, m.final, k);
      TraceGrows(trace, m.tab);
      outs, trace := outs + [out], trace + [m.tab];
      assert calls[..k + 1] == calls[..k] + [calls[k]];
    }
    assert calls[..|calls|] == calls;
    forall k {:trigger outs[k]} | 0 <= k < |outs| && outs[k].Delivered? ensures exists j :: TrueTo(calls, outs, j, k) {
      DeliveriesAreTrue(calls, outs, at, m.final, m.reaped, k);
    }
  }

  lemma TraceGrows(trace: seq<Table>, tab: Table)
    requires trace != [] && InitStays(trace[|trace| - 1], tab)
    requires forall i, j {:trigger InitStays(trace[i], trace[j])} :: 0 <= i <= j < |trace| ==> InitStays(trace[i], trace[j])
    ensures var t := trace + [tab];
      forall i, j {:trigger InitStays(t[i], t[j])} :: 0 <= i <= j < |t| ==> InitStays(t[i], t[j])
  {
    var t := trace + [tab];
    forall i, j {:trigger InitStays(t[i], t[j])} | 0 <= i <= j < |t| ensures InitStays(t[i], t[j]) {
      if j < |trace| {
        assert InitStays(trace[i], trace[j]);
      } else if i < |trace| {
        assert InitStays(trace[i], trace[|trace| - 1]);
      }
    }
  }
}
