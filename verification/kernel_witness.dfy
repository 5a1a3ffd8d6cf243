/**
  Runs from boot that reach the states in which a promise of the kernel fails: a kill of a sleeping process, a kill
  of a child whose father waits for any child, a signalled wait that reports a deletion, and Init blocked for ever.
 */
module KernelWitness {
  import opened Sequences
  import opened ProcessQueue
  import opened ProcessTable
  import opened ProcessExit
  import opened Kernel

  /** Boot and the first tick: Init, and nobody else, runs. */
  method Boot(procs: nat, nsems: nat) returns (m: Machine)
    requires 1 <= procs < 32768
    ensures fresh(m) && m.Running() && m.cur == 1 && m.nbproc == procs && m.nbsem == nsems
    ensures m.tab[1].prio == 3 && m.tab[1].children == []
    ensures FreeFrom(m.tab, 2)
    ensures forall i {:trigger m.sems[i]} :: 0 <= i < |m.sems| ==> !m.sems[i].valid
  {
    m := new Machine(procs, nsems);
    ghost var tab0 := m.tab;
    m.Tick();
    assert forall p {:trigger m.tab[p]} :: 1 <= p < |m.tab| ==> Switched(Roused(tab0[p], m.clock), m.tab[p]);
    assert QueuedAt(m.tab, m.ready, 1) && ActiveAt(m.tab, m.cur, 1);
  }

  /** A process on the CPU side that is more urgent than any other running one is the one that runs. */
  lemma Runs(m: Machine, p: int)
    requires m.Shape() && m.Scheduled() && 1 <= p < |m.tab| && m.tab[p].valid && OnCpuSide(m.tab[p])
    requires forall q {:trigger m.tab[q]} :: 1 <= q < |m.tab| && q != p && m.tab[q].valid && OnCpuSide(m.tab[q]) ==> m.tab[q].prio < m.tab[p].prio
    ensures m.cur == p && m.tab[p].state == Active
  {
    assert ActiveAt(m.tab, m.cur, p) && QueuedAt(m.tab, m.ready, p);
    assert m.tab[p].state == Activable ==> p in m.ready;
  }

  /** Slots from k on are free. */
  ghost predicate FreeFrom(tab: Table, k: int) {
    forall i {:trigger tab[i]} :: k <= i < |tab| && 0 <= i ==> !tab[i].valid
  }

  lemma SwitchKeepsFree(tab: Table, tab': Table, k: int)
    requires AllSwitched(tab, tab') && FreeFrom(tab, k)
    ensures FreeFrom(tab', k)
  {
    forall i {:trigger tab'[i]} | k <= i < |tab'| && 0 <= i ensures !tab'[i].valid { assert Switched(tab[i], tab'[i]); }
  }

  /** Init starts a process that is more urgent than itself, which runs at once. */
  method StartUrgent(m: Machine, prio: int)
    requires m.Running() && m.cur == 1 && m.nbproc >= 2 && FreeFrom(m.tab, 2) && prio > m.tab[1].prio
    modifies m`tab, m`cur, m`ready, m`inc, m`next
    ensures m.Running() && m.cur == 2 && m.tab[2] == Newborn(prio, 1).(state := Active) && FreeFrom(m.tab, 3)
    ensures m.tab[1].valid && m.tab[1].state == Activable && m.tab[1].resume == Idle && m.tab[1].prio == old(m.tab[1].prio)
  {
    ghost var tab0 := m.tab;
    var pid := m.Start(prio, 0, true);
    assert !tab0[2].valid;
    assert pid == 2;
    ghost var tab1 := Begotten(tab0, 1, 2, prio);
    assert Switched(tab1[1], m.tab[1]) && Switched(tab1[2], m.tab[2]);
    SwitchKeepsFree(tab1, m.tab, 3);
    Runs(m, 2);
    assert ActiveAt(m.tab, m.cur, 1);
  }

  /** The running process 2 goes to sleep on a semaphore without passes, and Init runs. */
  method Sleep(m: Machine, sid: int)
    requires m.Running() && m.cur == 2 && FreeFrom(m.tab, 3) && m.ValidSid(sid) && m.sems[sid].c == 0
    requires m.tab[1].valid && m.tab[1].state == Activable && m.tab[1].resume == Idle
    modifies m`tab, m`cur, m`ready, m`sems
    ensures m.Running() && m.cur == 1 && FreeFrom(m.tab, 3) && m.tab[1].prio == old(m.tab[1].prio)
    ensures m.tab[2] == old(m.tab)[2].(state := WaitSem, sidWait := sid, resume := InWaitSem(sid, Pending))
    ensures m.sems == old(m.sems)[sid := Sem(true, -1, [2])]
  {
    ghost var tab0 := m.tab;
    assert CountAt(m.sems, sid);
    var asleep, _ := m.SemWait(sid);
    ghost var tab1 := tab0[2 := m.tab[2]];
    assert Switched(tab1[1], m.tab[1]);
    SwitchKeepsFree(tab1, m.tab, 3);
    Runs(m, 1);
    assert [2] + [] == [2];
  }

  /** A new semaphore without passes. */
  method Create(m: Machine, s: int) returns (sid: int)
    requires m.Running() && 0 <= s < |m.sems| && !m.sems[s].valid
    modifies m`sems, m`freeSids
    ensures m.Running() && 0 <= sid < |m.sems| && !old(m.sems)[sid].valid && m.sems == old(m.sems)[sid := Sem(true, 0, [])]
  {
    assert s in m.freeSids;
    sid := m.SemCreate(0);
  }

  /** A sleeping victim: Init kills a process that waits on a semaphore, and the count is wrong from then on. */
  method KillSleeper() returns (m: Machine)
    ensures fresh(m) && m.Core() && !m.Inv()
  {
    m := Boot(2, 1);
    var sid := Create(m, 0);
    StartUrgent(m, 5);
    Sleep(m, sid);
    var _ := m.Kill(2);
  }

  /** Process 2 starts a less urgent child, 3, and blocks in waitpid(-1): the child, more urgent than Init, runs. */
  method WaitForAny(m: Machine)
    requires m.Running() && m.cur == 2 && m.nbproc >= 3 && FreeFrom(m.tab, 3) && m.tab[2].prio == 5 && m.tab[2].children == []
    requires m.tab[1].valid && m.tab[1].state == Activable && m.tab[1].prio == 3
    modifies m`tab, m`cur, m`ready, m`inc, m`next, m`reaped
    ensures m.Running() && m.cur == 3 && m.tab[3].parent == 2
    ensures m.tab[2].state == WaitChild && m.tab[2].pidWait == -1
  {
    ghost var tab0 := m.tab;
    StartChild(m);
    ghost var tab1 := m.tab;
    NewChildOnly(m);
    var _, _, _ := m.Waitpid(-1);
    ghost var tab2 := tab1[2 := m.tab[2]];
    assert Switched(tab2[1], m.tab[1]) && Switched(tab2[3], m.tab[3]);
    SwitchKeepsFree(tab2, m.tab, 4);
    Runs(m, 3);
  }

  method StartChild(m: Machine)
    requires m.Running() && m.cur == 2 && m.nbproc >= 3 && FreeFrom(m.tab, 3) && m.tab[2].prio == 5 && m.tab[2].children == []
    requires m.tab[1].valid && m.tab[1].state == Activable && m.tab[1].prio == 3
    modifies m`tab, m`cur, m`ready, m`inc, m`next
    ensures m.Running() && m.cur == 2 && FreeFrom(m.tab, 4) && m.tab[2].children == [3]
    ensures m.tab[3] == Newborn(4, 2) && m.tab[1].valid && m.tab[1].state == Activable && m.tab[1].prio == 3
  {
    ghost var tab0 := m.tab;
    var pid := m.Start(4, 0, true);
    assert !tab0[3].valid;
    assert pid == 3;
    ghost var tab1 := Begotten(tab0, 2, 3, 4);
    assert Switched(tab1[1], m.tab[1]) && Switched(tab1[2], m.tab[2]) && Switched(tab1[3], m.tab[3]);
    SwitchKeepsFree(tab1, m.tab, 4);
    Runs(m, 2);
    assert ActiveAt(m.tab, m.cur, 1) && ActiveAt(m.tab, m.cur, 3);
  }

  lemma NewChildOnly(m: Machine)
    requires m.Inv() && m.nbproc >= 3 && Live(m.tab[2]) && m.tab[2].children == [3] && m.tab[3].state != Zombie
    ensures forall c {:trigger ZombieChild(m.tab, c, 2)} :: !ZombieChild(m.tab, c, 2)
  {
    assert ForestAt(m.tab, m.inc, 2);
    forall c {:trigger ZombieChild(m.tab, c, 2)} ensures !ZombieChild(m.tab, c, 2) {
      assert IsChild(m.tab, c, 2) ==> c in m.tab[2].children;
    }
  }

  /** An untold father: a process is killed while its father waits for any child, and the father is lost. */
  method KillAwaited() returns (m: Machine)
    ensures fresh(m) && m.Core() && !m.Inv()
  {
    m := Boot(3, 0);
    StartUrgent(m, 5);
    WaitForAny(m);
    var _ := m.Kill(3);
  }

  /** Init deletes the semaphore that process 2 sleeps on: 2 runs, told of the deletion. */
  method DeleteUnder(m: Machine, sid: int) returns (r: int)
    requires m.Running() && m.cur == 1 && FreeFrom(m.tab, 3) && m.nbproc >= 2 && m.ValidSid(sid) && m.sems[sid].waiters == [2]
    requires m.tab[2].valid && m.tab[2].prio > m.tab[1].prio && Sleeper(m.tab, 2, sid)
    modifies m`tab, m`cur, m`ready, m`sems, m`freeSids
    ensures m.Running() && m.cur == 2 && FreeFrom(m.tab, 3) && r == -3
    ensures m.tab[2].history == old(m.tab)[2].history + [WasDeleted]
    ensures m.tab[2].prio == old(m.tab)[2].prio && m.tab[1].prio == old(m.tab)[1].prio
    ensures m.tab[1].valid && m.tab[1].state == Activable && m.tab[1].resume == Idle
    ensures m.sems == old(m.sems)[sid := Sem(false, old(m.sems)[sid].c, [])]
  {
    ghost var tab0 := m.tab;
    var _ := m.SemDelete(sid);
    ghost var w := Woken(tab0[2], sid, WasDeleted);
    assert 2 in [2] && 1 !in [2];
    assert Switched(tab0[1], m.tab[1]) && Switched(w, m.tab[2]);
    forall i {:trigger m.tab[i]} | 3 <= i < |m.tab| && 0 <= i ensures !m.tab[i].valid {
      assert i !in [2] && Switched(tab0[i], m.tab[i]);
    }
    Runs(m, 2);
    assert ActiveAt(m.tab, m.cur, 1);
    assert w.history[|w.history| - 1] == WasDeleted;
    r := m.ResumeWait();
  }

  /** Init signals the semaphore that process 2 sleeps on: 2 runs and returns from its wait. */
  method SignalUnder(m: Machine, sid: int) returns (ghost ended: Ended, r: int)
    requires m.Running() && m.cur == 1 && FreeFrom(m.tab, 3) && m.nbproc >= 2 && m.ValidSid(sid)
    requires m.sems[sid] == Sem(true, -1, [2])
    requires m.tab[2].valid && m.tab[2].prio > m.tab[1].prio && Sleeper(m.tab, 2, sid)
    modifies m`tab, m`cur, m`ready, m`sems
    ensures m.Running() && m.cur == 2 && ended == Signalled
    ensures r == if WasDeleted in old(m.tab)[2].history then -3 else 0
  {
    SignalTwo(m, sid);
    ended := m.tab[2].resume.ended;
    r := m.ResumeWait();
  }

  /** The signal itself: 2 is on the processor, inside its wait. */
  method SignalTwo(m: Machine, sid: int)
    requires m.Running() && m.cur == 1 && FreeFrom(m.tab, 3) && m.nbproc >= 2 && m.ValidSid(sid)
    requires m.sems[sid] == Sem(true, -1, [2])
    requires m.tab[2].valid && m.tab[2].prio > m.tab[1].prio && Sleeper(m.tab, 2, sid)
    modifies m`tab, m`cur, m`ready, m`sems
    ensures m.Inv() && m.Scheduled() && m.cur == 2
    ensures m.tab[2].state == Active && m.tab[2].resume == InWaitSem(sid, Signalled)
    ensures m.tab[2].history == old(m.tab)[2].history + [Signalled]
  {
    ghost var tab0 := m.tab;
    SignalWakes(m, sid);
    ghost var tab1 := tab0[2 := Woken(tab0[2], sid, Signalled)];
    assert Switched(tab1[1], m.tab[1]) && Switched(tab1[2], m.tab[2]);
    SwitchKeepsFree(tab1, m.tab, 3);
    Runs(m, 2);
  }

  method SignalWakes(m: Machine, sid: int)
    requires m.Running() && m.nbproc >= 2 && m.ValidSid(sid) && m.sems[sid] == Sem(true, -1, [2])
    modifies m`tab, m`cur, m`ready, m`sems
    ensures m.Inv() && m.Scheduled() && |m.tab| == |old(m.tab)|
    ensures AllSwitched(old(m.tab)[2 := Woken(old(m.tab)[2], sid, Signalled)], m.tab)
  {
    var r := m.Signal(sid);
    assert r == 0;
  }

  /** Process 2 has slept on one semaphore, which was deleted, and runs again; another semaphore b has no passes. */
  method DeletedOnce() returns (m: Machine, b: int)
    ensures fresh(m) && m.Running() && m.cur == 2 && FreeFrom(m.tab, 3) && m.nbproc == 2
    ensures m.tab[2].history == [WasDeleted] && m.tab[2].prio == 5
    ensures m.tab[1].valid && m.tab[1].state == Activable && m.tab[1].resume == Idle && m.tab[1].prio == 3
    ensures m.ValidSid(b) && m.sems[b] == Sem(true, 0, [])
  {
    var a;
    m, a, b := TwoSemaphores();
    Sleep(m, a);
    var _ := DeleteUnder(m, a);
  }

  /** Init has made two semaphores and started process 2, which runs. */
  method TwoSemaphores() returns (m: Machine, a: int, b: int)
    ensures fresh(m) && m.Running() && m.cur == 2 && FreeFrom(m.tab, 3) && m.nbproc == 2
    ensures m.tab[2] == Newborn(5, 1).(state := Active)
    ensures m.tab[1].valid && m.tab[1].state == Activable && m.tab[1].resume == Idle && m.tab[1].prio == 3
    ensures a != b && m.ValidSid(a) && m.ValidSid(b) && m.sems[a] == m.sems[b] == Sem(true, 0, [])
  {
    m := Boot(2, 2);
    a := Create(m, 0);
    b := Create(m, if a == 0 then 1 else 0);
    StartUrgent(m, 5);
  }

  /** A stale report: a wait that was signalled returns -3, because an earlier wait was ended by a deletion. */
  method SignalledButDeleted() returns (m: Machine, ghost ended: Ended, r: int)
    ensures fresh(m) && m.Inv() && ended == Signalled && r == -3
  {
    var b;
    m, b := DeletedOnce();
    Sleep(m, b);
    ended, r := SignalUnder(m, b);
  }

  /** Init waits for its only child and is blocked; no later step changes that. */
  method InitBlocked() returns (m: Machine)
    ensures fresh(m) && m.Inv() && InWaitpid(m.tab[1]) && m.tab[1].state == WaitChild
  {
    m := Boot(2, 0);
    ghost var tab0 := m.tab;
    var pid := m.Start(1, 0, true);
    assert !tab0[2].valid;
    ghost var tab1 := Begotten(tab0, 1, 2, 1);
    assert Switched(tab1[1], m.tab[1]) && Switched(tab1[2], m.tab[2]);
    SwitchKeepsFree(tab1, m.tab, 3);
    Runs(m, 1);
    var _, _, _ := m.Waitpid(-1);
  }
}
