/**
  The kernel as a state machine: every method is one atomic step (system calls and the clock interrupt run with
  interrupts off). A call that blocks is two steps, one up to scheduler() and one that resumes after it.
 */
module Kernel {
  import opened Sequences
  import opened ProcessQueue
  import opened ProcessTable
  import opened ProcessExit

  const MAXPRIO: int := 256
  const MAXSTACK: int := 0xffffffe7

  ghost predicate ActiveAt(tab: Table, cur: int, p: int)
    requires 1 <= p < |tab|
  {
    tab[p].valid && tab[p].state == Active ==> p == cur
  }

  /** At most one process is active, and it is pid_cour. */
  ghost predicate OnlyActive(tab: Table, cur: int) {
    forall p {:trigger ActiveAt(tab, cur, p)} :: 1 <= p < |tab| ==> ActiveAt(tab, cur, p)
  }

  /** A descriptor as context_create_user fills it in. */
  function Newborn(prio: int, parent: int): Proc {
    Proc(true, Activable, prio, parent, 0, [], false, 0, 0, 0, false, false, Idle, [])
  }

  /** What the clock does to a process: a sleeper whose time has come becomes runnable. */
  function Roused(p: Proc, clock: int): Proc {
    if p.valid && p.state == Asleep && p.timer <= clock then p.(state := Activable) else p
  }

  predicate IsZombie(tab: Table, c: int) { 0 <= c < |tab| && tab[c].valid && tab[c].state == Zombie }

  /** c is the first zombie of a child list. */
  ghost predicate FirstZombie(tab: Table, s: seq<int>, c: int) {
    exists k {:trigger s[k]} :: 0 <= k < |s| && s[k] == c && IsZombie(tab, c) && forall d {:trigger d in s[..k]} :: d in s[..k] ==> !IsZombie(tab, d)
  }

  ghost predicate SleepsBelow(tab: Table, q: int, prio: int) {
    1 <= q < |tab| && tab[q].valid && tab[q].state == Asleep ==> tab[q].prio <= prio
  }

  /** Nobody whom the clock may wake is more urgent than this. */
  ghost predicate NoSleeperAbove(tab: Table, prio: int) {
    forall q {:trigger SleepsBelow(tab, q, prio)} :: SleepsBelow(tab, q, prio)
  }

  /** The table once p has a new child in slot i. */
  function Begotten(tab: Table, p: int, i: int, prio: int): Table
    requires 0 <= p < |tab| && 0 <= i < |tab|
  {
    tab[p := tab[p].(children := [i] + tab[p].children)][i := Newborn(prio, p)]
  }

  /** How many of the waiters are left after n signals: the earliest arrivals are at the end of the list. */
  function StillAsleep(w: seq<int>, n: nat): (k: nat)
    ensures k <= |w|
  {
    if n < |w| then |w| - n else 0
  }

  /** The descriptor of p once the waiters from position j on have been signalled. */
  function SignalledFrom(tab: Table, w: seq<int>, j: nat, s: int, p: int): Proc
    requires 0 <= p < |tab| && j <= |w|
  {
    if p in w[j..] then Woken(tab[p], s, Signalled) else tab[p]
  }

  /** One more waiter from the end of the list is signalled. */
  lemma NextSignalled(tab0: Table, tab1: Table, tab: Table, w: seq<int>, j: nat, s: int)
    requires 0 < j <= |w| && |tab0| == |tab1| == |tab| && Sleeper(tab1, w[j - 1], s)
    requires forall p {:trigger tab1[p]} :: 0 <= p < |tab1| ==> tab1[p] == SignalledFrom(tab0, w, j, s, p)
    requires tab == tab1[w[j - 1] := Woken(tab1[w[j - 1]], s, Signalled)]
    ensures forall p {:trigger tab[p]} :: 0 <= p < |tab| ==> tab[p] == SignalledFrom(tab0, w, j - 1, s, p)
  {
    var x := w[j - 1];
    assert w[j - 1..] == [x] + w[j..];
    assert tab1[x].state == WaitSem;
    forall p {:trigger tab[p]} | 0 <= p < |tab| ensures tab[p] == SignalledFrom(tab0, w, j - 1, s, p) {
      assert tab1[p] == SignalledFrom(tab0, w, j, s, p);
      assert p in w[j - 1..] <==> p == x || p in w[j..];
    }
  }

  /** The table once waitpid has delivered child c to p. */
  function AfterReap(tab: Table, p: int, c: int): Table
    requires 0 <= p < |tab| && 0 <= c < |tab|
  {
    tab[c := tab[c].(state := Dead)][p := tab[p].(children := Without(tab[p].children, c), resume := Idle)]
  }

  class Machine {
    const nbproc: nat
    const nbsem: nat

    var tab: Table
    var cur: int
    var ready: seq<int>
    var sems: seq<Sem>
    var freeSids: seq<int>
    var clock: nat

    ghost var inc: seq<nat>          // incarnation living in each slot
    ghost var next: nat              // next incarnation
    ghost var final: map<nat, int>   // value each ended incarnation left for its parent
    ghost var reaped: set<nat>       // incarnations delivered by waitpid

    ghost predicate Shape()
      reads this
    {
      && 1 <= nbproc < 32768 && |tab| == nbproc + 1 && |sems| == nbsem && 0 <= cur <= nbproc
      && (cur != 0 ==> tab[cur].valid)
      && Queue(tab, ready) && OnlyActive(tab, cur)
    }

    ghost predicate Facts()
      reads this
    {
      && Forest(tab, inc) && Waits(tab, {}) && Sleepers(tab, sems) && Counts(sems, {})
      && FreeSids(sems, freeSids) && Values(tab, inc, next, final, reaped)
    }

    /** What every step keeps. */
    ghost predicate Inv()
      reads this
    {
      Shape() && Facts()
    }

    /** What every scheduler() establishes: the running process is as urgent as any runnable one. */
    ghost predicate Scheduled()
      reads this
    {
      if cur == 0 then ready == []
      else
        && 0 <= cur < |tab| && tab[cur].valid && tab[cur].state == Active
        && forall p {:trigger p in ready} :: p in ready ==> Prio(tab, p) <= Prio(tab, cur)
    }

    /** A process is running in user mode and may call the kernel. */
    ghost predicate Running()
      reads this
    {
      Inv() && Scheduled() && cur != 0 && tab[cur].resume == Idle
    }

    /** sem_init and context_init: every semaphore free, Init alone in the ready queue, the kernel idle. */
    constructor (maxProcs: nat, maxSems: nat)
      requires 1 <= maxProcs < 32768
      ensures Inv() && cur == 0 && nbproc == maxProcs && nbsem == maxSems && reaped == {} && final == map[]
      ensures ready == [1] && tab[1] == Newborn(3, 0)
      ensures forall i {:trigger tab[i]} :: 0 <= i < |tab| && i != 1 ==> !tab[i].valid
      ensures forall i {:trigger sems[i]} :: 0 <= i < |sems| ==> !sems[i].valid
    {
      nbproc, nbsem, cur, clock := maxProcs, maxSems, 0, 0;
      var none := Proc(false, Dead, 0, 0, 0, [], false, 0, 0, 0, false, false, Idle, []);
      var init := Newborn(3, 0);
      tab := seq(maxProcs + 1, i => if i == 1 then init else none);
      ready := [1];
      sems := seq(maxSems, i => Sem(false, 0, []));
      freeSids := seq(maxSems, i => maxSems - 1 - i);
      inc := seq(maxProcs + 1, (i: nat) => i);
      next, final, reaped := maxProcs + 1, map[], {};
      new;
      BootState(tab, ready, inc, sems, freeSids, next);
    }

    // -------------------------------------------------------------- context.c

    /** garbage_collector: every dead slot becomes free again. */
    method GarbageCollector()
      requires Shape()
      requires cur != 0 ==> tab[cur].state == Active
      modifies this`tab
      ensures Shape()
      ensures forall p {:trigger tab[p]} :: 0 <= p < |tab| ==>
        tab[p] == if p > 0 && old(tab)[p].valid && old(tab)[p].state == Dead then old(tab)[p].(valid := false, children := [])
                  else old(tab)[p]
    {
      ghost var tab0 := tab;
      var i := 1;
      while i <= nbproc
        invariant 1 <= i <= nbproc + 1 && Shape()
        invariant cur != 0 ==> tab[cur].state == Active
        invariant forall p {:trigger tab[p]} :: 0 <= p < |tab| ==>
          tab[p] == if 0 < p < i && tab0[p].valid && tab0[p].state == Dead then tab0[p].(valid := false, children := [])
                    else tab0[p]
      {
        if tab[i].valid && tab[i].state == Dead {
          var np := tab[i].(valid := false, children := []);
          UpdateKeepsQueue(tab, ready, i, np);
          ghost var tab1 := tab;
          tab := tab[i := np];
          forall p | 1 <= p < |tab| ensures ActiveAt(tab, cur, p) { assert ActiveAt(tab1, cur, p); }
        }
        i := i + 1;
      }
    }

    /** scheduler(): keeps, preempts or replaces the running process; a switch collects garbage. */
    method Scheduler()
      requires Shape() && (cur != 0 ==> tab[cur].state != Activable)
      modifies this`tab, this`cur, this`ready
      ensures Shape() && Scheduled() && AllSwitched(old(tab), tab)
      ensures cur == old(cur) != 0 ==> tab == old(tab)
      ensures TurnTaken(old(tab), old(ready), old(cur), ready, cur)
      ensures old(cur) != 0 && old(tab)[old(cur)].state == Active ==>
        (cur == old(cur) <==> forall p {:trigger p in old(ready)} :: p in old(ready) ==> Prio(old(tab), p) < Prio(old(tab), old(cur)))
    {
      ghost var tab0, ready0, cur0 := tab, ready, cur;
      assert cur != 0 ==> QueuedAt(tab, ready, cur);
      if ready == [] {
        if cur != 0 && tab[cur].state != Active {
          forall p | 1 <= p < |tab| ensures ActiveAt(tab, 0, p) { assert ActiveAt(tab, cur, p); }
          cur := 0;
          GarbageCollector();
        }
        return;
      }
      var elem := ready[|ready| - 1];
      assert elem in ready && QueuedAt(tab, ready, elem);
      if cur == 0 || tab[cur].state != Active || tab[elem].prio >= tab[cur].prio {
        Dispatch(elem);
      } else {
        forall p {:trigger p in ready} | p in ready ensures Prio(tab, p) <= Prio(tab, cur) {
          var k := IndexOf(ready, p);
          assert Prio(tab, ready[k]) <= Prio(tab, ready[|ready| - 1]);
        }
      }
      if cur0 != 0 && tab0[cur0].state == Active { StaysOnlyAbove(tab0, ready0, cur0, ready, cur); }
    }

    /** The switch itself: elem, the top of the queue, replaces the current process, which is requeued if active. */
    method Dispatch(elem: int)
      requires Shape() && (cur != 0 ==> tab[cur].state != Activable)
      requires ready != [] && elem == ready[|ready| - 1]
      requires cur != 0 && tab[cur].state == Active ==> Prio(tab, elem) >= tab[cur].prio
      modifies this`tab, this`cur, this`ready
      ensures Shape() && Scheduled() && AllSwitched(old(tab), tab) && cur == elem
      ensures ready == if old(cur) != 0 && old(tab)[old(cur)].state == Active then QueueAdd(old(tab), DropLast(old(ready)), old(cur))
                       else DropLast(old(ready))
    {
      ghost var tab0 := tab;
      var prev := cur;
      var preempted := prev != 0 && tab[prev].state == Active;
      assert elem in ready && QueuedAt(tab, ready, elem);
      assert prev != 0 ==> QueuedAt(tab, ready, prev);
      TakeFirst(elem);
      ghost var ready1 := ready;
      if preempted {
        PutBack(prev);
        assert forall q {:trigger Prio(tab, q)} :: Prio(tab, q) == Prio(tab0, q);
        SlotSamePrio(tab0, tab, ready1, Prio(tab, prev));
      }
      cur := elem;
      forall p | 1 <= p < |tab| ensures ActiveAt(tab, cur, p) { assert ActiveAt(tab0, prev, p); }
      forall p {:trigger p in ready} | p in ready ensures Prio(tab, p) <= Prio(tab, elem) {
        assert p == prev || p in ready1;
      }
      Collect();
    }

    /** The first of the queue leaves it and becomes active. */
    method TakeFirst(elem: int)
      requires Queue(tab, ready) && ready != [] && elem == ready[|ready| - 1]
      modifies this`tab, this`ready
      ensures 1 <= elem < |old(tab)| && tab == old(tab)[elem := old(tab)[elem].(state := Active)]
      ensures Queue(tab, ready) && ready == DropLast(old(ready)) && elem !in ready
      ensures forall p {:trigger p in ready} :: p in ready ==> Prio(tab, p) <= Prio(tab, elem)
    {
      LastOut(ready, elem);
      assert elem in ready && QueuedAt(tab, ready, elem);
      DequeueKeepsQueue(tab, ready, elem, tab[elem].(state := Active));
      TopIsMaximal(tab, ready);
      RemoveAtFacts(ready, IndexOf(ready, elem));
      ready := QueueDel(ready, elem);
      tab := tab[elem := tab[elem].(state := Active)];
    }

    /** The preempted process goes back into the queue. */
    method PutBack(prev: int)
      requires Queue(tab, ready) && 1 <= prev < |tab| && tab[prev].valid && tab[prev].state == Active
      modifies this`tab, this`ready
      ensures Queue(tab, ready) && tab == old(tab)[prev := old(tab)[prev].(state := Activable)]
      ensures forall p {:trigger p in ready} :: p in ready ==> p in old(ready) || p == prev
      ensures ready == QueueAdd(tab, old(ready), prev)
    {
      JoinKeepsQueue(tab, ready, prev, tab[prev].(state := Activable));
      tab := tab[prev := tab[prev].(state := Activable)];
      QueueAddMembers(tab, ready, prev);
      ready := QueueInsert(tab, ready, prev);
    }

    /** The garbage collection at the end of a switch. */
    method Collect()
      requires Shape() && cur != 0 && Scheduled()
      modifies this`tab
      ensures Shape() && Scheduled()
      ensures forall p {:trigger tab[p]} :: 0 <= p < |tab| ==>
        tab[p] == old(tab)[p] || (old(tab)[p].valid && old(tab)[p].state == Dead && tab[p] == old(tab)[p].(valid := false, children := []))
    {
      ghost var tab1 := tab;
      GarbageCollector();
      assert forall p :: Prio(tab, p) == Prio(tab1, p);
    }

    /** scheduler() at the end of a step: everything else the step has re-established is kept. */
    method Reschedule()
      requires Inv() && (cur != 0 ==> tab[cur].state != Activable)
      modifies this`tab, this`cur, this`ready
      ensures Inv() && Scheduled() && AllSwitched(old(tab), tab)
      ensures TurnTaken(old(tab), old(ready), old(cur), ready, cur)
    {
      ghost var tab0 := tab;
      Scheduler();
      SwitchKeeps(tab0, tab, inc, sems, next, final, reaped);
    }

    /** wakeup_process. */
    method Wakeup(p: int) returns (r: int)
      requires Shape()
      requires 1 <= p <= nbproc && tab[p].valid ==> tab[p].state != Activable
      modifies this`tab, this`ready
      ensures Shape()
      ensures if 1 <= p <= nbproc && old(tab)[p].valid then r == p && tab == old(tab)[p := old(tab)[p].(state := Activable)] && ready == QueueAdd(tab, old(ready), p)
              else r == -1 && tab == old(tab) && ready == old(ready)
    {
      if p < 1 || p > nbproc || !tab[p].valid { return -1; }
      ghost var tab0 := tab;
      var np := tab[p].(state := Activable);
      JoinKeepsQueue(tab, ready, p, np);
      tab := tab[p := np];
      ready := QueueInsert(tab, ready, p);
      forall q | 1 <= q < |tab| ensures ActiveAt(tab, cur, q) { assert ActiveAt(tab0, cur, q); }
      r := p;
    }

    /** The running process changes its own descriptor without becoming runnable in the queue. */
    method SetCurrent(np: Proc)
      requires Shape() && cur != 0 && !Runnable(tab[cur]) && !Runnable(np) && np.valid
      modifies this`tab
      ensures Shape() && tab == old(tab)[cur := np]
    {
      ghost var tab0 := tab;
      UpdateKeepsQueue(tab, ready, cur, np);
      tab := tab[cur := np];
      forall q | 1 <= q < |tab| ensures ActiveAt(tab, cur, q) { assert ActiveAt(tab0, cur, q); }
    }

    // -------------------------------------------------------------- timer.c

    /** wait_clock: sleep until the tick counter reaches the given value. */
    method WaitClock(t: int)
      requires Running()
      modifies this`tab, this`cur, this`ready
      ensures Inv() && Scheduled()
      ensures tab[old(cur)] == old(tab)[old(cur)].(state := Asleep, timer := t)
      ensures AllSwitched(old(tab)[old(cur) := tab[old(cur)]], tab)
      ensures TurnTaken(old(tab)[old(cur) := tab[old(cur)]], old(ready), old(cur), ready, cur)
    {
      ghost var tab0 := tab;
      assert WaitAt(tab, cur);
      var np := tab[cur].(state := Asleep, timer := t);
      SetCurrent(np);
      LocalKeeps(tab0, inc, sems, next, final, reaped, cur, np);
      Reschedule();
      assert Switched(np, tab[old(cur)]);
    }

    /** update_timer: wakes every sleeper whose time has come. */
    method UpdateTimer()
      requires Inv() && (cur != 0 ==> tab[cur].state == Active)
      modifies this`tab, this`ready
      ensures Inv() && (cur != 0 ==> tab[cur].state == Active)
      ensures forall p {:trigger tab[p]} :: 1 <= p < |tab| ==> tab[p] == Roused(old(tab)[p], clock)
      ensures forall p {:trigger p in old(ready)} :: p in old(ready) && NoSleeperAbove(old(tab), Prio(old(tab), p)) ==>
        p in ready && Ahead(ready, p) == Ahead(old(ready), p)
    {
      ghost var tab0, ready0 := tab, ready;
      var i := 1;
      while i <= nbproc
        invariant 1 <= i <= nbproc + 1 && Inv() && |tab| == |tab0|
        invariant cur != 0 ==> tab[cur].state == Active
        invariant forall p {:trigger tab[p]} :: 1 <= p < |tab| ==> tab[p] == if p < i then Roused(tab0[p], clock) else tab0[p]
        invariant forall p {:trigger p in ready0} :: p in ready0 && NoSleeperAbove(tab0, Prio(tab0, p)) ==>
          p in ready && Ahead(ready, p) == Ahead(ready0, p)
      {
        if tab[i].valid && tab[i].state == Asleep && tab[i].timer <= clock {
          ghost var tab1 := tab;
          assert WaitAt(tab, i) && QueuedAt(tab, ready, i);
          ghost var ready1 := ready;
          var _ := Wakeup(i);
          JoinedBehindAll(tab0, tab1, tab, ready0, ready1, i);
          LocalKeeps(tab1, inc, sems, next, final, reaped, i, tab1[i].(state := Activable));
        }
        i := i + 1;
      }
    }

    /** The clock interrupt: count the tick, wake the sleepers that are due, and schedule. */
    method Tick()
      requires Inv() && (cur == 0 || Running())
      modifies this`tab, this`cur, this`ready, this`clock
      ensures Inv() && Scheduled() && clock == (old(clock) + 1) % 0x1_0000_0000
      ensures forall p {:trigger tab[p]} :: 1 <= p < |tab| ==> Switched(Roused(old(tab)[p], clock), tab[p])
      ensures forall p {:trigger tab[p]} :: 1 <= p < |tab| && old(tab)[p].valid && old(tab)[p].state == Asleep ==>
        if old(tab)[p].timer <= clock then OnCpuSide(tab[p]) else tab[p] == old(tab)[p]
      ensures old(cur) != 0 ==>
        (cur == old(cur) ==> forall p {:trigger p in ready} :: p in ready ==> Prio(tab, p) < Prio(tab, cur))
      ensures old(cur) != 0 ==> forall p {:trigger p in old(ready)} ::
        p in old(ready) && Prio(old(tab), p) >= Prio(old(tab), old(cur)) && NoSleeperAbove(old(tab), Prio(old(tab), p)) ==>
          if Ahead(old(ready), p) == [] then cur == p else p in ready && Ahead(ready, p) == DropLast(Ahead(old(ready), p))
    {
      ghost var tab0, ready0, cur0 := tab, ready, cur;
      clock := (clock + 1) % 0x1_0000_0000;
      UpdateTimer();
      ghost var tab1, ready1 := tab, ready;
      assert cur != 0 ==> QueuedAt(tab, ready, cur);
      Reschedule();
      TickFacts(tab0, tab1, tab, clock);
      if cur0 != 0 { AfterTick(tab0, ready0, cur0, tab1, ready1, tab, ready, cur); }
    }

    // -------------------------------------------------------------- sys.c: priorities and creation

    /** A queued process is deleted and added again under its new priority. */
    method Requeue(pid: int, newprio: int)
      requires Shape() && 1 <= pid <= nbproc && Runnable(tab[pid])
      modifies this`tab, this`ready
      ensures Shape() && tab == old(tab)[pid := old(tab)[pid].(prio := newprio)]
      ensures ready == QueueAdd(tab, QueueDel(old(ready), pid), pid)
    {
      ghost var tab0 := tab;
      RequeueKeepsQueue(tab, ready, pid, newprio);
      tab := tab[pid := tab[pid].(prio := newprio)];
      ready := QueueInsert(tab, QueueDel(ready, pid), pid);
      forall q | 1 <= q < |tab| ensures ActiveAt(tab, cur, q) { assert ActiveAt(tab0, cur, q); }
    }

    /** Gives a live process a new priority. */
    method SetPriority(pid: int, newprio: int)
      requires Inv() && 1 <= pid <= nbproc && Live(tab[pid])
      modifies this`tab, this`ready
      ensures Inv() && tab == old(tab)[pid := old(tab)[pid].(prio := newprio)]
      ensures ready == Reordered(old(tab), old(ready), pid, newprio)
    {
      ghost var tab0 := tab;
      PrioKeeps(tab, inc, sems, next, final, reaped, pid, newprio);
      if tab[pid].state == Activable {
        Requeue(pid, newprio);
      } else {
        UpdateKeepsQueue(tab, ready, pid, tab[pid].(prio := newprio));
        tab := tab[pid := tab[pid].(prio := newprio)];
        forall q | 1 <= q < |tab| ensures ActiveAt(tab, cur, q) { assert ActiveAt(tab0, cur, q); }
      }
    }

    /** chprio. */
    method Chprio(pid: int, newprio: int) returns (r: int)
      requires Running()
      modifies this`tab, this`cur, this`ready
      ensures Inv() && Scheduled()
      ensures !(1 <= pid <= nbproc && Live(old(tab)[pid])) ==> r == -1 && unchanged(this)
      ensures 1 <= pid <= nbproc && Live(old(tab)[pid]) && !(0 < newprio <= MAXPRIO) ==> r == -2 && unchanged(this)
      ensures 1 <= pid <= nbproc && Live(old(tab)[pid]) && 0 < newprio <= MAXPRIO ==>
        && r == old(tab)[pid].prio && AllSwitched(old(tab)[pid := old(tab)[pid].(prio := newprio)], tab)
        && TurnTaken(old(tab)[pid := old(tab)[pid].(prio := newprio)],
                     if newprio == r then old(ready) else Reordered(old(tab), old(ready), pid, newprio), old(cur), ready, cur)
    {
      if pid <= 0 || pid > nbproc || !tab[pid].valid || tab[pid].state == Zombie || tab[pid].state == Dead { return -1; }
      r := tab[pid].prio;
      if newprio <= 0 || newprio > MAXPRIO { return -2; }
      if newprio != r {
        SetPriority(pid, newprio);
      }
      assert tab == old(tab)[pid := old(tab)[pid].(prio := newprio)];
      Reschedule();
    }

    /**
      start: -1 for a stack that is too large, for lack of memory or of a free slot. Otherwise the first free slot
      gets a new incarnation, child of the caller. `granted` says whether the two stacks could be allocated.
     */
    method Start(prio: int, ssize: nat, granted: bool) returns (pid: int)
      requires Running()
      modifies this`tab, this`cur, this`ready, this`inc, this`next
      ensures Inv() && Scheduled()
      ensures pid == -1 <==> ssize > MAXSTACK || !granted || forall i {:trigger old(tab)[i]} :: 1 <= i <= nbproc ==> old(tab)[i].valid
      ensures pid == -1 ==> unchanged(this)
      ensures pid != -1 ==>
        && 2 <= pid <= nbproc && !old(tab)[pid].valid
        && (forall i {:trigger old(tab)[i]} :: 1 <= i < pid ==> old(tab)[i].valid)
        && inc == old(inc)[pid := old(next)] && next == old(next) + 1
        && AllSwitched(Begotten(old(tab), old(cur), pid, prio), tab)
        && TurnTaken(Begotten(old(tab), old(cur), pid, prio),
                     QueueAdd(Begotten(old(tab), old(cur), pid, prio), old(ready), pid), old(cur), ready, cur)
    {
      if ssize > MAXSTACK { return -1; }
      pid := 1;
      while pid <= nbproc && tab[pid].valid
        invariant 1 <= pid <= nbproc + 1 && unchanged(this)
        invariant forall i {:trigger tab[i]} :: 1 <= i < pid ==> tab[i].valid
      {
        pid := pid + 1;
      }
      if pid > nbproc || !granted { return -1; }
      assert ForestAt(tab, inc, 1) && WaitAt(tab, cur);
      Beget(pid, prio);
      Reschedule();
    }

    /** The newborn is put first in the list of its creator and queued. */
    method Beget(pid: int, prio: int)
      requires Inv() && cur != 0 && tab[cur].state == Active && 2 <= pid <= nbproc && !tab[pid].valid
      modifies this`tab, this`ready, this`inc, this`next
      ensures Inv() && tab == Begotten(old(tab), cur, pid, prio) && inc == old(inc)[pid := old(next)] && next == old(next) + 1
      ensures tab[cur].state == Active && ready == QueueAdd(tab, old(ready), pid)
    {
      var np := Newborn(prio, cur);
      BirthKeeps(tab, inc, sems, next, final, reaped, cur, pid, np);
      Enlist(pid, np);
      inc := inc[pid := next];
      next := next + 1;
    }

    method Enlist(pid: int, np: Proc)
      requires Shape() && cur != 0 && 1 <= pid <= nbproc && pid != cur && !Runnable(tab[pid]) && Runnable(np)
      modifies this`tab, this`ready
      ensures Shape() && tab == old(tab)[cur := old(tab)[cur].(children := [pid] + old(tab)[cur].children)][pid := np]
      ensures ready == QueueAdd(tab, old(ready), pid)
    {
      ghost var tab0 := tab;
      var father := tab[cur].(children := [pid] + tab[cur].children);
      UpdateKeepsQueue(tab, ready, cur, father);
      tab := tab[cur := father];
      JoinKeepsQueue(tab, ready, pid, np);
      tab := tab[pid := np];
      ready := QueueInsert(tab, ready, pid);
      forall q | 1 <= q < |tab| ensures ActiveAt(tab, cur, q) { assert ActiveAt(tab0, cur, q); }
    }

    // -------------------------------------------------------------- sys.c: waiting for children

    /** The end of waitpid: the zombie's value is read, the zombie dies and leaves the list of its parent. */
    method Reap(c: int) returns (val: int)
      requires Inv() && cur != 0 && tab[cur].state == Active && !tab[cur].resume.InWaitSem? && ZombieChild(tab, c, cur)
      modifies this`tab, this`reaped
      ensures Inv() && tab[cur].state == Active && tab[cur].resume == Idle
      ensures tab == AfterReap(old(tab), cur, c)
      ensures inc[c] in final && val == final[inc[c]] && inc[c] !in old(reaped) && reaped == old(reaped) + {inc[c]}
      ensures old(Scheduled()) ==> Scheduled()
    {
      ghost var tab0 := tab;
      assert ValueAt(tab, inc, final, reaped, c);
      val := if tab[c].killed then 0 else tab[c].retval;
      ReapKeeps(tab, inc, sems, next, final, reaped, cur, c);
      UpdateKeepsQueue(tab, ready, c, tab[c].(state := Dead));
      tab := tab[c := tab[c].(state := Dead)];
      ghost var tab1 := tab;
      var np := tab[cur].(children := Without(tab[cur].children, c), resume := Idle);
      UpdateKeepsQueue(tab, ready, cur, np);
      tab := tab[cur := np];
      reaped := reaped + {inc[c]};
      forall q | 1 <= q < |tab| ensures ActiveAt(tab, cur, q) { assert ActiveAt(tab0, cur, q); }
      assert forall p :: Prio(tab, p) == Prio(tab0, p);
    }

    /** The running process blocks in waitpid. */
    method BlockOnChild(pid: int, how: Resume)
      requires Running()
      requires (how == InWaitAny && pid == -1) || (how == InWaitPid(pid) && pid > 0)
      requires how == InWaitAny && cur > 1 ==> forall c {:trigger ZombieChild(tab, c, cur)} :: !ZombieChild(tab, c, cur)
      requires how != InWaitAny && cur > 1 ==> IsChild(tab, pid, cur) && !ZombieChild(tab, pid, cur)
      modifies this`tab, this`cur, this`ready
      ensures Inv() && Scheduled()
      ensures tab[old(cur)] == old(tab)[old(cur)].(state := WaitChild, pidWait := pid, resume := how)
      ensures AllSwitched(old(tab)[old(cur) := tab[old(cur)]], tab)
      ensures TurnTaken(old(tab)[old(cur) := tab[old(cur)]], old(ready), old(cur), ready, cur)
    {
      ghost var tab0 := tab;
      assert WaitAt(tab, cur);
      var np := tab[cur].(state := WaitChild, pidWait := pid, resume := how);
      SetCurrent(np);
      BlockedChildWait(tab0, cur, np);
      LocalKeeps(tab0, inc, sems, next, final, reaped, cur, np);
      Reschedule();
      assert Switched(np, tab[old(cur)]);
    }

    /** The first zombie in the child list of the running process, or 0. */
    method FindZombie() returns (c: int)
      requires Inv() && cur != 0 && Live(tab[cur])
      ensures c != 0 ==> ZombieChild(tab, c, cur) && FirstZombie(tab, tab[cur].children, c)
      ensures c == 0 ==> forall d {:trigger ZombieChild(tab, d, cur)} :: !ZombieChild(tab, d, cur)
    {
      var s := tab[cur].children;
      assert ForestAt(tab, inc, cur);
      var k := 0;
      while k < |s|
        invariant 0 <= k <= |s|
        invariant forall j {:trigger s[j]} :: 0 <= j < k ==> !ZombieChild(tab, s[j], cur)
      {
        assert s[k] in s && IsChild(tab, s[k], cur);
        if tab[s[k]].state == Zombie {
          assert FirstZombie(tab, s, s[k]) by {
            assert s[..k + 1][..k] == s[..k];
            forall d | d in s[..k] ensures !IsZombie(tab, d) { assert s[IndexOf(s[..k], d)] == d && d in s; }
          }
          return s[k];
        }
        k := k + 1;
      }
      forall d {:trigger ZombieChild(tab, d, cur)} ensures !ZombieChild(tab, d, cur) {
        if IsChild(tab, d, cur) {
          assert d in s;
          assert s[IndexOf(s, d)] == d;
        }
      }
      c := 0;
    }

    /** What a successful waitpid delivers: a zombie child of the caller, its own final value, and never twice. */
    ghost predicate Delivered(tab0: Table, caller: int, final0: map<nat, int>, reaped0: set<nat>, c: int, val: int)
      reads this
    {
      && ZombieChild(tab0, c, caller) && 0 <= c < |inc|
      && inc[c] in final0 && val == final0[inc[c]]
      && inc[c] !in reaped0 && reaped == reaped0 + {inc[c]}
    }

    /** waitpid up to the point where it returns or blocks. */
    method Waitpid(pid: int) returns (blocked: bool, r: int, val: int)
      requires Running()
      modifies this`tab, this`cur, this`ready, this`reaped
      ensures Inv() && Scheduled()
      ensures blocked <==>
        && pid != old(cur)
        && (if pid < 0 then old(tab)[old(cur)].children != [] && forall c {:trigger ZombieChild(old(tab), c, old(cur))} :: !ZombieChild(old(tab), c, old(cur))
            else IsChild(old(tab), pid, old(cur)) && !ZombieChild(old(tab), pid, old(cur)))
      ensures old(cur) == 1 ==> (blocked <==> pid != 1 && if pid < 0 then old(tab)[1].children != [] else IsChild(old(tab), pid, 1))
      ensures blocked ==> reaped == old(reaped)
      ensures blocked ==> tab[old(cur)] == old(tab)[old(cur)].(state := WaitChild, pidWait := if pid < 0 then -1 else pid,
        resume := if pid < 0 then InWaitAny else InWaitPid(pid))
      ensures blocked ==> AllSwitched(old(tab)[old(cur) := tab[old(cur)]], tab)
      ensures !blocked && r > 0 ==> Delivered(old(tab), old(cur), final, old(reaped), r, val) && (pid < 0 || r == pid)
      ensures !blocked && r > 0 && pid < 0 ==> FirstZombie(old(tab), old(tab)[old(cur)].children, r)
      ensures !blocked && r > 0 ==> cur == old(cur) && r < |old(tab)| && tab == AfterReap(old(tab), cur, r)
      ensures !blocked && r <= 0 ==>
        unchanged(this) && r == (if pid == cur || pid < 0 then -1 else if pid == 0 then -2 else -3)
    {
      val, blocked := 0, false;
      if pid == cur { return false, -1, 0; }
      forall c {:trigger ZombieChild(tab, c, 1)} ensures !ZombieChild(tab, c, 1) { NoZombieUnderInit(tab, inc, c); }
      assert WaitAt(tab, cur) && ForestAt(tab, inc, cur);
      if pid < 0 {
        if tab[cur].children == [] {
          forall c {:trigger ZombieChild(tab, c, cur)} ensures !ZombieChild(tab, c, cur) { assert !IsChild(tab, c, cur); }
          return false, -1, 0;
        }
        var c := FindZombie();
        if c == 0 {
          BlockOnChild(-1, InWaitAny);
          return true, 0, 0;
        }
        r := c;
      } else {
        if pid == 0 { return false, -2, 0; }
        if pid !in tab[cur].children {
          assert !IsChild(tab, pid, cur);
          return false, -3, 0;
        }
        assert IsChild(tab, pid, cur);
        if tab[pid].state != Zombie {
          BlockOnChild(pid, InWaitPid(pid));
          return true, 0, 0;
        }
        r := pid;
      }
      val := Reap(r);
    }

    /** The rest of a waitpid that blocked: the process runs again because its child has ended. */
    method ResumeWaitpid() returns (r: int, val: int)
      requires Inv() && Scheduled() && cur != 0 && (tab[cur].resume.InWaitAny? || tab[cur].resume.InWaitPid?)
      modifies this`tab, this`reaped
      ensures Running() && Delivered(old(tab), cur, final, old(reaped), r, val)
      ensures old(tab)[cur].resume.InWaitPid? ==> r == old(tab)[cur].resume.child
      ensures 0 < r < |old(tab)| && tab == AfterReap(old(tab), cur, r)
    {
      assert WaitAt(tab, cur);
      r := if tab[cur].resume.InWaitAny? then tab[cur].pidWait else tab[cur].resume.child;
      val := Reap(r);
    }

    // -------------------------------------------------------------- sys.c: the end of a process

    /** One turn of the loop over the children of an ending process. */
    method TreatOrphan(p: int, ghost rest: seq<int>, ghost except: set<int>, c: int)
      requires Shape() && Dying(tab, inc, sems, next, final, reaped, p, rest, except) && rest != [] && c == rest[0]
      modifies this`tab
      ensures Shape() && Dying(tab, inc, sems, next, final, reaped, p, rest[1..], except)
      ensures AllOrphaned(old(tab), tab, p)
    {
      ghost var tab0 := tab;
      NextOrphan(tab, inc, p, rest);
      if tab[c].state == Zombie {
        DyingBuries(tab, inc, sems, next, final, reaped, p, rest, except);
        UpdateKeepsQueue(tab, ready, c, tab[c].(state := Dead));
        tab := tab[c := tab[c].(state := Dead)];
      } else {
        DyingAdopts(tab, inc, sems, next, final, reaped, p, rest, except);
        UpdateKeepsQueue(tab, ready, c, tab[c].(parent := 1));
        tab := tab[c := tab[c].(parent := 1)];
        UpdateKeepsQueue(tab, ready, 1, tab[1].(children := [c] + tab[1].children));
        tab := tab[1 := tab[1].(children := [c] + tab[1].children)];
      }
      forall q | 1 <= q < |tab| ensures ActiveAt(tab, cur, q) { assert ActiveAt(tab0, cur, q); }
    }

    /** The loop of exit and kill over the child list: zombies die, the living go to Init. */
    method OrphanChildren(p: int, ghost except: set<int>)
      requires Shape() && 1 <= p < |tab| && Dying(tab, inc, sems, next, final, reaped, p, tab[p].children, except)
      modifies this`tab
      ensures Shape() && Dying(tab, inc, sems, next, final, reaped, p, [], except)
      ensures AllOrphaned(old(tab), tab, p)
    {
      ghost var tab0 := tab;
      var s := tab[p].children;
      assert s[0..] == s;
      var k := 0;
      while k < |s|
        invariant 0 <= k <= |s| && Shape()
        invariant Dying(tab, inc, sems, next, final, reaped, p, s[k..], except)
        invariant AllOrphaned(tab0, tab, p)
      {
        ghost var tab1 := tab;
        TreatOrphan(p, s[k..], except, s[k]);
        assert s[k..][1..] == s[k + 1..];
        OrphanedTwice(tab0, tab1, tab, p);
        k := k + 1;
      }
    }

    /** p takes its final state; if it was in the ready queue it leaves it. */
    method Retire(p: int, np: Proc)
      requires Shape() && 1 <= p <= nbproc && np.valid && (np.state == Zombie || np.state == Dead)
      modifies this`tab, this`ready
      ensures Shape() && tab == old(tab)[p := np] && ready == QueueDel(old(ready), p)
    {
      ghost var tab0 := tab;
      assert QueuedAt(tab, ready, p);
      if tab[p].valid && tab[p].state == Activable {
        DequeueKeepsQueue(tab, ready, p, np);
        ready := QueueDel(ready, p);
      } else {
        UpdateKeepsQueue(tab, ready, p, np);
      }
      tab := tab[p := np];
      forall q | 1 <= q < |tab| ensures ActiveAt(tab, cur, q) { assert ActiveAt(tab0, cur, q); }
    }

    /** The part of the invariant that no end of a process, clean or not, can break. */
    ghost predicate Core()
      reads this
    {
      Shape() && Forest(tab, inc) && FreeSids(sems, freeSids) && Values(tab, inc, next, final, reaped)
    }

    /** The childless process p stays behind as a zombie of its father. */
    method BecomeZombie(p: int, np: Proc, ghost v: int, ghost woken: bool, ghost except: set<int>)
      requires Shape() && FreeSids(sems, freeSids) && 2 <= p <= nbproc
      requires except == if woken then {p, tab[p].parent} else {p}
      requires Dying(tab, inc, sems, next, final, reaped, p, [], except) && tab[p].parent > 1
      requires np.valid && np.state == Zombie && np.parent == tab[p].parent && v == (if np.killed then 0 else np.retval)
      modifies this`tab, this`ready, this`final
      ensures Core() && tab == old(tab)[p := np] && final == old(final)[inc[p] := v]
      ensures old(FatherReady(tab, p, woken)) ==> Waits(tab, {})
      ensures old(tab)[p].state != WaitSem ==> Sleepers(tab, sems)
    {
      ghost var f := tab[p].parent;
      ghost var ok := FatherReady(tab, p, woken);
      DyingBecomesZombie(tab, inc, sems, next, final, reaped, p, except, np, v);
      assert ForestAt(tab[p := tab[p].(children := [])], inc, p);
      if ok && woken { FatherWoken(tab, p, np, f); }
      if ok && !woken {
        assert WaitAt(tab, f);
        FatherStillWaits(tab, p, np, f);
      }
      Retire(p, np);
      final := final[inc[p] := v];
      if ok { WaitsRestoreTwo(tab, except, f, p); }
    }

    /** The childless process p dies under Init. */
    method DieUnderInit(p: int, ghost except: set<int>)
      requires Shape() && FreeSids(sems, freeSids) && 2 <= p <= nbproc && except == {p}
      requires Dying(tab, inc, sems, next, final, reaped, p, [], except) && tab[p].parent == 1
      modifies this`tab, this`ready
      ensures Core() && Waits(tab, {})
      ensures tab == old(tab)[p := old(tab)[p].(state := Dead)][1 := old(tab)[1].(children := Without(old(tab)[1].children, p))]
      ensures old(tab)[p].state != WaitSem ==> Sleepers(tab, sems)
    {
      var np := tab[p].(state := Dead);
      DyingUnderInit(tab, inc, sems, next, final, reaped, p, except, np);
      Retire(p, np);
      UpdateKeepsQueue(tab, ready, 1, tab[1].(children := Without(tab[1].children, p)));
      ghost var tab2 := tab;
      tab := tab[1 := tab[1].(children := Without(tab[1].children, p))];
      forall q | 1 <= q < |tab| ensures ActiveAt(tab, cur, q) { assert ActiveAt(tab2, cur, q); }
      assert {} + {p} == except;
      WaitsRestore(tab, {}, p);
    }

    /** Common end of exit and kill, after the father has been seen to. */
    method EndProcess(p: int, killed: bool, ret: int, ghost woken: bool)
      requires Shape() && FreeSids(sems, freeSids) && 2 <= p <= nbproc && !tab[p].killed
      requires woken ==> tab[p].parent > 1
      requires Dying(tab, inc, sems, next, final, reaped, p, tab[p].children, if woken then {p, tab[p].parent} else {p})
      modifies this`tab, this`ready, this`final
      ensures Core()
      ensures old(FatherReady(tab, p, woken)) ==> Waits(tab, {})
      ensures old(tab)[p].state != WaitSem ==> Sleepers(tab, sems)
      ensures final == if old(tab)[p].parent > 1 then old(final)[inc[p] := if killed then 0 else ret] else old(final)
      ensures tab[p].state == (if old(tab)[p].parent > 1 then Zombie else Dead) && tab[p].valid && tab[p].parent == old(tab)[p].parent
      ensures forall q {:trigger tab[q]} :: 0 <= q < |tab| && q != p ==> Orphaned(old(tab)[q], tab[q])
    {
      ghost var tab0 := tab;
      ghost var except := if woken then {p, tab[p].parent} else {p};
      assert tab[p := tab[p].(children := tab[p].children)] == tab;
      assert ForestAt(tab, inc, p);
      OrphanChildren(p, except);
      assert tab[p] == tab0[p];
      if tab[p].parent > 1 {
        FatherUnmoved(tab0, tab, inc, p);
        var np := if killed then tab[p].(state := Zombie, killed := true) else tab[p].(state := Zombie, retval := ret);
        BecomeZombie(p, np, if killed then 0 else ret, woken, except);
      } else {
        DieUnderInit(p, except);
      }
    }

    /** Wakes the father if he waits for p; exit also tells him which child it was, kill does not. */
    method WakeFather(p: int, announce: bool) returns (woken: bool)
      requires Core() && Waits(tab, {}) && Sleepers(tab, sems) && 2 <= p <= nbproc && Live(tab[p])
      modifies this`tab, this`ready
      ensures Shape() && 1 <= tab[p].parent < |tab| && tab[p] == old(tab)[p]
      ensures Dying(tab, inc, sems, next, final, reaped, p, tab[p].children, if woken then {p, tab[p].parent} else {p})
      ensures woken <==> FatherWaits(old(tab), p)
      ensures var f := tab[p].parent;
        tab == if woken then old(tab)[f := old(tab)[f].(state := Activable, pidWait := if announce then p else old(tab)[f].pidWait)] else old(tab)
    {
      ghost var tab0 := tab;
      FatherIsOther(tab, inc, p);
      var f := tab[p].parent;
      woken := FatherWaits(tab, p);
      if woken {
        WokenFather(tab0, inc, sems, next, final, reaped, p, f,
                    tab[f].(state := Activable, pidWait := if announce then p else tab[f].pidWait));
        RouseFather(f, p, announce);
      } else {
        FatherAsleep(tab0, inc, sems, next, final, reaped, p);
      }
    }

    method RouseFather(f: int, p: int, announce: bool)
      requires Shape() && 1 <= f <= nbproc && tab[f].valid && tab[f].state == WaitChild
      modifies this`tab, this`ready
      ensures Shape()
      ensures tab == old(tab)[f := old(tab)[f].(state := Activable, pidWait := if announce then p else old(tab)[f].pidWait)]
      ensures ready == QueueAdd(tab, old(ready), f)
    {
      if announce { Announce(f, p); }
      var _ := Wakeup(f);
    }

    method Announce(f: int, p: int)
      requires Shape() && 1 <= f <= nbproc && !Runnable(tab[f])
      modifies this`tab
      ensures Shape() && tab == old(tab)[f := old(tab)[f].(pidWait := p)]
    {
      ghost var tab0 := tab;
      UpdateKeepsQueue(tab, ready, f, tab[f].(pidWait := p));
      tab := tab[f := tab[f].(pidWait := p)];
      forall q | 1 <= q < |tab| ensures ActiveAt(tab, cur, q) { assert ActiveAt(tab0, cur, q); }
    }

    /** exit up to the call of the scheduler: the father is told, then the process ends. */
    method Finish(p: int, ret: int)
      requires Inv() && 2 <= p <= nbproc && Live(tab[p]) && tab[p].state != WaitSem
      modifies this`tab, this`ready, this`final
      ensures Inv() && tab[p].valid && tab[p].parent == old(tab)[p].parent
      ensures tab[p].state == (if old(tab)[p].parent > 1 then Zombie else Dead)
      ensures final == if old(tab)[p].parent > 1 then old(final)[inc[p] := ret] else old(final)
      ensures AllSpared(old(tab), tab, p)
    {
      ghost var tab0 := tab;
      assert ValueAt(tab, inc, final, reaped, p);
      var woken := WakeFather(p, true);
      WokenIsReady(tab0, tab, inc, p, true, woken);
      ghost var tab1 := tab;
      EndProcess(p, false, ret, woken);
      ghost var f := tab0[p].parent;
      OrphansAreSpared(tab0, tab1, tab, p, f, tab1[f]);
    }

    /** exit: the caller ends for good; its value is kept for a father other than Init. */
    method Exit(ret: int)
      requires Running() && cur != 1
      modifies this`tab, this`cur, this`ready, this`final
      ensures Inv() && Scheduled()
      ensures !Live(tab[old(cur)]) && (old(tab)[old(cur)].parent > 1 ==> ZombieChild(tab, old(cur), old(tab)[old(cur)].parent))
      ensures AllSpared(old(tab), tab, old(cur))
      ensures inc[old(cur)] !in old(final)
      ensures final == if old(tab)[old(cur)].parent > 1 then old(final)[inc[old(cur)] := ret] else old(final)
    {
      ghost var tab0 := tab;
      assert ValueAt(tab, inc, final, reaped, cur) && WaitAt(tab, cur);
      Finish(cur, ret);
      ghost var tab1 := tab;
      Reschedule();
      SwitchSpares(tab0, tab1, tab, old(cur));
      assert Switched(tab1[old(cur)], tab[old(cur)]);
    }

    /** Killing once the victim's semaphore has been notified: the father is woken, then the victim ends. */
    method Slay(pid: int)
      requires Core() && Waits(tab, {}) && Sleepers(tab, sems) && 2 <= pid <= nbproc && Live(tab[pid])
      requires cur != 0 && tab[cur].state == Active
      modifies this`tab, this`ready, this`final
      ensures Core() && tab[cur].state != Activable
      ensures CleanKill(old(tab), pid) ==> Waits(tab, {}) && Sleepers(tab, sems)
      ensures FatherWaits(old(tab), pid) && old(tab)[old(tab)[pid].parent].pidWait == -1 ==> Lost(tab, old(tab)[pid].parent)
      ensures tab[pid].state == (if old(tab)[pid].parent > 1 then Zombie else Dead) && tab[pid].parent == old(tab)[pid].parent
      ensures AllSpared(old(tab), tab, pid)
      ensures final == if old(tab)[pid].parent > 1 then old(final)[inc[pid] := 0] else old(final)
    {
      ghost var tab0 := tab;
      assert ValueAt(tab, inc, final, reaped, pid);
      var woken := WakeFather(pid, false);
      WokenIsReady(tab0, tab, inc, pid, false, woken);
      ghost var tab1 := tab;
      EndProcess(pid, true, 0, woken);
      LostFather(tab0, tab1, tab, inc, pid);
      ghost var f := tab0[pid].parent;
      OrphansAreSpared(tab0, tab1, tab, pid, f, tab1[f]);
      assert cur != pid ==> Orphaned(tab1[cur], tab[cur]);
    }

    /** "Notify semaphore": the counter goes up, the waiter list is left alone. */
    method RaiseForVictim(pid: int)
      requires 1 <= pid < |tab| && Live(tab[pid]) && Sleepers(tab, sems) && Counts(sems, {}) && FreeSids(sems, freeSids)
      modifies this`sems
      ensures Sleepers(tab, sems) && FreeSids(sems, freeSids) && |sems| == |old(sems)|
      ensures if tab[pid].state == WaitSem then !Counts(sems, {}) else sems == old(sems)
    {
      if tab[pid].state == WaitSem {
        KilledSleeperBreaksCount(tab, sems, pid);
        var s := tab[pid].sidWait;
        var ns := sems[s].(c := sems[s].c + 1);
        SleepersRecount(tab, sems, s, ns);
        ghost var sems0 := sems;
        sems := sems[s := ns];
        assert !CountAt(sems, s);
        forall t {:trigger sems[t]} | 0 <= t < |sems| && !sems[t].valid ensures t in freeSids { assert !sems0[t].valid; }
      }
    }

    /**
      kill. The table, the forest and the queue survive every kill; the whole invariant survives exactly the
      clean ones.
     */
    method Kill(pid: int) returns (r: int)
      requires Running()
      modifies this`tab, this`cur, this`ready, this`final, this`sems
      ensures r == -1 <==> !(1 < pid <= nbproc && Live(old(tab)[pid]))
      ensures r == -1 ==> unchanged(this)
      ensures r != -1 ==> r == 0 && Core() && Scheduled() && (Inv() <==> CleanKill(old(tab), pid))
      ensures r == 0 ==> !Live(tab[pid]) && tab[pid].parent == old(tab)[pid].parent && (tab[pid].parent > 1 ==> tab[pid].state == Zombie)
      ensures r == 0 ==> AllSpared(old(tab), tab, pid)
      ensures r == 0 ==> inc[pid] !in old(final)
      ensures r == 0 ==> final == if old(tab)[pid].parent > 1 then old(final)[inc[pid] := 0] else old(final)
    {
      if pid <= 1 || pid > nbproc || !tab[pid].valid || tab[pid].state == Dead || tab[pid].state == Zombie { return -1; }
      ghost var tab0 := tab;
      assert ValueAt(tab, inc, final, reaped, pid);
      RaiseForVictim(pid);
      Slay(pid);
      ghost var tab1 := tab;
      Scheduler();
      CoreSwitch(tab1, tab, inc, next, final, reaped);
      AfterKill(tab0, tab1, tab, inc, sems, next, final, reaped, pid);
      SwitchSpares(tab0, tab1, tab, pid);
      r := 0;
    }

    // -------------------------------------------------------------- semaphore.c

    predicate ValidSid(sid: int)
      reads this
    {
      0 <= sid < |sems| && sems[sid].valid
    }

    /** screate: the first free descriptor gets the counter and an empty list. */
    method SemCreate(count: int) returns (sid: int)
      requires Running() && SHRT_MIN <= count <= SHRT_MAX
      modifies this`sems, this`freeSids
      ensures Running()
      ensures sid == -1 <==> count < 0 || old(freeSids) == []
      ensures sid == -1 ==> unchanged(this)
      ensures sid != -1 ==> 0 <= sid < |sems| && !old(sems)[sid].valid && sems == old(sems)[sid := Sem(true, count, [])]
    {
      if count < 0 || freeSids == [] { return -1; }
      sid := freeSids[0];
      assert sid in freeSids;
      SleepersRecount(tab, sems, sid, Sem(true, count, []));
      ghost var sems0, free0 := sems, freeSids;
      sems := sems[sid := Sem(true, count, [])];
      freeSids := freeSids[1..];
      forall t {:trigger CountAt(sems, t)} | 0 <= t < |sems| ensures CountAt(sems, t) { assert CountAt(sems0, t); }
      TakenSid(sems0, free0, sid, sems[sid]);
    }

    /** wait up to the point where it returns or goes to sleep. The capacity error -2 cannot occur. */
    method SemWait(sid: int) returns (asleep: bool, r: int)
      requires Running()
      modifies this`tab, this`cur, this`ready, this`sems
      ensures Inv() && Scheduled()
      ensures asleep <==> old(ValidSid(sid)) && old(sems)[sid].c <= 0
      ensures !asleep ==> r == (if old(ValidSid(sid)) then 0 else -1) && tab == old(tab) && cur == old(cur)
      ensures old(ValidSid(sid)) ==> sems == old(sems)[sid := Sem(true, old(sems)[sid].c - 1,
        if asleep then [old(cur)] + old(sems)[sid].waiters else old(sems)[sid].waiters)]
      ensures asleep ==> tab[old(cur)] == old(tab)[old(cur)].(state := WaitSem, sidWait := sid, resume := InWaitSem(sid, Pending))
      ensures asleep ==> AllSwitched(old(tab)[old(cur) := tab[old(cur)]], tab)
      ensures asleep ==> TurnTaken(old(tab)[old(cur) := tab[old(cur)]], old(ready), old(cur), ready, cur)
      ensures !asleep ==> ready == old(ready)
      ensures !old(ValidSid(sid)) ==> sems == old(sems)
    {
      if !ValidSid(sid) { return false, -1; }
      CounterBound(tab, sems, sid);
      if sems[sid].c == SHRT_MIN { return false, -2; }
      assert CountAt(sems, sid);
      var c := sems[sid].c - 1;
      if c >= 0 {
        Recount(sid, c);
        return false, 0;
      }
      GoToSleep(sid, c);
      asleep, r := true, 0;
    }

    method GoToSleep(sid: int, c: int)
      requires Running() && ValidSid(sid) && c == sems[sid].c - 1 && c < 0
      modifies this`tab, this`cur, this`ready, this`sems
      ensures Inv() && Scheduled() && sems == old(sems)[sid := Sem(true, c, [old(cur)] + old(sems)[sid].waiters)]
      ensures tab[old(cur)] == old(tab)[old(cur)].(state := WaitSem, sidWait := sid, resume := InWaitSem(sid, Pending))
      ensures AllSwitched(old(tab)[old(cur) := tab[old(cur)]], tab)
      ensures TurnTaken(old(tab)[old(cur) := tab[old(cur)]], old(ready), old(cur), ready, cur)
    {
      ghost var sems0 := sems;
      assert WaitAt(tab, cur) && CountAt(sems, sid);
      SleepKeeps(tab, inc, sems, next, final, reaped, cur, sid, c);
      var np := tab[cur].(state := WaitSem, sidWait := sid, resume := InWaitSem(sid, Pending));
      SetCurrent(np);
      sems := sems[sid := Sem(true, c, [cur] + sems[sid].waiters)];
      SemUpdate(sems0, freeSids, sid, sems[sid]);
      Reschedule();
      assert Switched(np, tab[old(cur)]);
    }

    /** Only the counter of a semaphore without sleepers changes. */
    method Recount(sid: int, c: int)
      requires Inv() && ValidSid(sid) && 0 <= c <= SHRT_MAX && sems[sid].waiters == []
      modifies this`sems
      ensures Inv() && sems == old(sems)[sid := Sem(true, c, old(sems)[sid].waiters)]
    {
      ghost var sems0 := sems;
      SleepersRecount(tab, sems, sid, sems[sid].(c := c));
      sems := sems[sid := sems[sid].(c := c)];
      SemUpdate(sems0, freeSids, sid, sems[sid]);
    }

    /**
      The rest of a wait that slept. It returns -4 exactly when sreset ended it. Otherwise -3 says that this
      wait, or an earlier one of the same incarnation, was ended by sdelete, and 0 that it was signalled.
     */
    method ResumeWait() returns (r: int)
      requires Inv() && Scheduled() && cur != 0 && tab[cur].resume.InWaitSem?
      modifies this`tab
      ensures Running()
      ensures r == -4 <==> old(tab)[cur].resume.ended == WasReset
      ensures r == -3 <==> old(tab)[cur].resume.ended != WasReset && WasDeleted in old(tab)[cur].history
      ensures r == 0 <==> old(tab)[cur].resume.ended == Signalled && WasDeleted !in old(tab)[cur].history
      ensures r in {0, -3, -4}
      ensures tab == old(tab)[cur := old(tab)[cur].(sidReset := false, resume := Idle)]
    {
      ghost var tab0 := tab;
      assert WaitAt(tab, cur);
      r := if tab[cur].sidReset then -4 else if tab[cur].sidDeleted then -3 else 0;
      var np := tab[cur].(sidReset := false, resume := Idle);
      SetCurrent(np);
      LocalKeeps(tab0, inc, sems, next, final, reaped, cur, np);
      assert forall p :: Prio(tab, p) == Prio(tab0, p);
    }

    /** try_wait: takes a pass if there is one. */
    method TryWait(sid: int) returns (r: int)
      requires Running()
      modifies this`sems
      ensures Running()
      ensures r == if !old(ValidSid(sid)) then -1 else if old(sems)[sid].c > 0 then 0 else -3
      ensures sems == if r == 0 then old(sems)[sid := Sem(true, old(sems)[sid].c - 1, old(sems)[sid].waiters)] else old(sems)
    {
      if !ValidSid(sid) { return -1; }
      assert CountAt(sems, sid);
      if sems[sid].c > 0 {
        Recount(sid, sems[sid].c - 1);
        return 0;
      }
      r := -3;
    }

    /** Everything but the relation between the counter of sid and the length of its list. */
    ghost predicate Draining(sid: int)
      reads this
    {
      && Shape() && Forest(tab, inc) && Waits(tab, {}) && Sleepers(tab, sems) && Counts(sems, {sid})
      && FreeSids(sems, freeSids) && Values(tab, inc, next, final, reaped)
    }

    /** Takes the waiter at position k off the list of sid and makes it runnable. */
    method WakeWaiter(sid: int, k: nat, how: Ended)
      requires Draining(sid) && ValidSid(sid) && k < |sems[sid].waiters| && how != Pending
      requires cur != 0 ==> OnCpuSide(tab[cur])
      modifies this`tab, this`ready, this`sems
      ensures Draining(sid)
      ensures sems == old(sems)[sid := Sem(true, old(sems)[sid].c, RemoveAt(old(sems)[sid].waiters, k))]
      ensures var p := old(sems)[sid].waiters[k];
        && 1 <= p < |old(tab)| && p != cur && Sleeper(old(tab), p, sid) && tab == old(tab)[p := Woken(old(tab)[p], sid, how)]
        && ready == QueueAdd(tab, old(ready), p)
    {
      ghost var tab0, sems0 := tab, sems;
      WakeSleeperKeeps(tab, inc, sems, next, final, reaped, sid, k, how, sems[sid].c);
      var p := sems[sid].waiters[k];
      sems := sems[sid := Sem(true, sems[sid].c, RemoveAt(sems[sid].waiters, k))];
      SemShrink(sems0, freeSids, sid, sems[sid]);
      MakeWoken(p, sid, how);
    }

    method MakeWoken(p: int, sid: int, how: Ended)
      requires Shape() && 1 <= p <= nbproc && tab[p].valid && !OnCpuSide(tab[p])
      modifies this`tab, this`ready
      ensures Shape() && tab == old(tab)[p := Woken(old(tab)[p], sid, how)] && ready == QueueAdd(tab, old(ready), p)
    {
      ghost var tab0 := tab;
      var np := Woken(tab[p], sid, how).(state := tab[p].state);
      UpdateKeepsQueue(tab, ready, p, np);
      tab := tab[p := np];
      forall q | 1 <= q < |tab| ensures ActiveAt(tab, cur, q) { assert ActiveAt(tab0, cur, q); }
      var _ := Wakeup(p);
    }

    /** One increment of a counter; if somebody sleeps, the one who came first is woken. */
    method Raise(sid: int)
      requires Inv() && cur != 0 && tab[cur].state == Active && ValidSid(sid) && sems[sid].c < SHRT_MAX
      modifies this`tab, this`ready, this`sems
      ensures Inv() && tab[cur] == old(tab)[cur]
      ensures var w := old(sems)[sid].waiters;
        if old(sems)[sid].c < 0 then
          && w != [] && sems == old(sems)[sid := Sem(true, old(sems)[sid].c + 1, DropLast(w))]
          && Sleeper(old(tab), w[|w| - 1], sid)
          && tab == old(tab)[w[|w| - 1] := Woken(old(tab)[w[|w| - 1]], sid, Signalled)]
          && ready == QueueAdd(tab, old(ready), w[|w| - 1])
        else tab == old(tab) && ready == old(ready) && sems == old(sems)[sid := Sem(true, old(sems)[sid].c + 1, w)]
    {
      assert CountAt(sems, sid);
      var c := sems[sid].c + 1;
      if c > 0 {
        Recount(sid, c);
        return;
      }
      ghost var sems0 := sems;
      SleepersRecount(tab, sems, sid, sems[sid].(c := c));
      sems := sems[sid := sems[sid].(c := c)];
      CountsBut(sems0, freeSids, sid, sems[sid]);
      var w := sems[sid].waiters;
      WakeWaiter(sid, |w| - 1, Signalled);
      assert RemoveAt(w, |w| - 1) == DropLast(w);
      CountsBack(sems, sid);
    }

    /** signal: one pass more, or the sleeper that has waited longest goes on. */
    method Signal(sid: int) returns (r: int)
      requires Running()
      modifies this`tab, this`cur, this`ready, this`sems
      ensures Inv() && Scheduled()
      ensures r == if !old(ValidSid(sid)) then -1 else if old(sems)[sid].c == SHRT_MAX then -2 else 0
      ensures r == 0 ==> sems == old(sems)[sid := Sem(true, old(sems)[sid].c + 1,
        if old(sems)[sid].c < 0 then DropLast(old(sems)[sid].waiters) else old(sems)[sid].waiters)]
      ensures r == 0 && old(sems)[sid].c >= 0 ==> tab == old(tab) && cur == old(cur) && ready == old(ready)
      ensures r == 0 && old(sems)[sid].c < 0 ==>
        var w := old(sems)[sid].waiters;
        && w != [] && Sleeper(old(tab), w[|w| - 1], sid)
        && var tab1 := old(tab)[w[|w| - 1] := Woken(old(tab)[w[|w| - 1]], sid, Signalled)];
           AllSwitched(tab1, tab) && TurnTaken(tab1, QueueAdd(tab1, old(ready), w[|w| - 1]), old(cur), ready, cur)
      ensures r != 0 ==> unchanged(this)
    {
      if !ValidSid(sid) { return -1; }
      if sems[sid].c == SHRT_MAX { return -2; }
      assert WaitAt(tab, cur) && CountAt(sems, sid);
      var c := sems[sid].c + 1;
      ghost var tab0, ready0, cur0 := tab, ready, cur;
      Raise(sid);
      if c <= 0 {
        Reschedule();
      } else {
        assert Scheduled();
      }
      r := 0;
    }

    /** signaln: count passes at once; the sleepers that are woken are the ones that have waited longest. */
    method SignalN(sid: int, count: int) returns (r: int)
      requires Running() && SHRT_MIN <= count <= SHRT_MAX
      modifies this`tab, this`cur, this`ready, this`sems
      ensures Inv() && Scheduled()
      ensures r == if !old(ValidSid(sid)) then -1 else if count < 0 then -3
                   else if old(sems)[sid].c > 0 && SHRT_MAX - old(sems)[sid].c < count then -2 else 0
      ensures r != 0 ==> unchanged(this)
      ensures r == 0 ==>
        var w := old(sems)[sid].waiters;
        && sems == old(sems)[sid := Sem(true, old(sems)[sid].c + count, w[..StillAsleep(w, count)])]
        && (forall p {:trigger tab[p]} :: 1 <= p < |tab| ==>
              Switched(if p in w[StillAsleep(w, count)..] then Woken(old(tab)[p], sid, Signalled) else old(tab)[p], tab[p]))
    {
      if !ValidSid(sid) { return -1; }
      if count < 0 { return -3; }
      if sems[sid].c > 0 && SHRT_MAX - sems[sid].c < count { return -2; }
      assert WaitAt(tab, cur) && CountAt(sems, sid);
      RaiseBy(sid, count);
      ghost var tab1 := tab;
      Reschedule();
      assert forall p {:trigger tab[p]} :: 1 <= p < |tab| ==> Switched(tab1[p], tab[p]);
      r := 0;
    }

    /** The loop of signaln. */
    method RaiseBy(sid: int, count: nat)
      requires Inv() && cur != 0 && tab[cur].state == Active && ValidSid(sid)
      requires sems[sid].c > 0 ==> sems[sid].c + count <= SHRT_MAX
      requires count <= SHRT_MAX
      modifies this`tab, this`ready, this`sems
      ensures Inv() && tab[cur].state == Active
      ensures var w := old(sems)[sid].waiters;
        && sems == old(sems)[sid := Sem(true, old(sems)[sid].c + count, w[..StillAsleep(w, count)])]
        && (forall p {:trigger tab[p]} :: 0 <= p < |tab| ==> tab[p] == SignalledFrom(old(tab), w, StillAsleep(w, count), sid, p))
    {
      ghost var tab0, w0, c0 := tab, sems[sid].waiters, sems[sid].c;
      assert CountAt(sems, sid);
      assert w0[..|w0|] == w0 && w0[|w0|..] == [];
      for i := 0 to count
        invariant Inv() && ValidSid(sid) && tab[cur].state == Active && |tab| == |tab0|
        invariant sems == old(sems)[sid := Sem(true, c0 + i, w0[..StillAsleep(w0, i)])]
        invariant forall p {:trigger tab[p]} :: 0 <= p < |tab| ==> tab[p] == SignalledFrom(tab0, w0, StillAsleep(w0, i), sid, p)
      {
        assert CountAt(sems, sid);
        RaiseNext(sid, tab0, w0, StillAsleep(w0, i));
      }
    }

    /** One turn of that loop, with j of the waiters w still in the list. */
    method RaiseNext(sid: int, ghost tab0: Table, ghost w: seq<int>, ghost j: nat)
      requires Inv() && cur != 0 && tab[cur].state == Active && ValidSid(sid) && sems[sid].c < SHRT_MAX
      requires j <= |w| && sems[sid].waiters == w[..j] && |tab| == |tab0| && (sems[sid].c < 0 <==> j > 0)
      requires forall p {:trigger tab[p]} :: 0 <= p < |tab| ==> tab[p] == SignalledFrom(tab0, w, j, sid, p)
      modifies this`tab, this`ready, this`sems
      ensures Inv() && tab[cur].state == Active && |tab| == |tab0|
      ensures var k := if j > 0 then j - 1 else 0;
        && sems == old(sems)[sid := Sem(true, old(sems)[sid].c + 1, w[..k])]
        && (forall p {:trigger tab[p]} :: 0 <= p < |tab| ==> tab[p] == SignalledFrom(tab0, w, k, sid, p))
    {
      ghost var tab1 := tab;
      Raise(sid);
      if j > 0 {
        NextSignalled(tab0, tab1, tab, w, j, sid);
        assert DropLast(w[..j]) == w[..j - 1];
      }
    }

    /** The drain loop of sreset and sdelete, from the front of the list. */
    method WakeAll(sid: int, how: Ended)
      requires Draining(sid) && ValidSid(sid) && how != Pending && cur != 0 && tab[cur].state == Active
      modifies this`tab, this`ready, this`sems
      ensures Draining(sid) && tab[cur] == old(tab)[cur]
      ensures sems == old(sems)[sid := Sem(true, old(sems)[sid].c, [])]
      ensures forall p {:trigger tab[p]} :: 0 <= p < |tab| ==>
        tab[p] == if p in old(sems)[sid].waiters then Woken(old(tab)[p], sid, how) else old(tab)[p]
    {
      ghost var tab0, w0 := tab, sems[sid].waiters;
      ghost var n := 0;
      while sems[sid].waiters != []
        invariant Draining(sid) && ValidSid(sid) && tab[cur] == tab0[cur] && |tab| == |tab0|
        invariant 0 <= n <= |w0| && sems == old(sems)[sid := Sem(true, old(sems)[sid].c, w0[n..])]
        invariant forall p {:trigger tab[p]} :: 0 <= p < |tab| ==>
          tab[p] == if p in w0[..n] then Woken(tab0[p], sid, how) else tab0[p]
        decreases |sems[sid].waiters|
      {
        assert SleepersAt(tab, sems, sid);
        assert w0[n] in sems[sid].waiters && RemoveAt(w0[n..], 0) == w0[n + 1..];
        NotYet(tab, tab0, w0, n, sid, how);
        WakeWaiter(sid, 0, how);
        assert w0[..n + 1] == w0[..n] + [w0[n]];
        n := n + 1;
      }
      assert w0[..n] == w0;
    }

    /** sreset: a new counter; everybody who slept goes on and will be told so. */
    method SemReset(sid: int, count: int) returns (r: int)
      requires Running() && SHRT_MIN <= count <= SHRT_MAX
      modifies this`tab, this`cur, this`ready, this`sems
      ensures Inv() && Scheduled()
      ensures r == if !old(ValidSid(sid)) || count < 0 then -1 else 0
      ensures r != 0 ==> unchanged(this)
      ensures r == 0 ==> sems == old(sems)[sid := Sem(true, count, [])]
      ensures r == 0 ==> forall p {:trigger tab[p]} :: 1 <= p < |tab| ==>
        Switched(if p in old(sems)[sid].waiters then Woken(old(tab)[p], sid, WasReset) else old(tab)[p], tab[p])
    {
      if !ValidSid(sid) || count < 0 { return -1; }
      assert WaitAt(tab, cur);
      ghost var sems0 := sems;
      SleepersRecount(tab, sems, sid, sems[sid].(c := count));
      sems := sems[sid := sems[sid].(c := count)];
      CountsBut(sems0, freeSids, sid, sems[sid]);
      WakeAll(sid, WasReset);
      CountsBack(sems, sid);
      ghost var tab1 := tab;
      Reschedule();
      assert forall p {:trigger tab[p]} :: 0 <= p < |tab| ==> Switched(tab1[p], tab[p]);
      r := 0;
    }

    /** sdelete: everybody who slept goes on, and the descriptor is free again. */
    method SemDelete(sid: int) returns (r: int)
      requires Running()
      modifies this`tab, this`cur, this`ready, this`sems, this`freeSids
      ensures Inv() && Scheduled()
      ensures r == if !old(ValidSid(sid)) then -1 else 0
      ensures r != 0 ==> unchanged(this)
      ensures r == 0 ==> sems == old(sems)[sid := Sem(false, old(sems)[sid].c, [])] && freeSids == [sid] + old(freeSids)
      ensures r == 0 ==> forall p {:trigger tab[p]} :: 1 <= p < |tab| ==>
        Switched(if p in old(sems)[sid].waiters then Woken(old(tab)[p], sid, WasDeleted) else old(tab)[p], tab[p])
    {
      if !ValidSid(sid) { return -1; }
      assert WaitAt(tab, cur);
      CountsBut(sems, freeSids, sid, sems[sid]);
      assert sems[sid := sems[sid]] == sems;
      WakeAll(sid, WasDeleted);
      Retract(sid);
      ghost var tab1 := tab;
      Reschedule();
      assert forall p {:trigger tab[p]} :: 0 <= p < |tab| ==> Switched(tab1[p], tab[p]);
      r := 0;
    }

    method Retract(sid: int)
      requires Draining(sid) && ValidSid(sid) && sems[sid].waiters == []
      modifies this`sems, this`freeSids
      ensures Inv() && sems == old(sems)[sid := old(sems)[sid].(valid := false)] && freeSids == [sid] + old(freeSids)
    {
      ghost var sems0, free0 := sems, freeSids;
      SleepersRecount(tab, sems, sid, sems[sid].(valid := false));
      sems := sems[sid := sems[sid].(valid := false)];
      assert sid !in freeSids;
      assert [sid] + freeSids == InsertAt(freeSids, 0, sid);
      InsertAtFacts(freeSids, 0, sid);
      freeSids := [sid] + freeSids;
      forall t {:trigger CountAt(sems, t)} | 0 <= t < |sems| ensures CountAt(sems, t) { assert t !in {sid} ==> CountAt(sems0, t); }
      forall t {:trigger sems[t]} | 0 <= t < |sems| && !sems[t].valid ensures t in freeSids { assert t != sid ==> !sems0[t].valid; }
    }

    /** scount: the low byte of a negative counter is patched into 0xFFFF. */
    method SemCount(sid: int) returns (r: int)
      requires Running()
      ensures !ValidSid(sid) ==> r == -1
      ensures ValidSid(sid) ==> (r == sems[sid].c % 0x10000 <==> sems[sid].c >= -256)
      ensures ValidSid(sid) && nbproc <= 256 ==> r == sems[sid].c % 0x10000
    {
      if !ValidSid(sid) { return -1; }
      CounterBound(tab, sems, sid);
      assert CountAt(sems, sid);
      var c := sems[sid].c;
      if c < 0 {
        r := 0xFF00 + c % 256;
        PatchedCount(c);
      } else {
        r := c;
      }
    }
  }

  lemma BootState(tab: Table, ready: seq<int>, inc: seq<nat>, sems: seq<Sem>, free: seq<int>, next: nat)
    requires |tab| >= 2 && |inc| == |tab| == next && ready == [1]
    requires forall i {:trigger tab[i]} :: 0 <= i < |tab| ==> if i == 1 then
               tab[1] == Newborn(3, 0)
               else !tab[i].valid && tab[i].state == Dead
    requires forall i {:trigger inc[i]} :: 0 <= i < |inc| ==> inc[i] == i
    requires forall i {:trigger sems[i]} :: 0 <= i < |sems| ==> sems[i] == Sem(false, 0, [])
    requires |free| == |sems| && forall i {:trigger free[i]} :: 0 <= i < |free| ==> free[i] == |sems| - 1 - i
    ensures Queue(tab, ready) && OnlyActive(tab, 0) && Forest(tab, inc) && Waits(tab, {}) && Sleepers(tab, sems)
    ensures Counts(sems, {}) && FreeSids(sems, free) && Values(tab, inc, next, map[], {})
  {
    assert tab[1].valid;
    forall p | 1 <= p < |tab|
      ensures QueuedAt(tab, ready, p) && ActiveAt(tab, 0, p) && ForestAt(tab, inc, p) && ValueAt(tab, inc, map[], {}, p)
      ensures Live(tab[p]) ==> WaitAt(tab, p)
    {
      assert tab[p] == tab[p];
      forall c {:trigger IsChild(tab, c, p)} ensures !IsChild(tab, c, p) {
        assert 1 <= c < |tab| ==> tab[c] == tab[c];
      }
    }
    forall p, s {:trigger Sleeper(tab, p, s)} ensures !Sleeper(tab, p, s) { assert 1 <= p < |tab| ==> tab[p] == tab[p]; }
    forall s | 0 <= s < |sems| ensures SleepersAt(tab, sems, s) && CountAt(sems, s) { assert !sems[s].valid; }
    forall s {:trigger sems[s]} | 0 <= s < |sems| ensures s in free { assert free[|sems| - 1 - s] == s; }
  }

  /** The next sleeper joins behind everybody whom no sleeper exceeds. */
  lemma JoinedBehindAll(tab0: Table, tab1: Table, tab: Table, ready0: seq<int>, ready1: seq<int>, i: int)
    requires Queue(tab1, ready1) && |tab0| == |tab1| == |tab| && 1 <= i < |tab| && i !in ready1
    requires tab0[i].valid && tab0[i].state == Asleep && tab == tab1[i := tab1[i].(state := Activable)]
    requires forall p {:trigger Prio(tab1, p)} :: 1 <= p ==> Prio(tab1, p) == Prio(tab0, p)
    requires forall p {:trigger p in ready0} :: p in ready0 && NoSleeperAbove(tab0, Prio(tab0, p)) ==>
      p in ready1 && Ahead(ready1, p) == Ahead(ready0, p)
    ensures forall p {:trigger p in ready0} :: p in ready0 && NoSleeperAbove(tab0, Prio(tab0, p)) ==>
      p in QueueAdd(tab, ready1, i) && Ahead(QueueAdd(tab, ready1, i), p) == Ahead(ready0, p)
  {
    assert forall p {:trigger Prio(tab, p)} :: Prio(tab, p) == Prio(tab1, p);
    assert Ascending(tab, ready1);
    forall p {:trigger p in ready0} | p in ready0 && NoSleeperAbove(tab0, Prio(tab0, p))
      ensures p in QueueAdd(tab, ready1, i) && Ahead(QueueAdd(tab, ready1, i), p) == Ahead(ready0, p)
    {
      assert p in ready1 && SleepsBelow(tab0, i, Prio(tab0, p));
      assert Prio(tab1, p) == Prio(tab0, p) && Prio(tab1, i) == Prio(tab0, i);
      JoinsBehind(tab, ready1, i, p);
    }
  }

  /** What a tick does to the descriptors: the sleepers that are due are on the CPU side, the others sleep on. */
  lemma TickFacts(tab0: Table, tab1: Table, tab: Table, clock: int)
    requires |tab0| == |tab1| && AllSwitched(tab1, tab)
    requires forall p {:trigger tab1[p]} :: 1 <= p < |tab1| ==> tab1[p] == Roused(tab0[p], clock)
    ensures forall p {:trigger tab[p]} :: 1 <= p < |tab| ==> Switched(Roused(tab0[p], clock), tab[p])
    ensures forall p {:trigger tab[p]} :: 1 <= p < |tab| && tab0[p].valid && tab0[p].state == Asleep ==>
      if tab0[p].timer <= clock then OnCpuSide(tab[p]) else tab[p] == tab0[p]
    ensures forall p {:trigger Prio(tab1, p)} :: 1 <= p ==> Prio(tab1, p) == Prio(tab0, p)
    ensures forall p {:trigger Prio(tab, p)} :: 1 <= p ==> Prio(tab, p) == Prio(tab1, p)
  {
    forall p {:trigger tab[p]} | 1 <= p < |tab| ensures Switched(Roused(tab0[p], clock), tab[p]) {
      assert tab1[p] == Roused(tab0[p], clock);
    }
  }

  /** A tick, from the queue before the clock woke anybody to the queue after the switch. */
  lemma AfterTick(tab0: Table, ready0: seq<int>, cur0: int, tab1: Table, ready1: seq<int>, tab: Table, ready: seq<int>, cur: int)
    requires Queue(tab1, ready1) && TurnTaken(tab1, ready1, cur0, ready, cur) && |tab0| == |tab1| == |tab|
    requires 0 < cur0 < |tab1| && tab1[cur0].state == Active && cur0 !in ready1
    requires forall p {:trigger Prio(tab1, p)} :: 1 <= p ==> Prio(tab1, p) == Prio(tab0, p)
    requires forall p {:trigger Prio(tab, p)} :: 1 <= p ==> Prio(tab, p) == Prio(tab1, p)
    requires forall p {:trigger p in ready0} :: p in ready0 ==> 1 <= p
    requires forall p {:trigger p in ready0} :: p in ready0 && NoSleeperAbove(tab0, Prio(tab0, p)) ==>
      p in ready1 && Ahead(ready1, p) == Ahead(ready0, p)
    ensures cur == cur0 ==> forall p {:trigger p in ready} :: p in ready ==> Prio(tab, p) < Prio(tab, cur)
    ensures forall p {:trigger p in ready0} ::
      p in ready0 && Prio(tab0, p) >= Prio(tab0, cur0) && NoSleeperAbove(tab0, Prio(tab0, p)) ==>
        if Ahead(ready0, p) == [] then cur == p else p in ready && Ahead(ready, p) == DropLast(Ahead(ready0, p))
  {
    StaysOnlyAbove(tab1, ready1, cur0, ready, cur);
    assert cur == cur0 ==> ready == ready1;
    forall p {:trigger p in ready} | cur == cur0 && p in ready ensures Prio(tab, p) < Prio(tab, cur) {
      assert p in ready1;
      assert Prio(tab, p) == Prio(tab1, p) && Prio(tab, cur) == Prio(tab1, cur);
    }
    forall p {:trigger p in ready0} | p in ready0 && Prio(tab0, p) >= Prio(tab0, cur0) && NoSleeperAbove(tab0, Prio(tab0, p))
      ensures if Ahead(ready0, p) == [] then cur == p else p in ready && Ahead(ready, p) == DropLast(Ahead(ready0, p))
    {
      assert Prio(tab1, p) == Prio(tab0, p) && Prio(tab1, cur0) == Prio(tab0, cur0);
      WaiterMovesUp(tab1, ready1, cur0, ready, cur, p);
    }
  }

  lemma PatchedCount(c: int)
    requires -0x8000 <= c < 0
    ensures 0xFF00 + c % 256 == c % 0x10000 <==> c >= -256
  {
    assert c % 0x10000 == c + 0x10000;
    if c >= -256 {
      assert (c + 256) / 256 == 0 || c == -256;
    }
  }

  lemma NotYet(tab: Table, tab0: Table, w: seq<int>, n: nat, s: int, how: Ended)
    requires n < |w| && |tab| == |tab0| && Sleeper(tab, w[n], s) && how != Pending
    requires forall p {:trigger tab[p]} :: 0 <= p < |tab| ==> tab[p] == if p in w[..n] then Woken(tab0[p], s, how) else tab0[p]
    ensures w[n] !in w[..n]
  {
    assert tab[w[n]].state == WaitSem;
  }

  lemma SemShrink(sems: seq<Sem>, free: seq<int>, s: int, ns: Sem)
    requires Counts(sems, {s}) && FreeSids(sems, free) && 0 <= s < |sems| && sems[s].valid && ns.valid
    ensures Counts(sems[s := ns], {s}) && FreeSids(sems[s := ns], free)
  {
    var sems' := sems[s := ns];
    forall t {:trigger CountAt(sems', t)} | 0 <= t < |sems'| && t !in {s} ensures CountAt(sems', t) { assert CountAt(sems, t); }
    forall t {:trigger sems'[t]} | 0 <= t < |sems'| && !sems'[t].valid ensures t in free { assert !sems[t].valid; }
  }

  lemma CountsBut(sems: seq<Sem>, free: seq<int>, s: int, ns: Sem)
    requires Counts(sems, {}) && FreeSids(sems, free) && 0 <= s < |sems| && sems[s].valid && ns.valid
    ensures Counts(sems[s := ns], {s}) && FreeSids(sems[s := ns], free)
  {
    forall t {:trigger CountAt(sems, t)} | 0 <= t < |sems| && t !in {s} ensures CountAt(sems, t) {}
    SemShrink(sems, free, s, ns);
  }

  lemma CountsBack(sems: seq<Sem>, s: int)
    requires Counts(sems, {s}) && 0 <= s < |sems| && CountAt(sems, s)
    ensures Counts(sems, {})
  {
    forall t {:trigger CountAt(sems, t)} | 0 <= t < |sems| ensures CountAt(sems, t) { assert t != s ==> t !in {s}; }
  }

  lemma SemUpdate(sems: seq<Sem>, free: seq<int>, s: int, ns: Sem)
    requires Counts(sems, {s}) && FreeSids(sems, free) && 0 <= s < |sems| && sems[s].valid && ns.valid
    requires |ns.waiters| == (if ns.c < 0 then -ns.c else 0) && ns.c <= SHRT_MAX
    ensures Counts(sems[s := ns], {}) && FreeSids(sems[s := ns], free)
  {
    var sems' := sems[s := ns];
    forall t {:trigger CountAt(sems', t)} | 0 <= t < |sems'| ensures CountAt(sems', t) { assert t != s ==> CountAt(sems, t); }
    forall t {:trigger sems'[t]} | 0 <= t < |sems'| && !sems'[t].valid ensures t in free { assert !sems[t].valid; }
  }

  lemma TakenSid(sems: seq<Sem>, free: seq<int>, s: int, ns: Sem)
    requires FreeSids(sems, free) && free != [] && s == free[0] && ns.valid
    ensures 0 <= s < |sems| && FreeSids(sems[s := ns], free[1..])
  {
    assert free[0] in free;
    var sems' := sems[s := ns];
    forall t {:trigger sems'[t]} | 0 <= t < |sems'| && !sems'[t].valid ensures t in free[1..] {
      assert !sems[t].valid;
      var k := IndexOf(free, t);
      assert free[1..][k - 1] == t;
    }
    forall t {:trigger t in free[1..]} | t in free[1..] ensures 0 <= t < |sems'| && !sems'[t].valid {
      assert free[1..][IndexOf(free[1..], t)] == t && free[IndexOf(free[1..], t) + 1] == t;
      assert t in free && t != s;
    }
  }

  /** The verdict on a kill, once the scheduler has run: the waits, the lists and the counts stand iff it was clean. */
  lemma AfterKill(tab0: Table, tab1: Table, tab: Table, inc: seq<nat>, sems: seq<Sem>, next: nat, final: map<nat, int>,
                  reaped: set<nat>, pid: int)
    requires AllSwitched(tab1, tab) && Forest(tab1, inc) && Values(tab1, inc, next, final, reaped)
    requires 2 <= pid < |tab0| == |tab1|
    requires tab1[pid].state == (if tab0[pid].parent > 1 then Zombie else Dead) && tab1[pid].parent == tab0[pid].parent
    requires CleanKill(tab0, pid) ==> Waits(tab1, {}) && Sleepers(tab1, sems)
    requires FatherWaits(tab0, pid) && tab0[tab0[pid].parent].pidWait == -1 ==> Lost(tab1, tab0[pid].parent)
    requires Counts(sems, {}) <==> tab0[pid].state != WaitSem
    ensures CleanKill(tab0, pid) <==> Waits(tab, {}) && Sleepers(tab, sems) && Counts(sems, {})
    ensures !Live(tab[pid]) && tab[pid].parent == tab0[pid].parent && (tab[pid].parent > 1 ==> tab[pid].state == Zombie)
  {
    assert Switched(tab1[pid], tab[pid]);
    if CleanKill(tab0, pid) {
      SwitchKeeps(tab1, tab, inc, sems, next, final, reaped);
    } else if tab0[pid].state != WaitSem {
      var f := tab0[pid].parent;
      assert Switched(tab1[f], tab[f]);
      UntoldFatherIsLost(tab, f);
    }
  }

  ghost predicate Lost(tab: Table, f: int) {
    1 <= f < |tab| && Live(tab[f]) && OnCpuSide(tab[f]) && tab[f].resume == InWaitAny && tab[f].pidWait == -1
  }

  lemma LostFather(tab0: Table, tab1: Table, tab: Table, inc: seq<nat>, p: int)
    requires Forest(tab0, inc) && Waits(tab0, {}) && 2 <= p < |tab0| == |tab1| == |tab| && Live(tab0[p])
    requires FatherWaits(tab0, p) ==> tab1[tab0[p].parent] == tab0[tab0[p].parent].(state := Activable)
    requires forall q {:trigger tab[q]} :: 0 <= q < |tab| && q != p ==> Orphaned(tab1[q], tab[q])
    ensures FatherWaits(tab0, p) && tab0[tab0[p].parent].pidWait == -1 ==> Lost(tab, tab0[p].parent)
  {
    var f := tab0[p].parent;
    if FatherWaits(tab0, p) && tab0[f].pidWait == -1 {
      FatherIsOther(tab0, inc, p);
      assert WaitAt(tab0, f) && Orphaned(tab1[f], tab[f]);
    }
  }

  lemma CoreSwitch(tab: Table, tab': Table, inc: seq<nat>, next: nat, final: map<nat, int>, reaped: set<nat>)
    requires AllSwitched(tab, tab') && Forest(tab, inc) && Values(tab, inc, next, final, reaped)
    ensures Forest(tab', inc) && Values(tab', inc, next, final, reaped)
  {
    ForestFrame(tab, tab', inc);
    ValuesFrame(tab, tab', inc, next, final, reaped);
  }

  lemma FatherIsOther(tab: Table, inc: seq<nat>, p: int)
    requires Forest(tab, inc) && 2 <= p < |tab| && Live(tab[p])
    ensures 1 <= tab[p].parent < |tab| && tab[p].parent != p && Live(tab[tab[p].parent])
  {
    assert ForestAt(tab, inc, p);
  }

  lemma FatherAsleep(tab: Table, inc: seq<nat>, sems: seq<Sem>, next: nat, final: map<nat, int>, reaped: set<nat>, p: int)
    requires Forest(tab, inc) && Waits(tab, {}) && Sleepers(tab, sems) && Values(tab, inc, next, final, reaped)
    requires 2 <= p < |tab| && Live(tab[p])
    ensures Dying(tab, inc, sems, next, final, reaped, p, tab[p].children, {p})
  {
    assert tab[p := tab[p].(children := tab[p].children)] == tab;
    forall q | 1 <= q < |tab| && q !in {p} && Live(tab[q]) ensures WaitAt(tab, q) {}
  }

  lemma WokenFather(tab: Table, inc: seq<nat>, sems: seq<Sem>, next: nat, final: map<nat, int>, reaped: set<nat>, p: int, f: int, nf: Proc)
    requires Forest(tab, inc) && Waits(tab, {}) && Sleepers(tab, sems) && Values(tab, inc, next, final, reaped)
    requires 2 <= p < |tab| && Live(tab[p]) && 2 <= f < |tab| && f != p && Live(tab[f]) && tab[f].state == WaitChild
    requires nf == tab[f].(state := Activable, pidWait := nf.pidWait)
    ensures Dying(tab[f := nf], inc, sems, next, final, reaped, p, tab[p].children, {p, f})
  {
    var tab' := tab[f := nf];
    assert tab'[p := tab'[p].(children := tab[p].children)] == tab';
    ForestFrame(tab, tab', inc);
    WaitsLocal(tab, {}, f, nf);
    forall q | 1 <= q < |tab'| && q !in {p, f} && Live(tab'[q]) ensures WaitAt(tab', q) { assert q !in {} + {f}; }
    forall q, s {:trigger Sleeper(tab', q, s)} ensures Sleeper(tab', q, s) <==> Sleeper(tab, q, s) {}
    SleepersFrame(tab, tab', sems);
    ValuesFrame(tab, tab', inc, next, final, reaped);
  }

  lemma WaitsRestoreTwo(tab: Table, except: set<int>, f: int, p: int)
    requires Waits(tab, except + {f}) && except <= {f, p} && 1 <= p < |tab| && 1 <= f < |tab| && !Live(tab[p])
    requires f != p ==> Live(tab[f]) ==> WaitAt(tab, f)
    ensures Waits(tab, {})
  {
    forall q | 1 <= q < |tab| && Live(tab[q]) ensures WaitAt(tab, q) {
      if q != f { assert q !in except + {f}; }
    }
  }

  lemma FatherUnmoved(tab0: Table, tab: Table, inc: seq<nat>, p: int)
    requires AllOrphaned(tab0, tab, p) && 2 <= p < |tab| && Live(tab[p]) && tab[p].parent > 1
    requires Forest(tab0[p := tab0[p].(children := tab0[p].children)], inc)
    ensures tab[p].parent < |tab| && tab[tab[p].parent] == tab0[tab[p].parent]
  {
    assert tab0[p := tab0[p].(children := tab0[p].children)] == tab0;
    assert ForestAt(tab0, inc, p) && tab[p] == tab0[p];
    var f := tab0[p].parent;
    assert ForestAt(tab0, inc, f);
  }

  lemma BlockedChildWait(tab: Table, p: int, np: Proc)
    requires 1 <= p < |tab| && WaitAt(tab, p) && tab[p].resume == Idle && Listed(tab[p]) && tab[p].state != Zombie
    requires np == tab[p].(state := WaitChild, pidWait := np.pidWait, resume := np.resume)
    requires (np.resume == InWaitAny && np.pidWait == -1) || (np.resume == InWaitPid(np.pidWait) && np.pidWait > 0)
    requires np.resume == InWaitAny && p > 1 ==> forall c {:trigger ZombieChild(tab, c, p)} :: !ZombieChild(tab, c, p)
    requires np.resume != InWaitAny && p > 1 ==> IsChild(tab, np.pidWait, p) && !ZombieChild(tab, np.pidWait, p)
    ensures WaitAt(tab[p := np], p)
  {
    var tab' := tab[p := np];
    forall c {:trigger ZombieChild(tab', c, p)} ensures ZombieChild(tab', c, p) <==> ZombieChild(tab, c, p) {}
    assert ZombieChild(tab', np.pidWait, p) <==> ZombieChild(tab, np.pidWait, p);
    assert IsChild(tab, np.pidWait, p) ==> IsChild(tab', np.pidWait, p);
  }

  lemma TopIsMaximal(tab: Table, ready: seq<int>)
    requires Queue(tab, ready) && ready != []
    ensures forall p {:trigger p in ready} :: p in ready ==> Prio(tab, p) <= Prio(tab, ready[|ready| - 1])
    ensures forall p {:trigger p in QueueDel(ready, ready[|ready| - 1])} :: p in QueueDel(ready, ready[|ready| - 1]) ==> p in ready
  {
    forall p {:trigger p in ready} | p in ready ensures Prio(tab, p) <= Prio(tab, ready[|ready| - 1]) {
      var k := IndexOf(ready, p);
      assert Prio(tab, ready[k]) <= Prio(tab, ready[|ready| - 1]);
    }
    RemoveAtFacts(ready, IndexOf(ready, ready[|ready| - 1]));
  }
}
