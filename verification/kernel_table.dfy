/**
  Invariants of the process table and of the semaphores (kernel/sys.c, kernel/context.c, kernel/semaphore.c):
  the process forest, what every blocked process is waiting for, the semaphore waiter lists, and the values
  zombies hold for their parents.
 */
module ProcessTable {
  import opened Sequences
  import opened ProcessQueue

  // ---------------------------------------------------------------- process forest

  predicate Live(p: Proc) {
    p.valid && p.state != Zombie && p.state != Dead
  }

  /** Still somebody's child: alive, or a zombie that waits to be reaped. */
  predicate Listed(p: Proc) {
    p.valid && p.state != Dead
  }

  predicate IsChild(tab: Table, c: int, p: int) {
    1 <= c < |tab| && Listed(tab[c]) && tab[c].parent == p
  }

  predicate ZombieChild(tab: Table, c: int, p: int) {
    IsChild(tab, c, p) && tab[c].state == Zombie
  }

  /** The child list of p is exactly the set of valid, non-dead processes naming p as parent. */
  ghost predicate KidsAt(tab: Table, p: int)
    requires 1 <= p < |tab|
  {
    && NoDup(tab[p].children)
    && (forall c {:trigger c in tab[p].children} :: c in tab[p].children ==> IsChild(tab, c, p))
    && (forall c {:trigger IsChild(tab, c, p)} :: IsChild(tab, c, p) ==> c in tab[p].children)
  }

  /** Init lives; everybody else has a live parent of an older incarnation; zombies are never left to Init. */
  ghost predicate ParentAt(tab: Table, inc: seq<nat>, p: int)
    requires 1 <= p < |tab| == |inc|
  {
    if p == 1 then Live(tab[1]) && tab[1].parent == 0
    else Listed(tab[p]) ==>
      && 1 <= tab[p].parent < |tab| && Live(tab[tab[p].parent])
      && inc[tab[p].parent] < inc[p]
      && (tab[p].state == Zombie ==> tab[p].parent > 1)
  }

  ghost predicate ForestAt(tab: Table, inc: seq<nat>, p: int)
    requires 1 <= p < |tab| == |inc|
  {
    ParentAt(tab, inc, p) && (Live(tab[p]) ==> KidsAt(tab, p))
  }

  ghost predicate Forest(tab: Table, inc: seq<nat>) {
    && 2 <= |tab| == |inc|
    && forall p {:trigger ForestAt(tab, inc, p)} :: 1 <= p < |tab| ==> ForestAt(tab, inc, p)
  }

  /** The k-th process of a path is a live process and the parent of the one before it. */
  ghost predicate ParentStep(tab: Table, path: seq<int>, k: int) {
    && 1 <= k < |path| && 1 <= path[k - 1] < |tab| && 1 <= path[k] < |tab|
    && path[k] == tab[path[k - 1]].parent && Live(tab[path[k]])
  }

  /** Following parents from any listed process leads through live processes to Init: the table is one tree. */
  lemma {:induction false} AncestryEndsAtInit(tab: Table, inc: seq<nat>, p: int) returns (path: seq<int>)
    requires Forest(tab, inc) && 1 <= p < |tab| && Listed(tab[p])
    ensures |path| >= 1 && path[0] == p && path[|path| - 1] == 1
    ensures forall k {:trigger ParentStep(tab, path, k)} :: 1 <= k < |path| ==> ParentStep(tab, path, k)
    decreases inc[p]
  {
    assert ForestAt(tab, inc, p);
    if p == 1 { return [1]; }
    var above := AncestryEndsAtInit(tab, inc, tab[p].parent);
    path := [p] + above;
    forall k | 1 <= k < |path| ensures ParentStep(tab, path, k) {
      if k > 1 { assert ParentStep(tab, above, k - 1); }
    }
  }

  /** The part of a descriptor the forest depends on. */
  predicate SameKin(a: Proc, b: Proc) {
    Live(a) == Live(b) && Listed(a) == Listed(b) && a.parent == b.parent && (Live(a) ==> a.children == b.children)
  }

  lemma ForestFrame(tab: Table, tab': Table, inc: seq<nat>)
    requires Forest(tab, inc) && |tab'| == |tab|
    requires forall p {:trigger tab'[p]} :: 1 <= p < |tab| ==> SameKin(tab[p], tab'[p])
    ensures Forest(tab', inc)
  {
    forall p | 1 <= p < |tab'| ensures ForestAt(tab', inc, p) {
      assert ForestAt(tab, inc, p) && SameKin(tab[p], tab'[p]);
      assert 1 <= tab[p].parent < |tab| ==> SameKin(tab[tab[p].parent], tab'[tab'[p].parent]);
      if Live(tab[p]) {
        forall c {:trigger IsChild(tab', c, p)} ensures IsChild(tab', c, p) <==> IsChild(tab, c, p) {
          assert 1 <= c < |tab| ==> SameKin(tab[c], tab'[c]);
        }
      }
    }
  }

  /** start: a new process in a free slot, put at the head of its creator's child list. */
  lemma ForestBirth(tab: Table, inc: seq<nat>, p: int, i: int, np: Proc, id: nat)
    requires Forest(tab, inc) && 1 <= p < |tab| && Live(tab[p])
    requires 2 <= i < |tab| && !tab[i].valid && Live(np) && np.parent == p && np.children == []
    requires forall q {:trigger inc[q]} :: 0 <= q < |inc| ==> inc[q] < id
    ensures Forest(tab[p := tab[p].(children := [i] + tab[p].children)][i := np], inc[i := id])
  {
    var tab', inc' := tab[p := tab[p].(children := [i] + tab[p].children)][i := np], inc[i := id];
    assert ForestAt(tab, inc, p);
    assert inc[p] < id;
    forall q | 1 <= q < |tab'| ensures ForestAt(tab', inc', q) {
      assert ForestAt(tab, inc, q);
      if q != i && Live(tab'[q]) {
        forall c {:trigger IsChild(tab', c, q)} ensures IsChild(tab', c, q) <==> IsChild(tab, c, q) || (c == i && q == p) {}
        assert i !in tab[q].children by { assert i in tab[q].children ==> IsChild(tab, i, q); }
        if q == p { assert tab'[q].children == InsertAt(tab[p].children, 0, i); InsertAtFacts(tab[p].children, 0, i); }
      } else if q == i {
        forall c {:trigger IsChild(tab', c, i)} ensures !IsChild(tab', c, i) {
          assert 1 <= c < |tab| ==> ForestAt(tab, inc, c);
        }
      }
    }
  }

  /** A child without children of its own leaves the table and its parent's list. */
  lemma ForestDeath(tab: Table, inc: seq<nat>, p: int, c: int, nc: Proc)
    requires Forest(tab, inc) && 1 <= p < |tab| && Live(tab[p]) && IsChild(tab, c, p) && c != 1
    requires Live(tab[c]) ==> forall q {:trigger IsChild(tab, q, c)} :: !IsChild(tab, q, c)
    requires !Listed(nc)
    ensures p != c
    ensures Forest(tab[c := nc][p := tab[p].(children := Without(tab[p].children, c))], inc)
  {
    assert ForestAt(tab, inc, c) && ForestAt(tab, inc, p);
    var tab' := tab[c := nc][p := tab[p].(children := Without(tab[p].children, c))];
    WithoutFacts(tab[p].children, c);
    forall q | 1 <= q < |tab'| ensures ForestAt(tab', inc, q) {
      assert ForestAt(tab, inc, q);
      assert Live(tab[c]) ==> !IsChild(tab, q, c);
      if q != c && Live(tab'[q]) {
        forall d {:trigger IsChild(tab', d, q)} ensures IsChild(tab', d, q) <==> IsChild(tab, d, q) && d != c {}
      }
    }
  }

  /** A live child whose parent dies is handed to Init. */
  lemma ForestAdopt(tab: Table, inc: seq<nat>, p: int, c: int)
    requires Forest(tab, inc) && 2 <= p < |tab| && Live(tab[p]) && IsChild(tab, c, p) && Live(tab[c])
    requires inc[1] < inc[c]
    ensures c != 1 && c != p
    ensures Forest(tab[c := tab[c].(parent := 1)][p := tab[p].(children := Without(tab[p].children, c))]
                      [1 := tab[1].(children := [c] + tab[1].children)], inc)
  {
    assert ForestAt(tab, inc, c) && ForestAt(tab, inc, p) && ForestAt(tab, inc, 1);
    var tab' := tab[c := tab[c].(parent := 1)][p := tab[p].(children := Without(tab[p].children, c))]
                   [1 := tab[1].(children := [c] + tab[1].children)];
    WithoutFacts(tab[p].children, c);
    assert c !in tab[1].children by { assert c in tab[1].children ==> IsChild(tab, c, 1); }
    assert tab'[1].children == InsertAt(tab[1].children, 0, c);
    InsertAtFacts(tab[1].children, 0, c);
    forall q | 1 <= q < |tab'| ensures ForestAt(tab', inc, q) {
      assert ForestAt(tab, inc, q);
      if Live(tab'[q]) {
        forall d {:trigger IsChild(tab', d, q)}
          ensures IsChild(tab', d, q) <==> if d == c then q == 1 else IsChild(tab, d, q)
        {}
      }
    }
  }

  /** A childless process becomes a zombie of a live parent other than Init. */
  lemma ForestZombie(tab: Table, inc: seq<nat>, p: int, np: Proc)
    requires Forest(tab, inc) && 2 <= p < |tab| && Live(tab[p]) && tab[p].parent > 1
    requires forall q {:trigger IsChild(tab, q, p)} :: !IsChild(tab, q, p)
    requires np.valid && np.state == Zombie && np.parent == tab[p].parent
    ensures Forest(tab[p := np], inc)
  {
    var tab' := tab[p := np];
    assert ForestAt(tab, inc, p);
    forall q | 1 <= q < |tab'| ensures ForestAt(tab', inc, q) {
      assert ForestAt(tab, inc, q);
      assert !IsChild(tab, q, p);
      if Live(tab'[q]) {
        forall d {:trigger IsChild(tab', d, q)} ensures IsChild(tab', d, q) <==> IsChild(tab, d, q) {}
      }
    }
  }

  // ---------------------------------------------------------------- what blocked processes wait for

  predicate OnCpuSide(p: Proc) {
    p.state == Active || p.state == Activable
  }

  /**
    A process inside waitpid is blocked on a living child, or has been woken and the zombie it will reap is
    still there. (Init is the exception: nobody ever wakes it from waitpid.) A process inside wait is asleep
    on that semaphore or has been woken in one of three ways, which its flags record.
   */
  ghost predicate WaitAt(tab: Table, p: int)
    requires 1 <= p < |tab|
  {
    var d := tab[p];
    && (match d.resume
        case Idle => OnCpuSide(d) || d.state == Asleep || d.state == WaitIO
        case InWaitAny =>
          if d.state == WaitChild then d.pidWait == -1 && (p > 1 ==> forall c {:trigger ZombieChild(tab, c, p)} :: !ZombieChild(tab, c, p))
          else OnCpuSide(d) && ZombieChild(tab, d.pidWait, p)
        case InWaitPid(c) =>
          if d.state == WaitChild then d.pidWait == c && c > 0 && (p > 1 ==> IsChild(tab, c, p) && !ZombieChild(tab, c, p))
          else OnCpuSide(d) && ZombieChild(tab, c, p)
        case InWaitSem(s, e) =>
          if d.state == WaitSem then d.sidWait == s && e == Pending
          else OnCpuSide(d) && e != Pending)
    && FlagsAgree(d)
  }

  /**
    The flags against how the waits of this incarnation have ended so far: the reset flag is up only until the
    wait returns, the deletion flag stays up once any wait has been ended by sdelete.
   */
  predicate FlagsAgree(d: Proc) {
    && (d.sidReset <==> d.resume.InWaitSem? && d.resume.ended == WasReset)
    && (d.sidDeleted <==> WasDeleted in d.history)
    && (d.resume.InWaitSem? && d.resume.ended != Pending ==> d.history != [] && d.history[|d.history| - 1] == d.resume.ended)
  }

  ghost predicate Waits(tab: Table, except: set<int>) {
    forall p {:trigger WaitAt(tab, p)} :: 1 <= p < |tab| && p !in except && Live(tab[p]) ==> WaitAt(tab, p)
  }

  /** Init never has a zombie to reap: children of Init die at once. */
  lemma NoZombieUnderInit(tab: Table, inc: seq<nat>, c: int)
    requires Forest(tab, inc)
    ensures !ZombieChild(tab, c, 1)
  {
    assert ForestAt(tab, inc, 1);
    assert 1 <= c < |tab| ==> ForestAt(tab, inc, c);
  }

  predicate InWaitpid(p: Proc) { p.resume.InWaitAny? || p.resume.InWaitPid? }

  /** Init inside waitpid is always blocked there, since nothing could wake it. */
  lemma InitStaysBlocked(tab: Table, inc: seq<nat>)
    requires Forest(tab, inc) && Waits(tab, {}) && InWaitpid(tab[1])
    ensures tab[1].state == WaitChild
  {
    assert ForestAt(tab, inc, 1) && WaitAt(tab, 1);
    NoZombieUnderInit(tab, inc, tab[1].pidWait);
    if tab[1].resume.InWaitPid? { NoZombieUnderInit(tab, inc, tab[1].resume.child); }
  }

  /** The waits of p look at its own descriptor and at which of its children are zombies. */
  lemma WaitFrame(tab: Table, tab': Table, p: int)
    requires |tab'| == |tab| && 1 <= p < |tab| && WaitAt(tab, p)
    requires tab'[p].resume == tab[p].resume && tab'[p].pidWait == tab[p].pidWait && tab'[p].sidWait == tab[p].sidWait
    requires tab'[p].sidReset == tab[p].sidReset && tab'[p].sidDeleted == tab[p].sidDeleted && tab'[p].history == tab[p].history
    requires tab'[p].state == tab[p].state || (OnCpuSide(tab[p]) && OnCpuSide(tab'[p]))
    requires forall c {:trigger ZombieChild(tab', c, p)} :: ZombieChild(tab', c, p) <==> ZombieChild(tab, c, p)
    requires p > 1 ==> forall c {:trigger IsChild(tab', c, p)} :: IsChild(tab, c, p) ==> IsChild(tab', c, p)
    ensures WaitAt(tab', p)
  {
    assert ZombieChild(tab', tab[p].pidWait, p) <==> ZombieChild(tab, tab[p].pidWait, p);
    if tab[p].resume.InWaitPid? {
      var c := tab[p].resume.child;
      assert ZombieChild(tab', c, p) <==> ZombieChild(tab, c, p);
      assert p > 1 && IsChild(tab, c, p) ==> IsChild(tab', c, p);
    }
  }

  /** One descriptor changes without changing who is whose zombie: every other wait stands. */
  lemma WaitsLocal(tab: Table, except: set<int>, p: int, np: Proc)
    requires Waits(tab, except) && 1 <= p < |tab|
    requires Listed(np) == Listed(tab[p]) && (np.state == Zombie <==> tab[p].state == Zombie) && np.parent == tab[p].parent
    ensures Waits(tab[p := np], except + {p})
  {
    var tab' := tab[p := np];
    forall q | 1 <= q < |tab'| && q !in except + {p} && Live(tab'[q]) ensures WaitAt(tab', q) {
      assert WaitAt(tab, q);
      WaitFrame(tab, tab', q);
    }
  }

  lemma WaitsRestore(tab: Table, except: set<int>, p: int)
    requires Waits(tab, except + {p}) && 1 <= p < |tab| && (Live(tab[p]) ==> WaitAt(tab, p))
    ensures Waits(tab, except)
  {
    forall q | 1 <= q < |tab| && q !in except && Live(tab[q]) ensures WaitAt(tab, q) {}
  }

  // ---------------------------------------------------------------- semaphores

  const SHRT_MAX: int := 32767
  const SHRT_MIN: int := -32768

  datatype Sem = Sem(valid: bool, c: int, waiters: seq<int>)

  predicate Sleeper(tab: Table, p: int, s: int) {
    1 <= p < |tab| && Live(tab[p]) && tab[p].state == WaitSem && tab[p].sidWait == s
  }

  /** A pid is in the waiter list of s iff it sleeps on s. */
  ghost predicate SleepersAt(tab: Table, sems: seq<Sem>, s: int)
    requires 0 <= s < |sems|
  {
    if sems[s].valid then
      && NoDup(sems[s].waiters)
      && (forall p {:trigger p in sems[s].waiters} :: p in sems[s].waiters ==> Sleeper(tab, p, s))
      && (forall p {:trigger Sleeper(tab, p, s)} :: Sleeper(tab, p, s) ==> p in sems[s].waiters)
    else forall p {:trigger Sleeper(tab, p, s)} :: !Sleeper(tab, p, s)
  }

  ghost predicate Sleepers(tab: Table, sems: seq<Sem>) {
    && (forall s {:trigger SleepersAt(tab, sems, s)} :: 0 <= s < |sems| ==> SleepersAt(tab, sems, s))
    && (forall p, s {:trigger Sleeper(tab, p, s)} :: Sleeper(tab, p, s) ==> 0 <= s < |sems|)
  }

  /** The counter of a semaphore is minus the number of waiters, or the number of free passes. */
  ghost predicate CountAt(sems: seq<Sem>, s: int)
    requires 0 <= s < |sems|
  {
    sems[s].valid ==> |sems[s].waiters| == (if sems[s].c < 0 then -sems[s].c else 0) && sems[s].c <= SHRT_MAX
  }

  ghost predicate Counts(sems: seq<Sem>, except: set<int>) {
    forall s {:trigger CountAt(sems, s)} :: 0 <= s < |sems| && s !in except ==> CountAt(sems, s)
  }

  ghost predicate FreeSids(sems: seq<Sem>, free: seq<int>) {
    && NoDup(free)
    && (forall s {:trigger s in free} :: s in free ==> 0 <= s < |sems| && !sems[s].valid)
    && (forall s {:trigger sems[s]} :: 0 <= s < |sems| && !sems[s].valid ==> s in free)
  }

  lemma SleepersFrame(tab: Table, tab': Table, sems: seq<Sem>)
    requires Sleepers(tab, sems) && |tab'| == |tab|
    requires forall p, s {:trigger Sleeper(tab', p, s)} :: Sleeper(tab', p, s) <==> Sleeper(tab, p, s)
    ensures Sleepers(tab', sems)
  {
    forall s | 0 <= s < |sems| ensures SleepersAt(tab', sems, s) {
      assert SleepersAt(tab, sems, s);
      forall p {:trigger p in sems[s].waiters} | p in sems[s].waiters ensures sems[s].valid ==> Sleeper(tab', p, s) {
        assert Sleeper(tab', p, s) <==> Sleeper(tab, p, s);
      }
    }
  }

  /** wait: the caller goes to sleep at the front of the list. */
  lemma SleepersJoin(tab: Table, sems: seq<Sem>, s: int, p: int, np: Proc, c: int)
    requires Sleepers(tab, sems) && 0 <= s < |sems| && sems[s].valid
    requires 1 <= p < |tab| && Live(np) && np.state == WaitSem && np.sidWait == s && tab[p].state != WaitSem
    ensures Sleepers(tab[p := np], sems[s := Sem(true, c, [p] + sems[s].waiters)])
  {
    var tab', sems' := tab[p := np], sems[s := Sem(true, c, [p] + sems[s].waiters)];
    forall q, t {:trigger Sleeper(tab', q, t)} ensures Sleeper(tab', q, t) <==> if q == p then t == s else Sleeper(tab, q, t) {}
    forall t | 0 <= t < |sems'| ensures SleepersAt(tab', sems', t) {
      assert SleepersAt(tab, sems, t);
      if t == s {
        assert p !in sems[s].waiters by { assert p in sems[s].waiters ==> Sleeper(tab, p, s); }
        assert sems'[s].waiters == InsertAt(sems[s].waiters, 0, p);
        InsertAtFacts(sems[s].waiters, 0, p);
      }
      if sems[t].valid {
        forall q {:trigger q in sems'[t].waiters} | q in sems'[t].waiters ensures Sleeper(tab', q, t) {
          assert q != p ==> q in sems[t].waiters;
        }
      }
    }
  }

  /** A waiter at position k is taken off the list and woken. */
  lemma SleepersLeave(tab: Table, sems: seq<Sem>, s: int, k: nat, np: Proc, c: int)
    requires Sleepers(tab, sems) && 0 <= s < |sems| && sems[s].valid && k < |sems[s].waiters|
    requires np.state != WaitSem
    ensures var p := sems[s].waiters[k];
            && Sleeper(tab, p, s)
            && Sleepers(tab[p := np], sems[s := Sem(true, c, RemoveAt(sems[s].waiters, k))])
  {
    var p := sems[s].waiters[k];
    assert SleepersAt(tab, sems, s) && p in sems[s].waiters;
    var tab', sems' := tab[p := np], sems[s := Sem(true, c, RemoveAt(sems[s].waiters, k))];
    RemoveAtFacts(sems[s].waiters, k);
    forall q, t {:trigger Sleeper(tab', q, t)} ensures Sleeper(tab', q, t) <==> q != p && Sleeper(tab, q, t) {}
    forall t | 0 <= t < |sems'| ensures SleepersAt(tab', sems', t) {
      assert SleepersAt(tab, sems, t);
      if sems[t].valid {
        forall q {:trigger q in sems'[t].waiters} | q in sems'[t].waiters ensures Sleeper(tab', q, t) {
          assert q in sems[t].waiters && Sleeper(tab, q, t);
        }
      }
    }
  }

  /** Only the counter or the validity of a semaphore without waiters changes. */
  lemma SleepersRecount(tab: Table, sems: seq<Sem>, s: int, ns: Sem)
    requires Sleepers(tab, sems) && 0 <= s < |sems|
    requires ns.waiters == sems[s].waiters || !sems[s].valid
    requires ns.valid == sems[s].valid || (ns.waiters == [] && (sems[s].valid ==> sems[s].waiters == []))
    ensures Sleepers(tab, sems[s := ns])
  {
    var sems' := sems[s := ns];
    forall t | 0 <= t < |sems'| ensures SleepersAt(tab, sems', t) {
      assert SleepersAt(tab, sems, t);
      if t == s && sems[s].valid && !ns.valid {
        forall p {:trigger Sleeper(tab, p, s)} ensures !Sleeper(tab, p, s) {}
      }
    }
  }

  /** The waiters of one semaphore are distinct processes, so no counter falls below minus the table size. */
  lemma CounterBound(tab: Table, sems: seq<Sem>, s: int)
    requires Sleepers(tab, sems) && Counts(sems, {}) && 0 <= s < |sems| && sems[s].valid && |tab| >= 1
    ensures sems[s].c >= -(|tab| - 1)
  {
    assert SleepersAt(tab, sems, s) && CountAt(sems, s);
    var w := sems[s].waiters;
    forall k {:trigger w[k]} | 0 <= k < |w| ensures 1 <= w[k] < |tab| { assert w[k] in w; }
    Pigeonhole(w, |tab| - 1);
  }

  /** Distinct numbers from 1..n: at most n of them. */
  lemma {:induction false} Pigeonhole(w: seq<int>, n: nat)
    requires NoDup(w) && forall k {:trigger w[k]} :: 0 <= k < |w| ==> 1 <= w[k] <= n
    ensures |w| <= n
    decreases n
  {
    if w == [] { return; }
    assert 1 <= w[0] <= n;
    if n in w {
      var k := IndexOf(w, n);
      RemoveAtFacts(w, k);
      var r := RemoveAt(w, k);
      forall j {:trigger r[j]} | 0 <= j < |r| ensures 1 <= r[j] <= n - 1 {
        assert r[j] in r;
      }
      Pigeonhole(r, n - 1);
    } else {
      forall j {:trigger w[j]} | 0 <= j < |w| ensures 1 <= w[j] <= n - 1 {
        assert w[j] in w;
      }
      Pigeonhole(w, n - 1);
    }
  }

  // ---------------------------------------------------------------- exit values and incarnations

  /** A listed process has not been reaped; a zombie still carries the value of its own end. */
  ghost predicate ValueAt(tab: Table, inc: seq<nat>, final: map<nat, int>, reaped: set<nat>, p: int)
    requires 1 <= p < |tab| == |inc|
  {
    Listed(tab[p]) ==>
      && inc[p] !in reaped
      && (tab[p].state == Zombie ==>
            inc[p] in final && final[inc[p]] == if tab[p].killed then 0 else tab[p].retval)
      && (Live(tab[p]) ==> !tab[p].killed && inc[p] !in final)
  }

  ghost predicate Values(tab: Table, inc: seq<nat>, next: nat, final: map<nat, int>, reaped: set<nat>) {
    && |tab| == |inc|
    && (forall p {:trigger ValueAt(tab, inc, final, reaped, p)} :: 1 <= p < |tab| ==> ValueAt(tab, inc, final, reaped, p))
    && (forall p {:trigger inc[p]} :: 0 <= p < |inc| ==> inc[p] < next)
    && (forall p, q {:trigger inc[p], inc[q]} :: 0 <= p < q < |inc| ==> inc[p] != inc[q])
    && (forall i {:trigger i in reaped} :: i in reaped ==> i < next)
    && (forall i {:trigger i in final} :: i in final ==> i < next)
    && (forall p {:trigger inc[p]} :: 2 <= p < |inc| ==> inc[1] < inc[p])
  }

  lemma ValuesFrame(tab: Table, tab': Table, inc: seq<nat>, next: nat, final: map<nat, int>, reaped: set<nat>)
    requires Values(tab, inc, next, final, reaped) && |tab'| == |tab|
    requires forall p {:trigger tab'[p]} :: 1 <= p < |tab| ==>
      && (Listed(tab'[p]) ==> Listed(tab[p]))
      && (Listed(tab'[p]) && tab'[p].state == Zombie ==>
            tab[p].state == Zombie && tab'[p].killed == tab[p].killed && tab'[p].retval == tab[p].retval)
      && (Live(tab'[p]) ==> Live(tab[p]) && tab'[p].killed == tab[p].killed)
    ensures Values(tab', inc, next, final, reaped)
  {
    forall p | 1 <= p < |tab'| ensures ValueAt(tab', inc, final, reaped, p) {
      assert ValueAt(tab, inc, final, reaped, p) && tab'[p] == tab'[p];
    }
  }

  // ---------------------------------------------------------------- what scheduling may change

  /** The scheduler only moves processes between active and activable, and frees dead slots. */
  predicate Switched(a: Proc, b: Proc) {
    || (b == a.(state := b.state) && (b.state == a.state || (OnCpuSide(a) && OnCpuSide(b))))
    || (a.valid && a.state == Dead && b == a.(valid := false, children := []))
  }

  ghost predicate AllSwitched(tab: Table, tab': Table) {
    |tab'| == |tab| && forall p {:trigger tab'[p]} :: 0 <= p < |tab| ==> Switched(tab[p], tab'[p])
  }

  lemma SwitchKeeps(tab: Table, tab': Table, inc: seq<nat>, sems: seq<Sem>, next: nat, final: map<nat, int>, reaped: set<nat>)
    requires AllSwitched(tab, tab')
    requires Forest(tab, inc) && Waits(tab, {}) && Sleepers(tab, sems) && Values(tab, inc, next, final, reaped)
    ensures Forest(tab', inc) && Waits(tab', {}) && Sleepers(tab', sems) && Values(tab', inc, next, final, reaped)
  {
    forall p {:trigger tab'[p]} | 1 <= p < |tab| ensures SameKin(tab[p], tab'[p]) {}
    ForestFrame(tab, tab', inc);
    forall p, s {:trigger Sleeper(tab', p, s)} ensures Sleeper(tab', p, s) <==> Sleeper(tab, p, s) {
      assert 1 <= p < |tab| ==> Switched(tab[p], tab'[p]);
    }
    SleepersFrame(tab, tab', sems);
    ValuesFrame(tab, tab', inc, next, final, reaped);
    forall p | 1 <= p < |tab'| && Live(tab'[p]) ensures WaitAt(tab', p) {
      assert Switched(tab[p], tab'[p]) && WaitAt(tab, p);
      forall c {:trigger ZombieChild(tab', c, p)} ensures ZombieChild(tab', c, p) <==> ZombieChild(tab, c, p) {
        assert 1 <= c < |tab| ==> Switched(tab[c], tab'[c]);
      }
      forall c {:trigger IsChild(tab', c, p)} ensures IsChild(tab, c, p) ==> IsChild(tab', c, p) {
        assert 1 <= c < |tab| ==> Switched(tab[c], tab'[c]);
      }
      WaitFrame(tab, tab', p);
    }
  }

  /** A live process changes in place: same place in the forest, same sleep, a consistent wait of its own. */
  lemma LocalKeeps(tab: Table, inc: seq<nat>, sems: seq<Sem>, next: nat, final: map<nat, int>, reaped: set<nat>, p: int, np: Proc)
    requires Forest(tab, inc) && Waits(tab, {}) && Sleepers(tab, sems) && Values(tab, inc, next, final, reaped)
    requires 1 <= p < |tab| && Live(tab[p]) && Live(np) && SameKin(tab[p], np) && np.killed == tab[p].killed
    requires (np.state == WaitSem <==> tab[p].state == WaitSem) && (np.state == WaitSem ==> np.sidWait == tab[p].sidWait)
    requires WaitAt(tab[p := np], p)
    ensures Forest(tab[p := np], inc) && Waits(tab[p := np], {}) && Sleepers(tab[p := np], sems)
    ensures Values(tab[p := np], inc, next, final, reaped)
  {
    var tab' := tab[p := np];
    ForestFrame(tab, tab', inc);
    WaitsLocal(tab, {}, p, np);
    assert Waits(tab', {} + {p});
    WaitsRestore(tab', {}, p);
    forall q, s {:trigger Sleeper(tab', q, s)} ensures Sleeper(tab', q, s) <==> Sleeper(tab, q, s) {}
    SleepersFrame(tab, tab', sems);
    ValuesFrame(tab, tab', inc, next, final, reaped);
  }

  lemma PrioKeeps(tab: Table, inc: seq<nat>, sems: seq<Sem>, next: nat, final: map<nat, int>, reaped: set<nat>, p: int, prio: int)
    requires Forest(tab, inc) && Waits(tab, {}) && Sleepers(tab, sems) && Values(tab, inc, next, final, reaped)
    requires 1 <= p < |tab| && Live(tab[p])
    ensures var tab' := tab[p := tab[p].(prio := prio)];
            Forest(tab', inc) && Waits(tab', {}) && Sleepers(tab', sems) && Values(tab', inc, next, final, reaped)
  {
    var np := tab[p].(prio := prio);
    var tab' := tab[p := np];
    assert WaitAt(tab, p);
    forall c {:trigger ZombieChild(tab', c, p)} ensures ZombieChild(tab', c, p) <==> ZombieChild(tab, c, p) {}
    WaitFrame(tab, tab', p);
    LocalKeeps(tab, inc, sems, next, final, reaped, p, np);
  }

  /** start: nobody's wait, sleep or value is touched by a newborn. */
  lemma BirthKeeps(tab: Table, inc: seq<nat>, sems: seq<Sem>, next: nat, final: map<nat, int>, reaped: set<nat>,
                   p: int, i: int, np: Proc)
    requires Forest(tab, inc) && Waits(tab, {}) && Sleepers(tab, sems) && Values(tab, inc, next, final, reaped)
    requires 1 <= p < |tab| && Live(tab[p]) && 2 <= i < |tab| && !tab[i].valid
    requires np.valid && np.state == Activable && np.parent == p && np.children == [] && np.resume == Idle
    requires !np.killed && !np.sidReset && !np.sidDeleted && np.history == []
    ensures var tab', inc' := tab[p := tab[p].(children := [i] + tab[p].children)][i := np], inc[i := next];
            && Forest(tab', inc') && Waits(tab', {}) && Sleepers(tab', sems)
            && Values(tab', inc', next + 1, final, reaped)
  {
    var tab', inc' := tab[p := tab[p].(children := [i] + tab[p].children)][i := np], inc[i := next];
    ForestBirth(tab, inc, p, i, np, next);
    forall q, s {:trigger Sleeper(tab', q, s)} ensures Sleeper(tab', q, s) <==> Sleeper(tab, q, s) {}
    SleepersFrame(tab, tab', sems);
    forall q | 1 <= q < |tab'| && Live(tab'[q]) ensures WaitAt(tab', q) {
      if q != i {
        assert WaitAt(tab, q);
        WaitFrame(tab, tab', q);
      }
    }
    forall q | 1 <= q < |tab'| ensures ValueAt(tab', inc', final, reaped, q) {
      assert ValueAt(tab, inc, final, reaped, q);
    }
  }

  /** waitpid delivers a zombie child of p and p goes on. */
  lemma ReapKeeps(tab: Table, inc: seq<nat>, sems: seq<Sem>, next: nat, final: map<nat, int>, reaped: set<nat>, p: int, c: int)
    requires Forest(tab, inc) && Waits(tab, {}) && Sleepers(tab, sems) && Values(tab, inc, next, final, reaped)
    requires 1 <= p < |tab| && Live(tab[p]) && OnCpuSide(tab[p]) && !tab[p].resume.InWaitSem? && ZombieChild(tab, c, p)
    ensures c != p
    ensures var tab' := tab[c := tab[c].(state := Dead)]
                           [p := tab[p].(children := Without(tab[p].children, c), resume := Idle)];
            && Forest(tab', inc) && Waits(tab', {}) && Sleepers(tab', sems)
            && Values(tab', inc, next, final, reaped + {inc[c]})
  {
    assert ForestAt(tab, inc, c) && ForestAt(tab, inc, 1);
    ForestDeath(tab, inc, p, c, tab[c].(state := Dead));
    var mid := tab[c := tab[c].(state := Dead)][p := tab[p].(children := Without(tab[p].children, c))];
    var tab' := tab[c := tab[c].(state := Dead)][p := tab[p].(children := Without(tab[p].children, c), resume := Idle)];
    ForestFrame(mid, tab', inc);
    forall q, s {:trigger Sleeper(tab', q, s)} ensures Sleeper(tab', q, s) <==> Sleeper(tab, q, s) {}
    SleepersFrame(tab, tab', sems);
    forall q | 1 <= q < |tab'| && Live(tab'[q]) ensures WaitAt(tab', q) {
      assert WaitAt(tab, q);
      if q != p { WaitFrame(tab, tab', q); }
    }
    forall q | 1 <= q < |tab'| ensures ValueAt(tab', inc, final, reaped + {inc[c]}, q) {
      assert ValueAt(tab, inc, final, reaped, q);
      assert q != c ==> inc[q] != inc[c];
    }
  }

  /** A sleeper is taken off a semaphore, its flags telling why, and becomes runnable. */
  lemma WakeSleeperKeeps(tab: Table, inc: seq<nat>, sems: seq<Sem>, next: nat, final: map<nat, int>, reaped: set<nat>,
                         s: int, k: nat, how: Ended, c: int)
    requires Forest(tab, inc) && Waits(tab, {}) && Sleepers(tab, sems) && Values(tab, inc, next, final, reaped)
    requires 0 <= s < |sems| && sems[s].valid && k < |sems[s].waiters| && how != Pending
    ensures Sleeper(tab, sems[s].waiters[k], s)
    ensures var p := sems[s].waiters[k];
            var tab' := tab[p := Woken(tab[p], s, how)];
            && Forest(tab', inc) && Waits(tab', {}) && Values(tab', inc, next, final, reaped)
            && Sleepers(tab', sems[s := Sem(true, c, RemoveAt(sems[s].waiters, k))])
  {
    var p := sems[s].waiters[k];
    assert SleepersAt(tab, sems, s) && p in sems[s].waiters;
    assert Sleeper(tab, p, s) && WaitAt(tab, p);
    var np := Woken(tab[p], s, how);
    var tab' := tab[p := np];
    SleepersLeave(tab, sems, s, k, np, c);
    ForestFrame(tab, tab', inc);
    ValuesFrame(tab, tab', inc, next, final, reaped);
    WokenAgrees(tab[p], s, how);
    WaitsLocal(tab, {}, p, np);
    assert WaitAt(tab', p);
    WaitsRestore(tab', {}, p);
  }

  /** A sleeper woken in some way has consistent flags again. */
  lemma WokenAgrees(p: Proc, s: int, how: Ended)
    requires FlagsAgree(p) && p.resume == InWaitSem(s, Pending) && how != Pending
    ensures FlagsAgree(Woken(p, s, how))
  {
    var h := Woken(p, s, how).history;
    assert h[..|p.history|] == p.history && h[|h| - 1] == how;
    assert WasDeleted in h <==> WasDeleted in p.history || how == WasDeleted;
  }

  /** The descriptor of a sleeper after it has been woken. */
  function Woken(p: Proc, s: int, how: Ended): Proc {
    p.(state := Activable, resume := InWaitSem(s, how),
       sidReset := p.sidReset || how == WasReset,
       sidDeleted := p.sidDeleted || (how == WasDeleted && !p.sidReset),
       history := p.history + [how])
  }

  /** wait that has to block. */
  lemma SleepKeeps(tab: Table, inc: seq<nat>, sems: seq<Sem>, next: nat, final: map<nat, int>, reaped: set<nat>, p: int, s: int, c: int)
    requires Forest(tab, inc) && Waits(tab, {}) && Sleepers(tab, sems) && Values(tab, inc, next, final, reaped)
    requires 1 <= p < |tab| && Live(tab[p]) && OnCpuSide(tab[p]) && tab[p].resume == Idle
    requires 0 <= s < |sems| && sems[s].valid
    ensures var tab' := tab[p := tab[p].(state := WaitSem, sidWait := s, resume := InWaitSem(s, Pending))];
            && Forest(tab', inc) && Waits(tab', {}) && Values(tab', inc, next, final, reaped)
            && Sleepers(tab', sems[s := Sem(true, c, [p] + sems[s].waiters)])
  {
    var np := tab[p].(state := WaitSem, sidWait := s, resume := InWaitSem(s, Pending));
    var tab' := tab[p := np];
    assert WaitAt(tab, p);
    SleepersJoin(tab, sems, s, p, np, c);
    ForestFrame(tab, tab', inc);
    ValuesFrame(tab, tab', inc, next, final, reaped);
    WaitsLocal(tab, {}, p, np);
    assert WaitAt(tab', p);
    WaitsRestore(tab', {}, p);
  }
}
