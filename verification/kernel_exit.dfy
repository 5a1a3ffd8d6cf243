/**
  The end of a process (kernel/sys.c, exit and kill): its father is woken, its zombie children die, its living
  children go to Init, and it becomes a zombie or, under Init, simply dies. `rest` is the part of its child
  list the loop has not treated yet.
 */
module ProcessExit {
  import opened Sequences
  import opened ProcessQueue
  import opened ProcessTable

  /** p is ending: the invariants hold with `rest` in place of its child list, waits of `except` aside. */
  ghost predicate Dying(tab: Table, inc: seq<nat>, sems: seq<Sem>, next: nat, final: map<nat, int>, reaped: set<nat>,
                        p: int, rest: seq<int>, except: set<int>)
  {
    && 2 <= p < |tab| && Live(tab[p]) && p in except
    && Forest(tab[p := tab[p].(children := rest)], inc)
    && Waits(tab, except) && Sleepers(tab, sems) && Values(tab, inc, next, final, reaped)
  }

  lemma WithoutHead(s: seq<int>)
    requires s != []
    ensures Without(s, s[0]) == s[1..]
  {
  }

  lemma NextOrphan(tab: Table, inc: seq<nat>, p: int, rest: seq<int>)
    requires 2 <= p < |tab| && Live(tab[p]) && Forest(tab[p := tab[p].(children := rest)], inc) && rest != []
    ensures var c := rest[0]; 2 <= c < |tab| && c != p && Listed(tab[c]) && tab[c].parent == p
    ensures IsChild(tab[p := tab[p].(children := rest)], rest[0], p)
  {
    var v := tab[p := tab[p].(children := rest)];
    assert ForestAt(v, inc, p) && ForestAt(v, inc, 1);
    assert rest[0] in v[p].children;
    assert ForestAt(v, inc, rest[0]);
  }

  /** A zombie child of the ending process dies with it. */
  lemma DyingBuries(tab: Table, inc: seq<nat>, sems: seq<Sem>, next: nat, final: map<nat, int>, reaped: set<nat>,
                    p: int, rest: seq<int>, except: set<int>)
    requires Dying(tab, inc, sems, next, final, reaped, p, rest, except)
    requires rest != [] && 0 <= rest[0] < |tab| && tab[rest[0]].state == Zombie
    ensures Dying(tab[rest[0] := tab[rest[0]].(state := Dead)], inc, sems, next, final, reaped, p, rest[1..], except)
  {
    var c := rest[0];
    NextOrphan(tab, inc, p, rest);
    var v := tab[p := tab[p].(children := rest)];
    var tab' := tab[c := tab[c].(state := Dead)];
    assert ForestAt(v, inc, c);
    ForestDeath(v, inc, p, c, tab[c].(state := Dead));
    WithoutHead(rest);
    assert v[c := tab[c].(state := Dead)][p := v[p].(children := Without(rest, c))] == tab'[p := tab'[p].(children := rest[1..])];
    forall q, s {:trigger Sleeper(tab', q, s)} ensures Sleeper(tab', q, s) <==> Sleeper(tab, q, s) {}
    SleepersFrame(tab, tab', sems);
    ValuesFrame(tab, tab', inc, next, final, reaped);
    forall q | 1 <= q < |tab'| && q !in except && Live(tab'[q]) ensures WaitAt(tab', q) {
      assert WaitAt(tab, q) && q != p;
      WaitFrame(tab, tab', q);
    }
  }

  /** A living child of the ending process becomes a child of Init. */
  lemma DyingAdopts(tab: Table, inc: seq<nat>, sems: seq<Sem>, next: nat, final: map<nat, int>, reaped: set<nat>,
                    p: int, rest: seq<int>, except: set<int>)
    requires Dying(tab, inc, sems, next, final, reaped, p, rest, except)
    requires rest != [] && 0 <= rest[0] < |tab| && tab[rest[0]].state != Zombie
    ensures Dying(tab[rest[0] := tab[rest[0]].(parent := 1)][1 := tab[1].(children := [rest[0]] + tab[1].children)],
                  inc, sems, next, final, reaped, p, rest[1..], except)
  {
    var c := rest[0];
    NextOrphan(tab, inc, p, rest);
    var v := tab[p := tab[p].(children := rest)];
    var tab' := tab[c := tab[c].(parent := 1)][1 := tab[1].(children := [c] + tab[1].children)];
    assert inc[1] < inc[c];
    ForestAdopt(v, inc, p, c);
    WithoutHead(rest);
    assert v[c := v[c].(parent := 1)][p := v[p].(children := Without(rest, c))][1 := v[1].(children := [c] + v[1].children)]
           == tab'[p := tab'[p].(children := rest[1..])];
    AdoptKeeps(tab, inc, sems, next, final, reaped, p, c, except);
  }

  lemma AdoptKeeps(tab: Table, inc: seq<nat>, sems: seq<Sem>, next: nat, final: map<nat, int>, reaped: set<nat>,
                   p: int, c: int, except: set<int>)
    requires 2 <= p < |tab| && p in except && 2 <= c < |tab| && Live(tab[c]) && tab[c].parent == p
    requires Waits(tab, except) && Sleepers(tab, sems) && Values(tab, inc, next, final, reaped)
    ensures var tab' := tab[c := tab[c].(parent := 1)][1 := tab[1].(children := [c] + tab[1].children)];
            Waits(tab', except) && Sleepers(tab', sems) && Values(tab', inc, next, final, reaped)
  {
    var tab' := tab[c := tab[c].(parent := 1)][1 := tab[1].(children := [c] + tab[1].children)];
    forall q, s {:trigger Sleeper(tab', q, s)} ensures Sleeper(tab', q, s) <==> Sleeper(tab, q, s) {}
    SleepersFrame(tab, tab', sems);
    ValuesFrame(tab, tab', inc, next, final, reaped);
    forall q | 1 <= q < |tab'| && q !in except && Live(tab'[q]) ensures WaitAt(tab', q) {
      assert WaitAt(tab, q) && q != p;
      WaitFrame(tab, tab', q);
    }
  }

  lemma NoChildrenLeft(tab: Table, inc: seq<nat>, p: int)
    requires 2 <= p < |tab| && Live(tab[p]) && Forest(tab[p := tab[p].(children := [])], inc)
    ensures var v := tab[p := tab[p].(children := [])];
            forall q {:trigger IsChild(v, q, p)} :: !IsChild(v, q, p)
  {
    assert ForestAt(tab[p := tab[p].(children := [])], inc, p);
  }

  /** Father is somebody else than Init: the process stays as a zombie holding its value. */
  lemma DyingBecomesZombie(tab: Table, inc: seq<nat>, sems: seq<Sem>, next: nat, final: map<nat, int>, reaped: set<nat>,
                           p: int, except: set<int>, np: Proc, v: int)
    requires Dying(tab, inc, sems, next, final, reaped, p, [], except) && tab[p].parent > 1
    requires np.valid && np.state == Zombie && np.parent == tab[p].parent && v == (if np.killed then 0 else np.retval)
    ensures Forest(tab[p := np], inc) && Waits(tab[p := np], except + {tab[p].parent})
    ensures tab[p].state != WaitSem ==> Sleepers(tab[p := np], sems)
    ensures Values(tab[p := np], inc, next, final[inc[p] := v], reaped)
  {
    var w := tab[p := tab[p].(children := [])];
    var tab' := tab[p := np];
    NoChildrenLeft(tab, inc, p);
    ForestZombie(w, inc, p, np);
    assert w[p := np] == tab';
    if tab[p].state != WaitSem {
      forall q, s {:trigger Sleeper(tab', q, s)} ensures Sleeper(tab', q, s) <==> Sleeper(tab, q, s) {}
      SleepersFrame(tab, tab', sems);
    }
    forall q | 1 <= q < |tab'| && q !in except + {tab[p].parent} && Live(tab'[q]) ensures WaitAt(tab', q) {
      assert WaitAt(tab, q);
      WaitFrame(tab, tab', q);
    }
    var final' := final[inc[p] := v];
    forall q | 1 <= q < |tab'| ensures ValueAt(tab', inc, final', reaped, q) {
      assert ValueAt(tab, inc, final, reaped, q);
      assert q != p ==> inc[q] != inc[p];
    }
  }

  /** Father is Init: the process dies at once and leaves Init's list. */
  lemma DyingUnderInit(tab: Table, inc: seq<nat>, sems: seq<Sem>, next: nat, final: map<nat, int>, reaped: set<nat>,
                       p: int, except: set<int>, np: Proc)
    requires Dying(tab, inc, sems, next, final, reaped, p, [], except) && tab[p].parent == 1
    requires np.state == Dead
    ensures var tab' := tab[p := np][1 := tab[1].(children := Without(tab[1].children, p))];
            && Forest(tab', inc) && Waits(tab', except) && Values(tab', inc, next, final, reaped)
            && (tab[p].state != WaitSem ==> Sleepers(tab', sems))
  {
    var w := tab[p := tab[p].(children := [])];
    var tab' := tab[p := np][1 := tab[1].(children := Without(tab[1].children, p))];
    NoChildrenLeft(tab, inc, p);
    assert ForestAt(w, inc, 1) && ForestAt(w, inc, p);
    ForestDeath(w, inc, 1, p, np);
    assert w[p := np][1 := w[1].(children := Without(w[1].children, p))] == tab';
    if tab[p].state != WaitSem {
      forall q, s {:trigger Sleeper(tab', q, s)} ensures Sleeper(tab', q, s) <==> Sleeper(tab, q, s) {}
      SleepersFrame(tab, tab', sems);
    }
    ValuesFrame(tab, tab', inc, next, final, reaped);
    forall q | 1 <= q < |tab'| && q !in except && Live(tab'[q]) ensures WaitAt(tab', q) {
      assert WaitAt(tab, q);
      WaitFrame(tab, tab', q);
    }
  }

  /** The father was not waiting for p: his wait still stands when p becomes a zombie. */
  lemma FatherStillWaits(tab: Table, p: int, np: Proc, f: int)
    requires 1 <= p < |tab| && 1 < f < |tab| && f != p && WaitAt(tab, f) && Live(tab[p])
    requires np.valid && np.state == Zombie && np.parent == tab[p].parent
    requires !(tab[f].state == WaitChild && (tab[f].pidWait == p || tab[f].pidWait == -1))
    ensures WaitAt(tab[p := np], f)
  {
    var tab' := tab[p := np];
    assert forall c {:trigger ZombieChild(tab', c, f)} :: c != p ==> (ZombieChild(tab', c, f) <==> ZombieChild(tab, c, f));
    assert forall c {:trigger IsChild(tab', c, f)} :: IsChild(tab', c, f) <==> IsChild(tab, c, f);
    assert !ZombieChild(tab, p, f);
  }

  /** The father was woken for p: he will find it as a zombie. */
  lemma FatherWoken(tab: Table, p: int, np: Proc, f: int)
    requires 1 <= p < |tab| && 1 < f < |tab| && f != p
    requires np.valid && np.state == Zombie && np.parent == f
    requires OnCpuSide(tab[f]) && FlagsAgree(tab[f])
    requires (tab[f].resume == InWaitAny && tab[f].pidWait == p) || tab[f].resume == InWaitPid(p)
    ensures WaitAt(tab[p := np], f)
  {
    assert ZombieChild(tab[p := np], p, f);
  }

  /** All that the orphan loop may do to a descriptor. */
  predicate Orphaned(a: Proc, b: Proc) {
    && b == a.(parent := b.parent, state := b.state, children := b.children)
    && (b.state == a.state || (a.state == Zombie && b.state == Dead))
  }

  ghost predicate AllOrphaned(tab: Table, tab': Table, p: int) {
    && |tab'| == |tab|
    && (forall q {:trigger tab'[q]} :: 0 <= q < |tab| ==> Orphaned(tab[q], tab'[q]))
    && (forall q {:trigger tab'[q]} :: 0 <= q < |tab| && q != 1 && (q == p || tab[q].parent != p) ==> tab'[q] == tab[q])
  }

  lemma OrphanedTwice(tab: Table, tab1: Table, tab2: Table, p: int)
    requires AllOrphaned(tab, tab1, p) && AllOrphaned(tab1, tab2, p) && p > 1
    ensures AllOrphaned(tab, tab2, p)
  {
    forall q {:trigger tab2[q]} | 0 <= q < |tab| ensures Orphaned(tab[q], tab2[q]) {
      assert Orphaned(tab[q], tab1[q]) && Orphaned(tab1[q], tab2[q]);
    }
    forall q {:trigger tab2[q]} | 0 <= q < |tab| && q != 1 && (q == p || tab[q].parent != p) ensures tab2[q] == tab[q] {
      assert tab1[q] == tab[q] && tab2[q] == tab1[q];
    }
  }

  /** All that the end of another process, and the switch after it, may do to a descriptor. */
  predicate Spared(a: Proc, b: Proc) {
    b == a.(valid := b.valid, parent := b.parent, state := b.state, children := b.children, pidWait := b.pidWait)
  }

  ghost predicate AllSpared(tab: Table, tab': Table, p: int) {
    |tab'| == |tab| && forall q {:trigger tab'[q]} :: 0 <= q < |tab| && q != p ==> Spared(tab[q], tab'[q])
  }

  /** Waking the father of p, treating the children of p. */
  lemma OrphansAreSpared(tab0: Table, tab1: Table, tab: Table, p: int, f: int, np: Proc)
    requires |tab0| == |tab1| == |tab| && (tab1 == tab0 || (0 <= f < |tab0| && tab1 == tab0[f := np] && Spared(tab0[f], np)))
    requires forall q {:trigger tab[q]} :: 0 <= q < |tab| && q != p ==> Orphaned(tab1[q], tab[q])
    ensures AllSpared(tab0, tab, p)
  {
  }

  lemma SwitchSpares(tab0: Table, tab1: Table, tab: Table, p: int)
    requires AllSpared(tab0, tab1, p) && AllSwitched(tab1, tab)
    ensures AllSpared(tab0, tab, p)
  {
    forall q {:trigger tab[q]} | 0 <= q < |tab| && q != p ensures Spared(tab0[q], tab[q]) {
      assert Switched(tab1[q], tab[q]) && Spared(tab0[q], tab1[q]);
    }
  }

  /** The father of p is right about p: woken for it, or not waiting for it. */
  ghost predicate FatherReady(tab: Table, p: int, woken: bool)
    requires 1 <= p < |tab|
  {
    var f := tab[p].parent;
    1 < f < |tab| ==>
      if woken then
        && OnCpuSide(tab[f]) && FlagsAgree(tab[f])
        && ((tab[f].resume == InWaitAny && tab[f].pidWait == p) || tab[f].resume == InWaitPid(p))
      else !(tab[f].state == WaitChild && (tab[f].pidWait == p || tab[f].pidWait == -1))
  }

  /** p's father sleeps in waitpid and p is the child, or one of the children, he waits for. */
  predicate FatherWaits(tab: Table, p: int)
    requires 1 <= p < |tab|
  {
    var f := tab[p].parent;
    1 < f < |tab| && tab[f].state == WaitChild && (tab[f].pidWait == p || tab[f].pidWait == -1)
  }

  /** Waking the father leaves him right about p except when he waits for any child and is not told which. */
  lemma WokenIsReady(tab0: Table, tab: Table, inc: seq<nat>, p: int, announce: bool, woken: bool)
    requires Forest(tab0, inc) && Waits(tab0, {}) && 2 <= p < |tab0| && Live(tab0[p]) && |tab| == |tab0|
    requires woken <==> FatherWaits(tab0, p)
    requires 1 <= tab0[p].parent < |tab|
    requires var f := tab0[p].parent;
             tab == if woken then tab0[f := tab0[f].(state := Activable, pidWait := if announce then p else tab0[f].pidWait)] else tab0
    ensures FatherReady(tab, p, woken) <==> !(woken && !announce && tab0[tab0[p].parent].pidWait == -1)
  {
    var f := tab0[p].parent;
    assert ForestAt(tab0, inc, p) && ForestAt(tab0, inc, f) && WaitAt(tab0, f);
    assert f != p;
  }

  /** The guard under which kill is harmless: the victim is not asleep on a semaphore, and its father is not
      asleep in waitpid(-1). A caller can check it before the call. */
  predicate CleanKill(tab: Table, p: int)
    requires 1 <= p < |tab|
  {
    && tab[p].state != WaitSem
    && !(FatherWaits(tab, p) && tab[tab[p].parent].pidWait == -1)
  }

  /** Raising the counter while the pid stays in the list breaks the count of that semaphore. */
  lemma KilledSleeperBreaksCount(tab: Table, sems: seq<Sem>, p: int)
    requires Sleepers(tab, sems) && Counts(sems, {}) && 1 <= p < |tab| && Live(tab[p]) && tab[p].state == WaitSem
    ensures var s := tab[p].sidWait;
            && 0 <= s < |sems| && sems[s].valid
            && !CountAt(sems[s := sems[s].(c := sems[s].c + 1)], s)
  {
    var s := tab[p].sidWait;
    assert Sleeper(tab, p, s);
    assert SleepersAt(tab, sems, s) && CountAt(sems, s);
    assert p in sems[s].waiters;
  }

  /** A father woken from waitpid(-1) without being told the child is in no legal state. */
  lemma UntoldFatherIsLost(tab: Table, f: int)
    requires 1 <= f < |tab| && Live(tab[f]) && OnCpuSide(tab[f]) && tab[f].resume == InWaitAny && tab[f].pidWait == -1
    ensures !Waits(tab, {})
  {
    assert !WaitAt(tab, f);
  }
}
