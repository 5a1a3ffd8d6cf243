/**
  Taking turns: while only the clock interrupts them, equally urgent processes share the processor in rotation.
  Nobody more urgent may be asleep, since the clock could wake it.
 */
module KernelTurns {
  import opened Sequences
  import opened ProcessQueue
  import opened ProcessTable
  import opened Kernel

  ghost predicate BelowAt(tab: Table, q: int, prio: int) {
    1 <= q < |tab| && tab[q].valid && (OnCpuSide(tab[q]) || tab[q].state == Asleep) ==> tab[q].prio <= prio
  }

  /** Nobody who runs, could run or could be woken by the clock is more urgent than this. */
  ghost predicate Peak(tab: Table, prio: int) {
    forall q {:trigger BelowAt(tab, q, prio)} :: BelowAt(tab, q, prio)
  }

  /** p waits for its turn among the most urgent. */
  ghost predicate Waits(m: Machine, p: int, prio: int)
    reads m
  {
    p in m.ready && Prio(m.tab, p) == prio && Peak(m.tab, prio)
  }

  /** The time slice of the running process: it finishes the call it slept in, if any, and runs until the clock ticks. */
  method Slice(m: Machine, ghost prio: int)
    requires m.Inv() && m.Scheduled() && m.cur != 0 && Peak(m.tab, prio) && m.tab[m.cur].prio <= prio
    modifies m
    ensures m.Inv() && m.Scheduled() && Peak(m.tab, prio) && (m.cur != 0 ==> m.tab[m.cur].prio <= prio)
    ensures forall p {:trigger p in old(m.ready)} :: p in old(m.ready) && Prio(old(m.tab), p) == prio ==>
      if Ahead(old(m.ready), p) == [] then m.cur == p
      else p in m.ready && Prio(m.tab, p) == prio && Ahead(m.ready, p) == DropLast(Ahead(old(m.ready), p))
  {
    ghost var tab0 := m.tab;
    Finish(m, prio);
    ghost var tab1 := m.tab;
    m.Tick();
    PeakAfterTick(tab1, m.tab, m.clock, prio);
    assert m.cur != 0 ==> BelowAt(m.tab, m.cur, prio);
  }

  /** The running process returns from a wait or a waitpid in which it was woken. */
  method Finish(m: Machine, ghost prio: int)
    requires m.Inv() && m.Scheduled() && m.cur != 0 && Peak(m.tab, prio)
    modifies m`tab, m`reaped
    ensures m.Running() && Peak(m.tab, prio)
    ensures forall p {:trigger Prio(m.tab, p)} :: Prio(m.tab, p) == Prio(old(m.tab), p)
  {
    ghost var tab0 := m.tab;
    if m.tab[m.cur].resume.InWaitSem? {
      var _ := m.ResumeWait();
    } else if m.tab[m.cur].resume != Idle {
      var _, _ := m.ResumeWaitpid();
    }
    forall q {:trigger BelowAt(m.tab, q, prio)} ensures BelowAt(m.tab, q, prio) { assert BelowAt(tab0, q, prio); }
  }

  lemma PeakAfterTick(tab0: Table, tab: Table, clock: int, prio: int)
    requires Peak(tab0, prio) && |tab| == |tab0|
    requires forall p {:trigger tab[p]} :: 1 <= p < |tab| ==> Switched(Roused(tab0[p], clock), tab[p])
    ensures Peak(tab, prio) && NoSleeperAbove(tab0, prio)
    ensures forall p {:trigger Prio(tab, p)} :: 1 <= p ==> Prio(tab, p) == Prio(tab0, p)
  {
    forall q {:trigger BelowAt(tab, q, prio)} ensures BelowAt(tab, q, prio) {
      assert BelowAt(tab0, q, prio);
      assert 1 <= q < |tab| ==> Switched(Roused(tab0[q], clock), tab[q]);
    }
    forall q {:trigger SleepsBelow(tab0, q, prio)} ensures SleepsBelow(tab0, q, prio) { assert BelowAt(tab0, q, prio); }
  }

  /** How many of a queue have a given urgency. */
  function Equals(tab: Table, s: seq<int>, prio: int): nat {
    if s == [] then 0 else Equals(tab, s[..|s| - 1], prio) + (if Prio(tab, s[|s| - 1]) == prio then 1 else 0)
  }

  /** Those ahead of one of the most urgent are all as urgent as it is. */
  lemma {:induction false} AheadAreEquals(tab: Table, ready: seq<int>, prio: int, j: nat)
    requires Ascending(tab, ready) && j < |ready| && Prio(tab, ready[j]) == prio
    requires forall k {:trigger ready[k]} :: 0 <= k < |ready| ==> Prio(tab, ready[k]) <= prio
    ensures |ready| - j <= Equals(tab, ready, prio)
    decreases |ready|
  {
    var n := |ready| - 1;
    assert Prio(tab, ready[n]) == prio by { assert j < n ==> Prio(tab, ready[j]) <= Prio(tab, ready[n]); }
    if j < n {
      var rest := ready[..n];
      assert Ascending(tab, rest) by {
        forall a, b {:trigger rest[a], rest[b]} | 0 <= a < b < |rest| ensures Prio(tab, rest[a]) <= Prio(tab, rest[b]) {
          assert ready[a] == rest[a] && ready[b] == rest[b];
        }
      }
      AheadAreEquals(tab, rest, prio, j);
    }
  }

  lemma RankWithinEquals(m: Machine, p: int, prio: int)
    requires m.Inv() && Waits(m, p, prio)
    ensures |Ahead(m.ready, p)| + 1 <= Equals(m.tab, m.ready, prio)
  {
    forall k {:trigger m.ready[k]} | 0 <= k < |m.ready| ensures Prio(m.tab, m.ready[k]) <= prio {
      assert m.ready[k] in m.ready && QueuedAt(m.tab, m.ready, m.ready[k]) && BelowAt(m.tab, m.ready[k], prio);
    }
    AheadAreEquals(m.tab, m.ready, prio, IndexOf(m.ready, p));
  }

  /**
    Rotation: let the running process and the queue hold k processes of the highest urgency. Each of those in the
    queue runs after fewer than k ticks of the clock, however the sleepers that are not more urgent wake meanwhile.
   */
  method TurnComes(m: Machine, p: int) returns (ticks: nat)
    requires m.Inv() && m.Scheduled() && m.cur != 0 && Waits(m, p, m.tab[m.cur].prio)
    modifies m
    ensures m.Inv() && m.Scheduled() && m.cur == p
    ensures 1 <= ticks < old(1 + Equals(m.tab, m.ready, m.tab[m.cur].prio))
  {
    ghost var prio := m.tab[m.cur].prio;
    RankWithinEquals(m, p, prio);
    ghost var ahead := Ahead(m.ready, p);
    assert QueuedAt(m.tab, m.ready, p);
    ticks := 0;
    while m.cur != p
      invariant m.Inv() && m.Scheduled() && m.cur != 0 && Peak(m.tab, prio) && m.tab[m.cur].prio <= prio
      invariant if m.cur == p then 1 <= ticks <= |ahead| + 1
                else p in m.ready && Prio(m.tab, p) == prio && |Ahead(m.ready, p)| == |ahead| - ticks
      decreases if m.cur == p then 0 else 1 + |ahead| - ticks
    {
      assert p in m.ready && QueuedAt(m.tab, m.ready, p);
      Slice(m, prio);
      ticks := ticks + 1;
      assert m.cur != p ==> p in m.ready;
    }
  }
}
