/**
  Process descriptors and the ready queue (kernel/context.h, shared/queue.h). The table is indexed by pid;
  slot 0 is the kernel's own context. The queue is kept in ascending priority, so its last element runs next.
 */
module ProcessQueue {
  import opened Sequences

  datatype State = Active | Activable | WaitSem | WaitIO | WaitChild | Asleep | Zombie | Dead

  /** How a blocked semaphore wait was ended. */
  datatype Ended = Pending | Signalled | WasReset | WasDeleted

  /** Where in the kernel a process that gave up the processor will continue. */
  datatype Resume = Idle | InWaitAny | InWaitPid(child: int) | InWaitSem(sid: int, ended: Ended)

  datatype Proc = Proc(
    valid: bool, state: State, prio: int, parent: int, pidWait: int, children: seq<int>,
    killed: bool, retval: int, timer: int, sidWait: int, sidDeleted: bool, sidReset: bool, resume: Resume, history: seq<Ended>)

  type Table = seq<Proc>

  predicate Runnable(p: Proc) {
    p.valid && p.state == Activable
  }

  function Prio(tab: Table, p: int): int {
    if 0 <= p < |tab| then tab[p].prio else 0
  }

  ghost predicate QueuedAt(tab: Table, ready: seq<int>, p: int)
    requires 1 <= p < |tab|
  {
    p in ready <==> Runnable(tab[p])
  }

  /** A pid is in the ready queue exactly once iff it is valid and activable; the order is by current priority. */
  ghost predicate Queue(tab: Table, ready: seq<int>) {
    && NoDup(ready)
    && (forall p {:trigger p in ready} :: p in ready ==> 1 <= p < |tab|)
    && (forall p {:trigger QueuedAt(tab, ready, p)} :: 1 <= p < |tab| ==> QueuedAt(tab, ready, p))
    && Ascending(tab, ready)
  }

  ghost predicate Ascending(tab: Table, ready: seq<int>) {
    forall j, k {:trigger ready[j], ready[k]} :: 0 <= j < k < |ready| ==> Prio(tab, ready[j]) <= Prio(tab, ready[k])
  }

  /** queue_add scans from the low end past every strictly smaller priority. */
  function Slot(tab: Table, ready: seq<int>, prio: int): (k: nat)
    ensures k <= |ready|
    ensures forall j :: 0 <= j < k ==> Prio(tab, ready[j]) < prio
    ensures k < |ready| ==> Prio(tab, ready[k]) >= prio
  {
    if ready != [] && Prio(tab, ready[0]) < prio then 1 + Slot(tab, ready[1..], prio) else 0
  }

  function QueueAdd(tab: Table, ready: seq<int>, p: int): seq<int> {
    InsertAt(ready, Slot(tab, ready, Prio(tab, p)), p)
  }

  function QueueDel(ready: seq<int>, p: int): seq<int> {
    if p in ready then RemoveAt(ready, IndexOf(ready, p)) else ready
  }

  /** The queue after a change of priority: a process that is in it leaves and joins again. */
  ghost function Reordered(tab: Table, ready: seq<int>, p: int, prio: int): seq<int>
    requires 0 <= p < |tab|
  {
    if tab[p].state == Activable then QueueAdd(tab[p := tab[p].(prio := prio)], QueueDel(ready, p), p) else ready
  }

  /** queue_add as the macro does it, with a scanning loop. */
  method QueueInsert(tab: Table, ready: seq<int>, p: int) returns (r: seq<int>)
    ensures r == QueueAdd(tab, ready, p)
  {
    var k := 0;
    while k < |ready| && Prio(tab, ready[k]) < Prio(tab, p)
      invariant 0 <= k <= |ready|
      invariant Slot(tab, ready, Prio(tab, p)) == k + Slot(tab, ready[k..], Prio(tab, p))
    {
      assert ready[k..][1..] == ready[k + 1..];
      k := k + 1;
    }
    r := InsertAt(ready, k, p);
  }

  /** First in, first out among equals: everything that leaves before the newcomer is at least as urgent. */
  lemma QueueAddFifo(tab: Table, ready: seq<int>, p: int)
    requires Ascending(tab, ready)
    ensures var r, k := QueueAdd(tab, ready, p), Slot(tab, ready, Prio(tab, p));
            && r[k] == p && Ascending(tab, r)
            && (forall j {:trigger r[j]} :: k < j < |r| ==> Prio(tab, r[j]) >= Prio(tab, p))
            && (forall j {:trigger r[j]} :: 0 <= j < k ==> Prio(tab, r[j]) < Prio(tab, p))
  {
    var k := Slot(tab, ready, Prio(tab, p));
    forall j | k <= j < |ready| ensures Prio(tab, ready[j]) >= Prio(tab, p) {
      assert k < j ==> Prio(tab, ready[k]) <= Prio(tab, ready[j]);
    }
  }

  /** Those who leave the queue before p. */
  ghost function Ahead(ready: seq<int>, p: int): seq<int>
    requires p in ready
  {
    ready[IndexOf(ready, p) + 1..]
  }

  lemma OnlyIndex(s: seq<int>, p: int, k: nat)
    requires NoDup(s) && k < |s| && s[k] == p
    ensures p in s && IndexOf(s, p) == k
  {
  }

  /** A newcomer who is not more urgent than p gets behind p. */
  lemma JoinsBehind(tab: Table, ready: seq<int>, q: int, p: int)
    requires Ascending(tab, ready) && NoDup(ready) && p in ready && q !in ready && Prio(tab, q) <= Prio(tab, p)
    ensures p in QueueAdd(tab, ready, q) && Ahead(QueueAdd(tab, ready, q), p) == Ahead(ready, p)
  {
    var k, j := Slot(tab, ready, Prio(tab, q)), IndexOf(ready, p);
    assert k <= j;
    InsertAtFacts(ready, k, q);
    OnlyIndex(InsertAt(ready, k, q), p, j + 1);
  }

  /** When the first one leaves, everybody else moves up by one. */
  lemma MovesUp(ready: seq<int>, p: int)
    requires NoDup(ready) && p in ready && p != ready[|ready| - 1]
    ensures Ahead(ready, p) != [] && p in DropLast(ready) && Ahead(DropLast(ready), p) == DropLast(Ahead(ready, p))
  {
    var j := IndexOf(ready, p);
    OnlyIndex(DropLast(ready), p, j);
  }

  lemma {:induction false} SlotSamePrio(tab: Table, tab': Table, ready: seq<int>, prio: int)
    requires forall q {:trigger Prio(tab', q)} :: Prio(tab', q) == Prio(tab, q)
    ensures Slot(tab', ready, prio) == Slot(tab, ready, prio)
  {
    if ready != [] {
      assert Prio(tab', ready[0]) == Prio(tab, ready[0]);
      SlotSamePrio(tab, tab', ready[1..], prio);
    }
  }

  /**
    Whose turn it is after scheduler(): an active process keeps the processor only against strictly less urgent
    ones; otherwise the first of the queue runs and an active predecessor is queued behind its equals.
   */
  ghost predicate TurnTaken(tab: Table, ready: seq<int>, cur: int, ready': seq<int>, cur': int) {
    var active := 0 < cur < |tab| && tab[cur].state == Active;
    if ready == [] then ready' == [] && cur' == if active then cur else 0
    else if active && Prio(tab, ready[|ready| - 1]) < tab[cur].prio then cur' == cur && ready' == ready
    else cur' == ready[|ready| - 1] && ready' == if active then QueueAdd(tab, DropLast(ready), cur) else DropLast(ready)
  }

  /** Whoever is added stands behind all others of the same urgency, and behind nobody less urgent. */
  lemma BehindEquals(tab: Table, ready: seq<int>, p: int)
    requires Ascending(tab, ready) && NoDup(ready) && p !in ready
    ensures p in QueueAdd(tab, ready, p)
    ensures forall q {:trigger q in ready} :: q in ready ==> (q in Ahead(QueueAdd(tab, ready, p), p) <==> Prio(tab, q) >= Prio(tab, p))
  {
    var r, k := QueueAdd(tab, ready, p), Slot(tab, ready, Prio(tab, p));
    QueueAddFifo(tab, ready, p);
    InsertAtFacts(ready, k, p);
    OnlyIndex(r, p, k);
    assert r[k + 1..] == ready[k..];
    forall q {:trigger q in ready} | q in ready ensures q in ready[k..] <==> Prio(tab, q) >= Prio(tab, p) {
      UrgentFrom(tab, ready, k, Prio(tab, p), q);
    }
  }

  lemma UrgentFrom(tab: Table, ready: seq<int>, k: nat, prio: int, q: int)
    requires Ascending(tab, ready) && NoDup(ready) && k == Slot(tab, ready, prio) && q in ready
    ensures q in ready[k..] <==> Prio(tab, q) >= prio
  {
    var j := IndexOf(ready, q);
    if j >= k {
      assert ready[k..][j - k] == q;
      assert k < j ==> Prio(tab, ready[k]) <= Prio(tab, ready[j]);
    }
  }

  /** What a turn means for the running process: it stays iff it is strictly more urgent than everybody in the queue. */
  lemma StaysOnlyAbove(tab: Table, ready: seq<int>, cur: int, ready': seq<int>, cur': int)
    requires TurnTaken(tab, ready, cur, ready', cur') && Ascending(tab, ready) && cur !in ready
    requires 0 < cur < |tab| && tab[cur].state == Active
    ensures cur' == cur <==> forall q {:trigger q in ready} :: q in ready ==> Prio(tab, q) < tab[cur].prio
  {
    if ready != [] {
      var last := ready[|ready| - 1];
      assert last in ready;
      forall q {:trigger q in ready} | q in ready ensures Prio(tab, q) <= Prio(tab, last) {
        assert Prio(tab, ready[IndexOf(ready, q)]) <= Prio(tab, ready[|ready| - 1]);
      }
    }
  }

  lemma WithoutFirst(tab: Table, ready: seq<int>, cur: int)
    requires Ascending(tab, ready) && NoDup(ready) && cur !in ready && ready != []
    ensures Ascending(tab, DropLast(ready)) && NoDup(DropLast(ready)) && cur !in DropLast(ready)
  {
    var rest := DropLast(ready);
    forall j, k {:trigger rest[j], rest[k]} | 0 <= j < k < |rest| ensures Prio(tab, rest[j]) <= Prio(tab, rest[k]) {
      assert rest[j] == ready[j] && rest[k] == ready[k];
    }
  }

  /** What a turn means for a waiting process that is as urgent as the running one: it runs, or moves up by one. */
  lemma WaiterMovesUp(tab: Table, ready: seq<int>, cur: int, ready': seq<int>, cur': int, p: int)
    requires TurnTaken(tab, ready, cur, ready', cur') && Ascending(tab, ready) && NoDup(ready) && cur !in ready
    requires 0 < cur < |tab| && tab[cur].state == Active && p in ready && Prio(tab, p) >= tab[cur].prio
    ensures if Ahead(ready, p) == [] then cur' == p else p in ready' && Ahead(ready', p) == DropLast(Ahead(ready, p))
  {
    var first := ready[|ready| - 1];
    assert Prio(tab, ready[IndexOf(ready, p)]) <= Prio(tab, ready[|ready| - 1]);
    assert cur' == first && ready' == QueueAdd(tab, DropLast(ready), cur);
    if p == first {
      OnlyIndex(ready, p, |ready| - 1);
    } else {
      MovesUp(ready, p);
      WithoutFirst(tab, ready, cur);
      JoinsBehind(tab, DropLast(ready), cur, p);
    }
  }

  lemma QueueAddMembers(tab: Table, ready: seq<int>, p: int)
    ensures forall q {:trigger q in QueueAdd(tab, ready, p)} :: q in QueueAdd(tab, ready, p) ==> q in ready || q == p
  {
  }

  /** A process that was not runnable becomes runnable and is added (wakeup_process, creation). */
  lemma JoinKeepsQueue(tab: Table, ready: seq<int>, p: int, np: Proc)
    requires Queue(tab, ready) && 1 <= p < |tab| && !Runnable(tab[p]) && Runnable(np)
    ensures Queue(tab[p := np], QueueAdd(tab[p := np], ready, p))
  {
    var tab' := tab[p := np];
    assert QueuedAt(tab, ready, p);
    forall i, j {:trigger ready[i], ready[j]} | 0 <= i < j < |ready| ensures Prio(tab', ready[i]) <= Prio(tab', ready[j]) {
      assert ready[i] in ready && ready[j] in ready;
    }
    QueueAddFifo(tab', ready, p);
    InsertAtFacts(ready, Slot(tab', ready, Prio(tab', p)), p);
    forall q | 1 <= q < |tab'| ensures QueuedAt(tab', QueueAdd(tab', ready, p), q) {
      assert QueuedAt(tab, ready, q);
    }
  }

  /** Taking a process out of the queue and giving it a state other than activable. */
  lemma DequeueKeepsQueue(tab: Table, ready: seq<int>, p: int, np: Proc)
    requires Queue(tab, ready) && 1 <= p < |tab| && Runnable(tab[p]) && !Runnable(np)
    ensures Queue(tab[p := np], QueueDel(ready, p))
  {
    assert QueuedAt(tab, ready, p);
    var k := IndexOf(ready, p);
    RemoveAtFacts(ready, k);
    var r, tab' := RemoveAt(ready, k), tab[p := np];
    forall q | 1 <= q < |tab'| ensures QueuedAt(tab', r, q) {
      assert QueuedAt(tab, ready, q);
    }
    forall i, j {:trigger r[i], r[j]} | 0 <= i < j < |r| ensures Prio(tab', r[i]) <= Prio(tab', r[j]) {
      assert r[i] in r && r[j] in r;
      assert ready[if i < k then i else i + 1] == r[i] && ready[if j < k then j else j + 1] == r[j];
    }
  }

  /** A change that concerns no queued process and makes none runnable. */
  lemma UpdateKeepsQueue(tab: Table, ready: seq<int>, p: int, np: Proc)
    requires Queue(tab, ready) && 0 <= p < |tab|
    requires Runnable(tab[p]) == Runnable(np) && (Runnable(np) ==> np.prio == tab[p].prio)
    ensures Queue(tab[p := np], ready)
  {
    var tab' := tab[p := np];
    forall q | 1 <= q < |tab'| ensures QueuedAt(tab', ready, q) {
      assert QueuedAt(tab, ready, q);
    }
    forall i, j {:trigger ready[i], ready[j]} | 0 <= i < j < |ready| ensures Prio(tab', ready[i]) <= Prio(tab', ready[j]) {
      assert ready[i] in ready && ready[j] in ready;
      assert QueuedAt(tab, ready, ready[i]) && QueuedAt(tab, ready, ready[j]);
    }
  }

  /** chprio of a queued process: delete and add again under the new priority. */
  lemma RequeueKeepsQueue(tab: Table, ready: seq<int>, p: int, prio: int)
    requires Queue(tab, ready) && 1 <= p < |tab| && Runnable(tab[p])
    ensures var tab' := tab[p := tab[p].(prio := prio)];
            Queue(tab', QueueAdd(tab', QueueDel(ready, p), p))
  {
    var parked := tab[p].(state := Asleep, prio := prio);
    DequeueKeepsQueue(tab, ready, p, parked);
    JoinKeepsQueue(tab[p := parked], QueueDel(ready, p), p, tab[p].(prio := prio));
    assert tab[p := parked][p := tab[p].(prio := prio)] == tab[p := tab[p].(prio := prio)];
  }
}
