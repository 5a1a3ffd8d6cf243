/**
  The producer/consumer buffer of user/test.c (test 17): a ring of `cap` bytes, a counting semaphore for free
  slots, one for filled slots and a mutex. Any number of producers and consumers, any interleaving.
 */
module BoundedBuffer {

  /** Producers run S*, consumers R*; 1 is past the counting semaphore, 2 holds the mutex, 3 has moved the byte
      (mutex still held), 4 has released the mutex. */
  datatype Pc =
    | S0 | S1(x: int) | S2(x: int) | S3 | S4
    | R0 | R1 | R2 | R3(x: int) | R4(x: int)

  datatype State = State(mutex: int, wsem: int, rsem: int, wpos: nat, rpos: nat, buf: seq<int>, pc: seq<Pc>,
                         holder: int, sent: seq<int>, senders: seq<nat>, received: seq<int>, takers: seq<nat>)

  predicate InSection(p: Pc) {
    p.S2? || p.S3? || p.R2? || p.R3?
  }

  predicate Enabled(st: State, i: nat)
    requires i < |st.pc|
  {
    match st.pc[i]
    case S0 => st.wsem > 0
    case R0 => st.rsem > 0
    case S1(_) => st.mutex > 0
    case R1 => st.mutex > 0
    case _ => true
  }

  /** One action of process i; a producer about to start a send picks the byte x. */
  function Step(st: State, i: nat, x: int): State
    requires i < |st.pc| && Enabled(st, i) && |st.buf| > 0
  {
    match st.pc[i]
    case S0 => st.(wsem := st.wsem - 1, pc := st.pc[i := S1(x)])
    case S1(y) => st.(mutex := st.mutex - 1, holder := i, pc := st.pc[i := S2(y)])
    case S2(y) => st.(buf := st.buf[st.wpos % |st.buf| := y], wpos := st.wpos + 1, sent := st.sent + [y], senders := st.senders + [i], pc := st.pc[i := S3])
    case S3 => st.(mutex := st.mutex + 1, holder := -1, pc := st.pc[i := S4])
    case S4 => st.(rsem := st.rsem + 1, pc := st.pc[i := S0])
    case R0 => st.(rsem := st.rsem - 1, pc := st.pc[i := R1])
    case R1 => st.(mutex := st.mutex - 1, holder := i, pc := st.pc[i := R2])
    case R2 =>
      var y := st.buf[st.rpos % |st.buf|];
      st.(received := st.received + [y], takers := st.takers + [i], rpos := st.rpos + 1, pc := st.pc[i := R3(y)])
    case R3(y) => st.(mutex := st.mutex + 1, holder := -1, pc := st.pc[i := R4(y)])
    case R4(_) => st.(wsem := st.wsem + 1, pc := st.pc[i := R0])
  }

  // ---------------------------------------------------------------- counting processes

  /** 1: reserved a free slot; 2: filled a slot, not yet announced; 3: claimed a filled slot; 4: emptied, not yet announced. */
  function Group(p: Pc): int {
    if p.S1? || p.S2? then 1 else if p.S3? || p.S4? then 2 else if p.R1? || p.R2? then 3 else if p.R3? || p.R4? then 4 else 0
  }

  function Count(pc: seq<Pc>, g: int): nat {
    if pc == [] then 0 else Count(pc[1..], g) + (if Group(pc[0]) == g then 1 else 0)
  }

  lemma {:induction false} CountUpdate(pc: seq<Pc>, i: nat, p: Pc, g: int)
    requires i < |pc|
    ensures Count(pc[i := p], g) == Count(pc, g) - (if Group(pc[i]) == g then 1 else 0) + (if Group(p) == g then 1 else 0)
  {
    if i == 0 {
      assert pc[i := p][1..] == pc[1..];
    } else {
      CountUpdate(pc[1..], i - 1, p, g);
      assert pc[i := p][1..] == pc[1..][i - 1 := p];
    }
  }

  lemma {:induction false} CountMember(pc: seq<Pc>, i: nat)
    requires i < |pc|
    ensures Count(pc, Group(pc[i])) >= 1
  {
    if i > 0 { CountMember(pc[1..], i - 1); }
  }

  lemma {:induction false} CountNobody(pc: seq<Pc>, g: int)
    requires forall i {:trigger pc[i]} :: 0 <= i < |pc| ==> Group(pc[i]) != g
    ensures Count(pc, g) == 0
  {
    if pc != [] { CountNobody(pc[1..], g); }
  }

  lemma CountsAfter(pc: seq<Pc>, i: nat, p: Pc)
    requires i < |pc|
    ensures forall g {:trigger Count(pc[i := p], g)} ::
              Count(pc[i := p], g) == Count(pc, g) - (if Group(pc[i]) == g then 1 else 0) + (if Group(p) == g then 1 else 0)
  {
    forall g {:trigger Count(pc[i := p], g)}
      ensures Count(pc[i := p], g) == Count(pc, g) - (if Group(pc[i]) == g then 1 else 0) + (if Group(p) == g then 1 else 0)
    {
      CountUpdate(pc, i, p, g);
    }
  }

  // ---------------------------------------------------------------- invariant

  ghost predicate HolderAt(st: State, i: nat)
    requires i < |st.pc|
  {
    InSection(st.pc[i]) <==> st.holder == i
  }

  /** The slot of every byte sent and not yet received still holds it. */
  ghost predicate SlotAt(st: State, j: nat)
    requires |st.buf| > 0 && j < |st.sent|
  {
    st.buf[j % |st.buf|] == st.sent[j]
  }

  ghost predicate Contents(st: State) {
    && |st.buf| > 0 && |st.sent| == st.wpos && st.rpos <= st.wpos <= st.rpos + |st.buf|
    && st.received == st.sent[..st.rpos]
    && forall j: nat {:trigger SlotAt(st, j)} :: st.rpos <= j < st.wpos ==> SlotAt(st, j)
  }

  ghost predicate Tokens(st: State) {
    && st.wsem >= 0 && st.rsem >= 0
    && st.wpos - st.rpos == st.rsem + Count(st.pc, 2) + Count(st.pc, 3)
    && st.wsem + Count(st.pc, 1) + Count(st.pc, 4) + (st.wpos - st.rpos) == |st.buf|
  }

  ghost predicate Exclusive(st: State) {
    && -1 <= st.holder < |st.pc| && st.mutex == (if st.holder == -1 then 1 else 0)
    && forall i: nat {:trigger HolderAt(st, i)} :: i < |st.pc| ==> HolderAt(st, i)
  }

  ghost predicate Inv(st: State) {
    Contents(st) && Tokens(st) && Exclusive(st)
  }

  /** Conservation: the two counters and the operations in flight always add up to the capacity. */
  lemma TokensAddUp(st: State)
    requires Inv(st)
    ensures st.wsem + st.rsem + Count(st.pc, 1) + Count(st.pc, 2) + Count(st.pc, 3) + Count(st.pc, 4) == |st.buf|
  {
  }

  lemma ExclusiveKeeps(st: State, i: nat, x: int)
    requires Inv(st) && i < |st.pc| && Enabled(st, i)
    ensures Exclusive(Step(st, i, x))
  {
    var st' := Step(st, i, x);
    assert HolderAt(st, i);
    forall k: nat | k < |st'.pc| ensures HolderAt(st', k) { assert HolderAt(st, k); }
  }

  lemma TokensKeep(st: State, i: nat, x: int)
    requires Inv(st) && i < |st.pc| && Enabled(st, i)
    ensures Tokens(Step(st, i, x))
  {
    CountsAfter(st.pc, i, Step(st, i, x).pc[i]);
    assert Step(st, i, x).pc == st.pc[i := Step(st, i, x).pc[i]];
  }

  lemma NoMultipleInside(cap: nat, k: int)
    requires cap > 0
    ensures cap * k <= 0 || cap * k >= cap
  {
    if k >= 1 { assert cap * (k - 1) >= 0; } else { assert cap * (-k) >= 0; }
  }

  lemma SplitDiv(x: nat, cap: nat)
    requires cap > 0
    ensures x == cap * (x / cap) + x % cap
  {
  }

  lemma Distribute(cap: nat, a: int, b: int)
    ensures cap * (a - b) == cap * a - cap * b
  {
  }

  /** Positions less than one lap apart use different slots. */
  lemma RingSlots(j: nat, w: nat, cap: nat)
    requires cap > 0 && j < w < j + cap
    ensures j % cap != w % cap
  {
    SplitDiv(j, cap);
    SplitDiv(w, cap);
    Distribute(cap, w / cap, j / cap);
    NoMultipleInside(cap, w / cap - j / cap);
  }

  /** A send writes only a slot whose byte has been received; a receive takes the oldest unreceived byte. */
  lemma ContentsKeep(st: State, i: nat, x: int)
    requires Inv(st) && i < |st.pc| && Enabled(st, i)
    ensures Contents(Step(st, i, x))
  {
    var st' := Step(st, i, x);
    CountMember(st.pc, i);
    match st.pc[i]
    case S2(y) =>
      forall j: nat | st'.rpos <= j < st'.wpos ensures SlotAt(st', j) {
        if j < st.wpos {
          assert SlotAt(st, j);
          RingSlots(j, st.wpos, |st.buf|);
        }
      }
    case R2 =>
      assert SlotAt(st, st.rpos);
      assert st.sent[..st.rpos + 1] == st.sent[..st.rpos] + [st.sent[st.rpos]];
      forall j: nat | st'.rpos <= j < st'.wpos ensures SlotAt(st', j) { assert SlotAt(st, j); }
    case _ =>
      forall j: nat | st'.rpos <= j < st'.wpos ensures SlotAt(st', j) { assert SlotAt(st, j); }
  }

  lemma StepKeeps(st: State, i: nat, x: int)
    requires Inv(st) && i < |st.pc| && Enabled(st, i)
    ensures Inv(Step(st, i, x))
  {
    ContentsKeep(st, i, x);
    TokensKeep(st, i, x);
    ExclusiveKeeps(st, i, x);
  }

  // ---------------------------------------------------------------- runs

  function Start(cap: nat, procs: seq<Pc>): State {
    State(1, cap, 0, 0, 0, seq(cap, _ => 0), procs, -1, [], [], [], [])
  }

  predicate Fresh(procs: seq<Pc>) {
    forall i {:trigger procs[i]} :: 0 <= i < |procs| ==> procs[i] == S0 || procs[i] == R0
  }

  lemma StartInv(cap: nat, procs: seq<Pc>)
    requires cap > 0 && Fresh(procs)
    ensures Inv(Start(cap, procs))
  {
    forall i: nat | i < |procs| ensures HolderAt(Start(cap, procs), i) {}
    CountNobody(procs, 1);
    CountNobody(procs, 2);
    CountNobody(procs, 3);
    CountNobody(procs, 4);
  }

  function Run(st: State, schedule: seq<(nat, int)>): State
    requires |st.buf| > 0
    decreases |schedule|
  {
    if schedule == [] then st
    else
      var (i, x) := schedule[0];
      if i < |st.pc| && Enabled(st, i) then
        assert |Step(st, i, x).buf| == |st.buf|;
        Run(Step(st, i, x), schedule[1..])
      else Run(st, schedule[1..])
  }

  lemma {:induction false} RunKeeps(st: State, schedule: seq<(nat, int)>)
    requires Inv(st)
    ensures Inv(Run(st, schedule))
    decreases |schedule|
  {
    if schedule != [] {
      var (i, x) := schedule[0];
      if i < |st.pc| && Enabled(st, i) {
        StepKeeps(st, i, x);
        RunKeeps(Step(st, i, x), schedule[1..]);
      } else {
        RunKeeps(st, schedule[1..]);
      }
    }
  }

  // ---------------------------------------------------------------- calls and their bytes

  /** The bytes with which process i calls buf_send during a run, in order. */
  function Sends(st: State, schedule: seq<(nat, int)>, i: nat): seq<int>
    requires |st.buf| > 0
    decreases |schedule|
  {
    if schedule == [] then []
    else
      var (k, x) := schedule[0];
      if k < |st.pc| && Enabled(st, k) then
        assert |Step(st, k, x).buf| == |st.buf|;
        (if k == i && st.pc[i].S0? then [x] else []) + Sends(Step(st, k, x), schedule[1..], i)
      else Sends(st, schedule[1..], i)
  }

  /** The bytes that buf_receive returns to process i during a run, in order. */
  function Returns(st: State, schedule: seq<(nat, int)>, i: nat): seq<int>
    requires |st.buf| > 0
    decreases |schedule|
  {
    if schedule == [] then []
    else
      var (k, x) := schedule[0];
      if k < |st.pc| && Enabled(st, k) then
        assert |Step(st, k, x).buf| == |st.buf|;
        (if k == i && st.pc[i].R4? then [st.pc[i].x] else []) + Returns(Step(st, k, x), schedule[1..], i)
      else Returns(st, schedule[1..], i)
  }

  /** The bytes of a log that concern process i. */
  function Of(s: seq<int>, who: seq<nat>, i: nat): seq<int>
    requires |s| == |who|
  {
    if s == [] then []
    else Of(s[..|s| - 1], who[..|s| - 1], i) + (if who[|s| - 1] == i then [s[|s| - 1]] else [])
  }

  lemma OfSnoc(s: seq<int>, who: seq<nat>, x: int, k: nat, i: nat)
    requires |s| == |who|
    ensures Of(s + [x], who + [k], i) == Of(s, who, i) + (if k == i then [x] else [])
  {
    assert (s + [x])[..|s|] == s && (who + [k])[..|s|] == who;
  }

  predicate Signed(st: State) { |st.senders| == |st.sent| && |st.takers| == |st.received| }

  /** The byte a producer has been given and not yet stored. */
  function Unsent(p: Pc): seq<int> { if p.S1? || p.S2? then [p.x] else [] }

  /** The byte a consumer has taken and not yet returned. */
  function Unreturned(p: Pc): seq<int> { if p.R3? || p.R4? then [p.x] else [] }

  lemma StepSends(st: State, k: nat, x: int, i: nat)
    requires k < |st.pc| && Enabled(st, k) && |st.buf| > 0 && Signed(st) && i < |st.pc|
    ensures var st' := Step(st, k, x);
      && Signed(st') && |st'.pc| == |st.pc| && |st'.buf| == |st.buf|
      && Of(st'.sent, st'.senders, i) + Unsent(st'.pc[i])
         == Of(st.sent, st.senders, i) + Unsent(st.pc[i]) + (if k == i && st.pc[i].S0? then [x] else [])
  {
    if st.pc[k].S2? { OfSnoc(st.sent, st.senders, st.pc[k].x, k, i); }
  }

  lemma StepReturns(st: State, k: nat, x: int, i: nat, past: seq<int>)
    requires k < |st.pc| && Enabled(st, k) && |st.buf| > 0 && Signed(st) && i < |st.pc|
    requires Of(st.received, st.takers, i) == past + Unreturned(st.pc[i])
    ensures var st' := Step(st, k, x);
      && Signed(st') && |st'.pc| == |st.pc| && |st'.buf| == |st.buf|
      && Of(st'.received, st'.takers, i) == past + (if k == i && st.pc[i].R4? then [st.pc[i].x] else []) + Unreturned(st'.pc[i])
  {
    if st.pc[k].R2? { OfSnoc(st.received, st.takers, st.buf[st.rpos % |st.buf|], k, i); }
  }

  lemma Associate(a: seq<int>, b: seq<int>, c: seq<int>)
    ensures (a + b) + c == a + (b + c)
  {
  }

  /** What producer i stored and still holds is what it was called with, in order. */
  lemma {:induction false} RunSends(st: State, schedule: seq<(nat, int)>, i: nat)
    requires |st.buf| > 0 && Signed(st) && i < |st.pc|
    ensures var st' := Run(st, schedule);
      && Signed(st') && |st'.pc| == |st.pc|
      && Of(st'.sent, st'.senders, i) + Unsent(st'.pc[i]) == Of(st.sent, st.senders, i) + Unsent(st.pc[i]) + Sends(st, schedule, i)
    decreases |schedule|
  {
    if schedule != [] {
      var (k, x) := schedule[0];
      if k < |st.pc| && Enabled(st, k) {
        StepSends(st, k, x, i);
        var next, rest := Step(st, k, x), schedule[1..];
        RunSends(next, rest, i);
        Associate(Of(st.sent, st.senders, i) + Unsent(st.pc[i]), if k == i && st.pc[i].S0? then [x] else [], Sends(next, rest, i));
      } else {
        RunSends(st, schedule[1..], i);
      }
    }
  }

  /** What consumer i took is what its calls returned, in order, and the byte it still holds. */
  lemma {:induction false} RunReturns(st: State, schedule: seq<(nat, int)>, i: nat, past: seq<int>)
    requires |st.buf| > 0 && Signed(st) && i < |st.pc|
    requires Of(st.received, st.takers, i) == past + Unreturned(st.pc[i])
    ensures var st' := Run(st, schedule);
      && Signed(st') && |st'.pc| == |st.pc|
      && Of(st'.received, st'.takers, i) == past + Returns(st, schedule, i) + Unreturned(st'.pc[i])
    decreases |schedule|
  {
    if schedule != [] {
      var (k, x) := schedule[0];
      if k < |st.pc| && Enabled(st, k) {
        StepReturns(st, k, x, i, past);
        var now := if k == i && st.pc[i].R4? then [st.pc[i].x] else [];
        var next, rest := Step(st, k, x), schedule[1..];
        RunReturns(next, rest, i, past + now);
        Associate(past, now, Returns(next, rest, i));
      } else {
        RunReturns(st, schedule[1..], i, past);
      }
    }
  }

  /** What a run has to do with the calls of process i. */
  ghost predicate TrueToCalls(first: State, schedule: seq<(nat, int)>, st: State, i: nat)
    requires |first.buf| > 0
  {
    && Signed(st) && i < |st.pc|
    && Of(st.sent, st.senders, i) + Unsent(st.pc[i]) == Sends(first, schedule, i)
    && Of(st.received, st.takers, i) == Returns(first, schedule, i) + Unreturned(st.pc[i])
  }

  /**
    Any capacity, any producers and consumers, any interleaving: the bytes taken out are a prefix of the bytes put
    in; those that a producer put in, and the one it still holds, are the arguments of its calls, in order; those
    that a consumer took are the results of its calls, in order, and the one it still holds.
   */
  lemma EveryRunIsFaithful(cap: nat, procs: seq<Pc>, schedule: seq<(nat, int)>)
    requires cap > 0 && Fresh(procs)
    ensures var first := Start(cap, procs);
            var st := Run(first, schedule);
            && Inv(st) && st.received <= st.sent && |st.sent| - |st.received| <= |st.buf|
            && forall i: nat {:trigger TrueToCalls(first, schedule, st, i)} :: i < |procs| ==> TrueToCalls(first, schedule, st, i)
  {
    StartInv(cap, procs);
    var first := Start(cap, procs);
    RunKeeps(first, schedule);
    var st := Run(first, schedule);
    forall i: nat | i < |procs| ensures TrueToCalls(first, schedule, st, i) {
      RunSends(first, schedule, i);
      RunReturns(first, schedule, i, []);
    }
  }

  /** With a producer and a consumer somewhere in their cycles, the buffer never gets stuck. */
  lemma SomebodyCanMove(st: State, p: nat, c: nat) returns (j: nat)
    requires Inv(st) && p < |st.pc| && c < |st.pc|
    requires st.pc[p].S0? || st.pc[p].S1? || st.pc[p].S2? || st.pc[p].S3? || st.pc[p].S4?
    requires st.pc[c].R0? || st.pc[c].R1? || st.pc[c].R2? || st.pc[c].R3? || st.pc[c].R4?
    ensures j < |st.pc| && Enabled(st, j)
  {
    if st.holder >= 0 {
      j := st.holder;
      assert HolderAt(st, j);
    } else if !(st.pc[p].S0? && st.wsem == 0) {
      j := p;
    } else if !(st.pc[c].R0? && st.rsem == 0) {
      j := c;
    } else {
      TokensAddUp(st);
      j := SomebodyInFlight(st);
    }
  }

  /** Both counters are zero, so somebody is in flight, and in flight nothing blocks but the mutex. */
  lemma SomebodyInFlight(st: State) returns (j: nat)
    requires Inv(st) && st.holder == -1 && st.wsem == 0 && st.rsem == 0
    ensures j < |st.pc| && Enabled(st, j)
  {
    TokensAddUp(st);
    if forall i {:trigger st.pc[i]} :: 0 <= i < |st.pc| ==> Group(st.pc[i]) == 0 {
      CountNobody(st.pc, 1);
      CountNobody(st.pc, 2);
      CountNobody(st.pc, 3);
      CountNobody(st.pc, 4);
    }
    var k :| 0 <= k < |st.pc| && Group(st.pc[k]) != 0;
    j := k;
  }
}
