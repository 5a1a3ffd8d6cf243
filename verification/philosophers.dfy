/**
  The dining philosophers of user/test.c (test 20): one mutex, one private semaphore per philosopher, forks
  marked used or free, and a philosopher who puts his forks down hands them over to a blocked neighbour.
  Every step below is one atomic action of one philosopher; a run is any interleaving of them.
 */
module Philosophers {

  /** Program counters. Names ending in "Wait" are about to wait on the mutex; see InSection for its holders. */
  datatype Pc =
    | Hungry | Taking | Taken | Waiting                          // prendre_fourchettes
    | MealWait | MealShow | Meal | MealEndWait | MealEndShow     // manger
    | Full | Putting1 | Putting2 | PutDone                       // poser_fourchettes
    | ThinkWait | ThinkShow | Think | ThinkEndWait | ThinkEndShow // penser
    | EndWait | EndShow | Done

  /** Auxiliary: which forks a philosopher has been granted and not yet given up. */
  datatype Own = Nothing | Both | RightOnly

  datatype State = State(mutex: int, holder: int, f: seq<bool>, bloque: seq<bool>, s: seq<int>, pc: seq<Pc>, own: seq<Own>)

  function Right(n: nat, i: nat): (r: nat)
    requires i < n
    ensures r < n && r == (i + 1) % n
  {
    if i + 1 == n then 0 else i + 1
  }

  function Left(n: nat, i: nat): (r: nat)
    requires i < n
    ensures r < n && Right(n, r) == i
  {
    if i == 0 then n - 1 else i - 1
  }

  ghost predicate Shape(n: nat, st: State) {
    n >= 3 && |st.f| == n && |st.bloque| == n && |st.s| == n && |st.pc| == n && |st.own| == n
  }

  predicate InSection(p: Pc) {
    p.Taking? || p.Taken? || p.MealShow? || p.MealEndShow? || p.Putting1? || p.Putting2? || p.PutDone? || p.ThinkShow? || p.ThinkEndShow? || p.EndShow?
  }

  predicate WantsMutex(p: Pc) {
    p.Hungry? || p.MealWait? || p.MealEndWait? || p.Full? || p.ThinkWait? || p.ThinkEndWait? || p.EndWait?
  }

  /** Between passing his semaphore and starting to put the forks down. */
  predicate Eating(p: Pc) {
    p.MealWait? || p.MealShow? || p.Meal? || p.MealEndWait? || p.MealEndShow? || p.Full? || p.Putting1?
  }

  // ---------------------------------------------------------------- steps

  predicate Enabled(n: nat, st: State, i: nat)
    requires Shape(n, st) && i < n
  {
    if WantsMutex(st.pc[i]) then st.mutex > 0
    else if st.pc[i] == Waiting then st.s[i] > 0
    else st.pc[i] != Done
  }

  function Enter(st: State, i: nat, to: Pc): State
    requires i < |st.pc|
  {
    st.(mutex := st.mutex - 1, holder := i, pc := st.pc[i := to])
  }

  function Leave(st: State, i: nat, to: Pc): State
    requires i < |st.pc|
  {
    st.(mutex := st.mutex + 1, holder := -1, pc := st.pc[i := to])
  }

  function Grant(st: State, i: nat): State
    requires i < |st.s| && i < |st.own| && i < |st.bloque|
  {
    st.(s := st.s[i := st.s[i] + 1], own := st.own[i := Both], bloque := st.bloque[i := false])
  }

  /** The section of prendre_fourchettes. */
  function Take(n: nat, st: State, i: nat): State
    requires Shape(n, st) && i < n
  {
    if !st.f[i] && !st.f[Right(n, i)] then
      Grant(st.(f := st.f[i := true][Right(n, i) := true]), i).(pc := st.pc[i := Taken])
    else
      st.(bloque := st.bloque[i := true], pc := st.pc[i := Taken])
  }

  /** First test of poser_fourchettes: fork i goes to a blocked left neighbour whose other fork is free, or is freed. */
  function PutLeft(n: nat, st: State, i: nat): State
    requires Shape(n, st) && i < n
  {
    var l := Left(n, i);
    var mine := st.(own := st.own[i := RightOnly], pc := st.pc[i := Putting2]);
    if st.bloque[l] && !st.f[l] then Grant(mine.(f := st.f[l := true]), l)
    else mine.(f := st.f[i := false])
  }

  /** Second test: the same for fork i+1 and the right neighbour. */
  function PutRight(n: nat, st: State, i: nat): State
    requires Shape(n, st) && i < n
  {
    var r := Right(n, i);
    var mine := st.(own := st.own[i := Nothing], pc := st.pc[i := PutDone]);
    if st.bloque[r] && !st.f[Right(n, r)] then Grant(mine.(f := st.f[Right(n, r) := true]), r)
    else mine.(f := st.f[r := false])
  }

  /** The action of philosopher i; `again` decides whether he dines another round. */
  function Step(n: nat, st: State, i: nat, again: bool): (r: State)
    requires Shape(n, st) && i < n && Enabled(n, st, i)
    ensures Shape(n, r)
  {
    match st.pc[i]
    case Hungry => Enter(st, i, Taking)
    case Taking => Take(n, st, i)
    case Taken => Leave(st, i, Waiting)
    case Waiting => st.(s := st.s[i := st.s[i] - 1], pc := st.pc[i := MealWait])
    case MealWait => Enter(st, i, MealShow)
    case MealShow => Leave(st, i, Meal)
    case Meal => st.(pc := st.pc[i := MealEndWait])
    case MealEndWait => Enter(st, i, MealEndShow)
    case MealEndShow => Leave(st, i, Full)
    case Full => Enter(st, i, Putting1)
    case Putting1 => PutLeft(n, st, i)
    case Putting2 => PutRight(n, st, i)
    case PutDone => Leave(st, i, ThinkWait)
    case ThinkWait => Enter(st, i, ThinkShow)
    case ThinkShow => Leave(st, i, Think)
    case Think => st.(pc := st.pc[i := ThinkEndWait])
    case ThinkEndWait => Enter(st, i, ThinkEndShow)
    case ThinkEndShow => Leave(st, i, if again then Hungry else EndWait)
    case EndWait => Enter(st, i, EndShow)
    case EndShow => Leave(st, i, Done)
    case Done => st
  }

  function Start(n: nat): State {
    State(1, -1, seq(n, _ => false), seq(n, _ => false), seq(n, _ => 0), seq(n, _ => Hungry), seq(n, _ => Nothing))
  }

  // ---------------------------------------------------------------- invariant

  /** Fork k is marked used iff exactly one of its two neighbours holds it, and never both hold it. */
  ghost predicate ForkAt(n: nat, st: State, k: nat)
    requires Shape(n, st) && k < n
  {
    var byLeftHand, byRightHand := st.own[k] == Both, st.own[Left(n, k)] != Nothing;
    !(byLeftHand && byRightHand) && (st.f[k] <==> byLeftHand || byRightHand)
  }

  /** A philosopher's program counter, semaphore, flag and forks agree; a blocked one lacks a fork in use. */
  ghost predicate PhiloAt(n: nat, st: State, i: nat)
    requires Shape(n, st) && i < n
  {
    && (InSection(st.pc[i]) <==> st.holder == i)
    && (if st.pc[i] == Taken || st.pc[i] == Waiting then
          if st.bloque[i] then st.own[i] == Nothing && st.s[i] == 0 else st.own[i] == Both && st.s[i] == 1
        else
          && !st.bloque[i] && st.s[i] == 0
          && st.own[i] == (if Eating(st.pc[i]) then Both else if st.pc[i] == Putting2 then RightOnly else Nothing))
    && (st.bloque[i] ==> st.f[i] || st.f[Right(n, i)])
  }

  ghost predicate Inv(n: nat, st: State) {
    && Shape(n, st)
    && -1 <= st.holder < n && st.mutex == (if st.holder == -1 then 1 else 0)
    && (forall k: nat {:trigger ForkAt(n, st, k)} :: k < n ==> ForkAt(n, st, k))
    && (forall i: nat {:trigger PhiloAt(n, st, i)} :: i < n ==> PhiloAt(n, st, i))
  }

  lemma StartInv(n: nat)
    requires n >= 3
    ensures Inv(n, Start(n))
  {
    forall k: nat | k < n ensures ForkAt(n, Start(n), k) && PhiloAt(n, Start(n), k) {}
  }

  /** Two neighbours never eat at the same time. */
  lemma NeighboursNeverEatTogether(n: nat, st: State, i: nat)
    requires Inv(n, st) && i < n
    ensures !(Eating(st.pc[i]) && Eating(st.pc[Right(n, i)]))
  {
    var r := Right(n, i);
    assert PhiloAt(n, st, i) && PhiloAt(n, st, r) && ForkAt(n, st, r);
    assert Left(n, r) == i;
  }

  lemma AroundTheTable(n: nat, i: nat)
    requires n >= 3 && i < n
    ensures Left(n, Right(n, i)) == i
    ensures Left(n, i) != i && Right(n, i) != i && Right(n, i) != Left(n, i)
    ensures Right(n, Right(n, i)) != i
  {
  }

  // ---------------------------------------------------------------- every step keeps the invariant

  /** Moving along without touching forks, flags or semaphores. */
  lemma MoveKeeps(n: nat, st: State, st': State, i: nat)
    requires Inv(n, st) && i < n && Shape(n, st') && -1 <= st'.holder < n && st'.mutex == (if st'.holder == -1 then 1 else 0)
    requires st' == st.(mutex := st'.mutex, holder := st'.holder, pc := st.pc[i := st'.pc[i]])
    requires (st.holder == st'.holder != i) || (st.holder == -1 && st'.holder == i) || (st.holder == i && st'.holder == -1)
    requires PhiloAt(n, st', i)
    ensures Inv(n, st')
  {
    forall k: nat | k < n ensures ForkAt(n, st', k) { assert ForkAt(n, st, k); }
    forall k: nat | k < n ensures PhiloAt(n, st', k) { if k != i { assert PhiloAt(n, st, k); } }
  }

  lemma TakeKeeps(n: nat, st: State, i: nat)
    requires Inv(n, st) && i < n && st.pc[i] == Taking
    ensures Inv(n, Take(n, st, i))
  {
    var st' := Take(n, st, i);
    var r := Right(n, i);
    AroundTheTable(n, i);
    assert PhiloAt(n, st, i) && ForkAt(n, st, i) && ForkAt(n, st, r);
    forall k: nat | k < n ensures ForkAt(n, st', k) {
      assert ForkAt(n, st, k);
      if Left(n, k) == i { assert Right(n, Left(n, k)) == k; }
    }
    forall k: nat | k < n ensures PhiloAt(n, st', k) {
      assert PhiloAt(n, st, k);
    }
  }

  lemma PutLeftKeeps(n: nat, st: State, i: nat)
    requires Inv(n, st) && i < n && st.pc[i] == Putting1
    ensures Inv(n, PutLeft(n, st, i))
  {
    var st' := PutLeft(n, st, i);
    var l := Left(n, i);
    AroundTheTable(n, i);
    AroundTheTable(n, l);
    assert PhiloAt(n, st, i) && PhiloAt(n, st, l) && ForkAt(n, st, i) && ForkAt(n, st, l);
    forall k: nat | k < n ensures ForkAt(n, st', k) {
      assert ForkAt(n, st, k);
      if Left(n, k) == i || Left(n, k) == l { assert Right(n, Left(n, k)) == k; }
    }
    forall k: nat | k < n ensures PhiloAt(n, st', k) {
      assert PhiloAt(n, st, k);
      if Right(n, k) == i { AroundTheTable(n, k); }
    }
  }

  lemma PutRightKeeps(n: nat, st: State, i: nat)
    requires Inv(n, st) && i < n && st.pc[i] == Putting2
    ensures Inv(n, PutRight(n, st, i))
  {
    var st' := PutRight(n, st, i);
    var r := Right(n, i);
    AroundTheTable(n, i);
    AroundTheTable(n, r);
    assert PhiloAt(n, st, i) && PhiloAt(n, st, r) && ForkAt(n, st, r) && ForkAt(n, st, Right(n, r));
    forall k: nat | k < n ensures ForkAt(n, st', k) {
      assert ForkAt(n, st, k);
      if Left(n, k) == i || Left(n, k) == r { assert Right(n, Left(n, k)) == k; }
    }
    forall k: nat | k < n ensures PhiloAt(n, st', k) {
      assert PhiloAt(n, st, k);
      if Right(n, k) == r { AroundTheTable(n, k); }
    }
  }

  /** What entering or leaving the section may do to the program counter: forks stay where they are. */
  predicate SameHold(a: Pc, b: Pc) {
    && Eating(a) == Eating(b) && a != Putting2 && b != Putting2
    && (a == Taken || a == Waiting <==> b == Taken || b == Waiting)
  }

  lemma EnterKeeps(n: nat, st: State, i: nat, to: Pc)
    requires Inv(n, st) && i < n && st.mutex > 0 && InSection(to) && SameHold(st.pc[i], to)
    ensures Inv(n, Enter(st, i, to))
  {
    assert PhiloAt(n, st, i);
    MoveKeeps(n, st, Enter(st, i, to), i);
  }

  lemma LeaveKeeps(n: nat, st: State, i: nat, to: Pc)
    requires Inv(n, st) && i < n && InSection(st.pc[i]) && !InSection(to) && SameHold(st.pc[i], to)
    ensures Inv(n, Leave(st, i, to))
  {
    assert PhiloAt(n, st, i);
    MoveKeeps(n, st, Leave(st, i, to), i);
  }

  lemma PassKeeps(n: nat, st: State, i: nat, st': State)
    requires Inv(n, st) && i < n && st.pc[i] == Waiting && st.s[i] > 0
    requires st' == st.(s := st.s[i := st.s[i] - 1], pc := st.pc[i := MealWait])
    ensures Inv(n, st')
  {
    assert PhiloAt(n, st, i);
    forall k: nat | k < n ensures ForkAt(n, st', k) { assert ForkAt(n, st, k); }
    forall k: nat | k < n ensures PhiloAt(n, st', k) { assert PhiloAt(n, st, k); }
  }

  lemma WalkKeeps(n: nat, st: State, i: nat, to: Pc)
    requires Inv(n, st) && i < n && !InSection(st.pc[i]) && !InSection(to) && SameHold(st.pc[i], to)
    ensures Inv(n, st.(pc := st.pc[i := to]))
  {
    assert PhiloAt(n, st, i);
    MoveKeeps(n, st, st.(pc := st.pc[i := to]), i);
  }

  lemma StepKeeps(n: nat, st: State, i: nat, again: bool)
    requires Inv(n, st) && i < n && Enabled(n, st, i)
    ensures Inv(n, Step(n, st, i, again))
  {
    match st.pc[i]
    case Hungry => EnterKeeps(n, st, i, Taking);
    case Taking => TakeKeeps(n, st, i);
    case Taken => LeaveKeeps(n, st, i, Waiting);
    case Waiting => PassKeeps(n, st, i, Step(n, st, i, again));
    case MealWait => EnterKeeps(n, st, i, MealShow);
    case MealShow => LeaveKeeps(n, st, i, Meal);
    case Meal => WalkKeeps(n, st, i, MealEndWait);
    case MealEndWait => EnterKeeps(n, st, i, MealEndShow);
    case MealEndShow => LeaveKeeps(n, st, i, Full);
    case Full => EnterKeeps(n, st, i, Putting1);
    case Putting1 => PutLeftKeeps(n, st, i);
    case Putting2 => PutRightKeeps(n, st, i);
    case PutDone => LeaveKeeps(n, st, i, ThinkWait);
    case ThinkWait => EnterKeeps(n, st, i, ThinkShow);
    case ThinkShow => LeaveKeeps(n, st, i, Think);
    case Think => WalkKeeps(n, st, i, ThinkEndWait);
    case ThinkEndWait => EnterKeeps(n, st, i, ThinkEndShow);
    case ThinkEndShow => LeaveKeeps(n, st, i, if again then Hungry else EndWait);
    case EndWait => EnterKeeps(n, st, i, EndShow);
    case EndShow => LeaveKeeps(n, st, i, Done);
    case Done =>
  }

  // ---------------------------------------------------------------- progress

  /** A blocked philosopher lacks a fork that a neighbour holds, and that neighbour is not blocked. */
  lemma BlockedHasBusyNeighbour(n: nat, st: State, i: nat) returns (j: nat)
    requires Inv(n, st) && i < n && st.bloque[i]
    ensures j < n && (j == Left(n, i) || j == Right(n, i))
    ensures st.own[j] != Nothing && !st.bloque[j] && st.pc[j] != Done
    ensures st.pc[j] == Taken || (st.pc[j] == Waiting && st.s[j] == 1) || Eating(st.pc[j]) || st.pc[j] == Putting2
  {
    var l, r := Left(n, i), Right(n, i);
    AroundTheTable(n, i);
    assert PhiloAt(n, st, i) && ForkAt(n, st, i) && ForkAt(n, st, r);
    j := if st.f[i] then l else r;
    assert PhiloAt(n, st, j);
  }

  /** No deadlock: unless everybody has finished, somebody can move. */
  lemma SomebodyCanMove(n: nat, st: State) returns (j: nat)
    requires Inv(n, st) && exists i: nat :: i < n && st.pc[i] != Done
    ensures j < n && Enabled(n, st, j) && st.pc[j] != Done
  {
    var i: nat :| i < n && st.pc[i] != Done;
    if st.holder >= 0 {
      j := st.holder;
      assert PhiloAt(n, st, j);
    } else {
      assert PhiloAt(n, st, i);
      j := i;
      if st.pc[i] == Waiting && st.bloque[i] {
        j := BlockedHasBusyNeighbour(n, st, i);
        assert PhiloAt(n, st, j);
      }
    }
  }

  // ---------------------------------------------------------------- runs

  /** A schedule picks a philosopher and his choice at every step; picks that cannot move are skipped. */
  function Run(n: nat, st: State, schedule: seq<(nat, bool)>): State
    requires Shape(n, st)
    decreases |schedule|
  {
    if schedule == [] then st
    else
      var (i, again) := schedule[0];
      if i < n && Enabled(n, st, i) then Run(n, Step(n, st, i, again), schedule[1..])
      else Run(n, st, schedule[1..])
  }

  lemma {:induction false} RunKeeps(n: nat, st: State, schedule: seq<(nat, bool)>)
    requires Inv(n, st)
    ensures Inv(n, Run(n, st, schedule))
    decreases |schedule|
  {
    if schedule != [] {
      var (i, again) := schedule[0];
      if i < n && Enabled(n, st, i) {
        StepKeeps(n, st, i, again);
        RunKeeps(n, Step(n, st, i, again), schedule[1..]);
      } else {
        RunKeeps(n, st, schedule[1..]);
      }
    }
  }

  /** Any number of philosophers from three on, any interleaving: exclusion always, deadlock never. */
  lemma EveryRunIsSafe(n: nat, schedule: seq<(nat, bool)>)
    requires n >= 3
    ensures var st := Run(n, Start(n), schedule);
            && Inv(n, st)
            && (forall i: nat {:trigger st.pc[i]} :: i < n ==> !(Eating(st.pc[i]) && Eating(st.pc[Right(n, i)])))
            && ((forall i: nat {:trigger st.pc[i]} :: i < n ==> st.pc[i] == Done) || exists j: nat :: j < n && Enabled(n, st, j) && st.pc[j] != Done)
  {
    StartInv(n);
    RunKeeps(n, Start(n), schedule);
    var st := Run(n, Start(n), schedule);
    forall i: nat {:trigger st.pc[i]} | i < n ensures !(Eating(st.pc[i]) && Eating(st.pc[Right(n, i)])) {
      NeighboursNeverEatTogether(n, st, i);
    }
    if exists i: nat :: i < n && st.pc[i] != Done {
      var j := SomebodyCanMove(n, st);
    }
  }

  // ---------------------------------------------------------------- meals

  /** How often philosopher i comes to a point of his program during a run. */
  function Visits(n: nat, st: State, schedule: seq<(nat, bool)>, i: nat, at: Pc): nat
    requires Shape(n, st) && i < n
    decreases |schedule|
  {
    if schedule == [] then 0
    else
      var (j, again) := schedule[0];
      if j < n && Enabled(n, st, j) then
        var next := Step(n, st, j, again);
        (if next.pc[i] == at && st.pc[i] != at then 1 else 0) + Visits(n, next, schedule[1..], i, at)
      else Visits(n, st, schedule[1..], i, at)
  }

  /** He has passed his semaphore and not yet started to eat. */
  function Served(p: Pc): int { if p.MealWait? || p.MealShow? then 1 else 0 }

  /** He has eaten, or is eating, and has not started to put the forks down. */
  function Fed(p: Pc): int { if p.Meal? || p.MealEndWait? || p.MealEndShow? || p.Full? then 1 else 0 }

  /** A step moves the program of one philosopher only. */
  lemma OthersStay(n: nat, st: State, j: nat, again: bool, i: nat)
    requires Shape(n, st) && i < n && j < n && Enabled(n, st, j) && i != j
    ensures Step(n, st, j, again).pc[i] == st.pc[i]
  {
  }

  lemma StepOfMeal(n: nat, st: State, j: nat, again: bool, i: nat)
    requires Shape(n, st) && i < n && j < n && Enabled(n, st, j)
    ensures var a, b := st.pc[i], Step(n, st, j, again).pc[i];
      && Served(a) + (if b == MealWait && a != MealWait then 1 else 0) == (if b == Meal && a != Meal then 1 else 0) + Served(b)
      && Fed(a) + (if b == Meal && a != Meal then 1 else 0) == (if b == Putting1 && a != Putting1 then 1 else 0) + Fed(b)
  {
    if i != j { OthersStay(n, st, j, again, i); }
  }

  lemma {:induction false} MealsInRun(n: nat, st: State, schedule: seq<(nat, bool)>, i: nat)
    requires Shape(n, st) && i < n
    ensures var e := Run(n, st, schedule);
      && Shape(n, e)
      && Served(st.pc[i]) + Visits(n, st, schedule, i, MealWait) == Visits(n, st, schedule, i, Meal) + Served(e.pc[i])
      && Fed(st.pc[i]) + Visits(n, st, schedule, i, Meal) == Visits(n, st, schedule, i, Putting1) + Fed(e.pc[i])
    decreases |schedule|
  {
    if schedule != [] {
      var (j, again) := schedule[0];
      if j < n && Enabled(n, st, j) {
        StepOfMeal(n, st, j, again, i);
        MealsInRun(n, Step(n, st, j, again), schedule[1..], i);
      } else {
        MealsInRun(n, st, schedule[1..], i);
      }
    }
  }

  /** In every run each philosopher eats once for each time he gets through his semaphore, before he puts forks down. */
  lemma EatsBeforePutting(n: nat, schedule: seq<(nat, bool)>, i: nat)
    requires n >= 3 && i < n
    ensures var e := Run(n, Start(n), schedule);
      && Shape(n, e)
      && Visits(n, Start(n), schedule, i, MealWait) == Visits(n, Start(n), schedule, i, Meal) + Served(e.pc[i])
      && Visits(n, Start(n), schedule, i, Meal) == Visits(n, Start(n), schedule, i, Putting1) + Fed(e.pc[i])
  {
    MealsInRun(n, Start(n), schedule, i);
  }
}
