/**
 The alert queue, src/core/alert_queue.hpp: a mutex, a condition variable and a FIFO, as a machine
 whose steps are the atomic actions of any number of threads. Taking the lock, touching the queue,
 notifying and releasing the lock are separate steps, and a sleeper may wake at any time.
 */
module AlertQueue {
  import opened Common

  datatype Alert = Alert(kind: string, score: real)

  /** Where one thread is. */
  datatype Pc =
    | Outside                   // in neither push nor pop
    | PushLock(item: Alert)     // wants the mutex
    | PushEnqueue(item: Alert)  // holds it, about to append
    | PushNotify                // holds it, appended, about to notify_one
    | PushUnlock                // holds it, about to release
    | PopLock                   // wants the mutex: just called, or woken in wait
    | PopTest                   // holds it, about to evaluate the wait predicate
    | PopTake                   // holds it, the predicate was true
    | PopUnlock(item: Alert)    // holds it, has the alert, about to release and return
    | Asleep                    // waits on the condition variable, without the mutex
  {
    predicate HoldsLock() {
      PushEnqueue? || PushNotify? || PushUnlock? || PopTest? || PopTake? || PopUnlock?
    }
  }

  /** `pushed` and `returned` record the order of the appends and of the returns of pop. */
  datatype Monitor = Monitor(
    threads: seq<Pc>,
    owner: int,                 // the thread that holds the mutex, -1 for none
    queue: seq<Alert>,
    pushed: seq<Alert>,
    returned: seq<Alert>)

  datatype Step =
    | CallPush(t: nat, item: Alert)
    | CallPop(t: nat)
    | Advance(t: nat, wakes: nat)   // `wakes`: the sleeper notify_one picks, when there is one
    | Spurious(t: nat)

  function Start(threads: nat): Monitor
  {
    Monitor(seq(threads, _ => Outside), -1, [], [], [])
  }

  predicate NoSleeper(m: Monitor)
  {
    forall i :: 0 <= i < |m.threads| ==> !m.threads[i].Asleep?
  }

  predicate Enabled(m: Monitor, s: Step)
  {
    && s.t < |m.threads|
    && match s
       case CallPush(t, _) => m.threads[t].Outside?
       case CallPop(t) => m.threads[t].Outside?
       case Spurious(t) => m.threads[t].Asleep?
       case Advance(t, wakes) =>
         match m.threads[t]
         case Outside | Asleep => false
         case PushLock(_) | PopLock => m.owner == -1
         case PushNotify => NoSleeper(m) || (wakes < |m.threads| && m.threads[wakes].Asleep?)
         case _ => true
  }

  function Next(m: Monitor, s: Step): Monitor
    requires Enabled(m, s)
  {
    match s
    case CallPush(t, item) => m.(threads := m.threads[t := PushLock(item)])
    case CallPop(t) => m.(threads := m.threads[t := PopLock])
    case Spurious(t) => m.(threads := m.threads[t := PopLock])
    case Advance(t, wakes) =>
      match m.threads[t]
      case PushLock(item) => m.(threads := m.threads[t := PushEnqueue(item)], owner := t)
      case PushEnqueue(item) =>
        m.(threads := m.threads[t := PushNotify], queue := m.queue + [item], pushed := m.pushed + [item])
      case PushNotify =>
        m.(threads := (if NoSleeper(m) then m.threads else m.threads[wakes := PopLock])[t := PushUnlock])
      case PushUnlock => m.(threads := m.threads[t := Outside], owner := -1)
      case PopLock => m.(threads := m.threads[t := PopTest], owner := t)
      case PopTest =>
        if m.queue == [] then m.(threads := m.threads[t := Asleep], owner := -1)
        else m.(threads := m.threads[t := PopTake])
      case PopTake =>
        if m.queue == [] then m  // never: see TakeFindsAnAlert
        else m.(threads := m.threads[t := PopUnlock(m.queue[0])], queue := m.queue[1..])
      case PopUnlock(item) =>
        m.(threads := m.threads[t := Outside], owner := -1, returned := m.returned + [item])
  }

  predicate IsRun(threads: nat, steps: seq<Step>)
    decreases steps, 0
  {
    steps == [] ||
    (IsRun(threads, steps[..|steps| - 1]) &&
     Enabled(After(threads, steps[..|steps| - 1]), steps[|steps| - 1]))
  }

  /** The state after a run from the empty queue with every thread outside. */
  function After(threads: nat, steps: seq<Step>): Monitor
    requires IsRun(threads, steps)
    decreases steps, 1
  {
    if steps == [] then Start(threads)
    else Next(After(threads, steps[..|steps| - 1]), steps[|steps| - 1])
  }

  // ---- Sums over threads -----------------------------------------------------------------------

  function Sum(threads: seq<Pc>, weight: Pc -> int): int
  {
    if threads == [] then 0 else Sum(threads[..|threads| - 1], weight) + weight(threads[|threads| - 1])
  }

  lemma {:induction false} SumUpdate(threads: seq<Pc>, t: nat, pc: Pc, weight: Pc -> int)
    requires t < |threads|
    ensures Sum(threads[t := pc], weight) == Sum(threads, weight) - weight(threads[t]) + weight(pc)
  {
    var last := |threads| - 1;
    if t == last {
      assert threads[t := pc][..last] == threads[..last];
    } else {
      assert threads[t := pc][..last] == threads[..last][t := pc];
      SumUpdate(threads[..last], t, pc, weight);
    }
  }

  lemma {:induction false} SumAtLeast(threads: seq<Pc>, t: nat, weight: Pc -> int)
    requires forall pc :: weight(pc) >= 0
    requires t < |threads|
    ensures Sum(threads, weight) >= weight(threads[t])
    ensures Sum(threads, weight) >= 0
  {
    var last := |threads| - 1;
    if t < last {
      SumAtLeast(threads[..last], t, weight);
    } else if last > 0 {
      SumAtLeast(threads[..last], 0, weight);
    }
  }

  lemma {:induction false} SumZero(threads: seq<Pc>, weight: Pc -> int)
    requires forall i :: 0 <= i < |threads| ==> weight(threads[i]) == 0
    ensures Sum(threads, weight) == 0
  {
    if threads != [] {
      SumZero(threads[..|threads| - 1], weight);
    }
  }

  /** Awake inside pop and still to take an alert. */
  function Awake(pc: Pc): int { if pc.PopLock? || pc.PopTest? || pc.PopTake? then 1 else 0 }

  function AwakeInPop(m: Monitor): int { Sum(m.threads, Awake) }

  // ---- The invariant ---------------------------------------------------------------------------

  predicate NotifyPending(m: Monitor)
  {
    0 <= m.owner < |m.threads| && m.threads[m.owner].PushNotify?
  }

  function InHand(m: Monitor): seq<Alert>
  {
    if 0 <= m.owner < |m.threads| && m.threads[m.owner].PopUnlock? then [m.threads[m.owner].item] else []
  }

  ghost predicate Inv(m: Monitor)
  {
    // mutual exclusion
    && -1 <= m.owner < |m.threads|
    && (forall i :: 0 <= i < |m.threads| ==> (m.threads[i].HoldsLock() <==> m.owner == i))
    // a thread past the predicate finds an alert
    && (0 <= m.owner && m.threads[m.owner].PopTake? ==> m.queue != [])
    // first in, first out, exactly once
    && m.pushed == m.returned + InHand(m) + m.queue
    // no lost wakeup
    && (NoSleeper(m) || |m.queue| <= AwakeInPop(m) + if NotifyPending(m) then 1 else 0)
  }

  /** Everything of the invariant but the counting is kept by every step. */
  lemma StepKeepsOrder(m: Monitor, s: Step)
    requires Inv(m) && Enabled(m, s)
    ensures var m' := Next(m, s);
            && -1 <= m'.owner < |m'.threads| == |m.threads|
            && (forall i :: 0 <= i < |m'.threads| ==> (m'.threads[i].HoldsLock() <==> m'.owner == i))
            && (0 <= m'.owner && m'.threads[m'.owner].PopTake? ==> m'.queue != [])
            && m'.pushed == m'.returned + InHand(m') + m'.queue
  {
  }

  /** The counting half: a notify moves a sleeper to the awake ones, a spurious wakeup only adds one. */
  lemma StepKeepsWakeups(m: Monitor, s: Step)
    requires Inv(m) && Enabled(m, s)
    ensures var m' := Next(m, s);
            NoSleeper(m') || |m'.queue| <= AwakeInPop(m') + if NotifyPending(m') then 1 else 0
  {
    var m' := Next(m, s);
    if s.Advance? && m.threads[s.t].PushNotify? && !NoSleeper(m) {
      SumUpdate(m.threads, s.wakes, PopLock, Awake);
      SumUpdate(m.threads[s.wakes := PopLock], s.t, PushUnlock, Awake);
    } else {
      SumUpdate(m.threads, s.t, m'.threads[s.t], Awake);
      assert m'.threads == m.threads[s.t := m'.threads[s.t]];
    }
    SumAtLeast(m'.threads, s.t, Awake);
  }

  lemma {:induction false} InvHolds(threads: nat, steps: seq<Step>)
    requires IsRun(threads, steps)
    ensures Inv(After(threads, steps)) && |After(threads, steps).threads| == threads
  {
    if steps != [] {
      InvHolds(threads, steps[..|steps| - 1]);
      StepKeepsOrder(After(threads, steps[..|steps| - 1]), steps[|steps| - 1]);
      StepKeepsWakeups(After(threads, steps[..|steps| - 1]), steps[|steps| - 1]);
    }
  }

  // ---- What callers can rely on ----------------------------------------------------------------

  /** Whenever some consumer sleeps and no push is about to notify, the queue is no longer than the number of
      consumers awake in pop. */
  lemma NoLostWakeup(threads: nat, steps: seq<Step>)
    requires IsRun(threads, steps)
    ensures var m := After(threads, steps);
            !NoSleeper(m) && !NotifyPending(m) ==> |m.queue| <= AwakeInPop(m)
  {
    InvHolds(threads, steps);
  }

  /** Alerts come back in the order they were pushed, each at most once, and none vanishes. */
  lemma FifoExactlyOnce(threads: nat, steps: seq<Step>)
    requires IsRun(threads, steps)
    ensures var m := After(threads, steps);
            && m.returned <= m.pushed
            && (m.owner == -1 ==> m.pushed == m.returned + m.queue)
  {
    InvHolds(threads, steps);
  }

  /** At most one thread is ever between lock and unlock. */
  lemma MutualExclusion(threads: nat, steps: seq<Step>, i: nat, j: nat)
    requires IsRun(threads, steps)
    requires i < |After(threads, steps).threads| && j < |After(threads, steps).threads|
    requires After(threads, steps).threads[i].HoldsLock() && After(threads, steps).threads[j].HoldsLock()
    ensures i == j
  {
    InvHolds(threads, steps);
  }

  /** queue_.front() is never called on an empty queue. */
  lemma TakeFindsAnAlert(threads: nat, steps: seq<Step>, t: nat)
    requires IsRun(threads, steps) && t < |After(threads, steps).threads|
    requires After(threads, steps).threads[t].PopTake?
    ensures After(threads, steps).queue != []
  {
    InvHolds(threads, steps);
  }

  // ---- Progress --------------------------------------------------------------------------------

  /** Nothing is left to do without a new call or a spurious wakeup. */
  predicate Settled(m: Monitor)
  {
    forall i :: 0 <= i < |m.threads| ==> m.threads[i].Outside? || m.threads[i].Asleep?
  }

  /** A state that is not settled has a thread that can move: the machine never deadlocks. */
  lemma SomeThreadCanMove(threads: nat, steps: seq<Step>)
    requires IsRun(threads, steps) && !Settled(After(threads, steps))
    ensures exists s: Step :: s.Advance? && Enabled(After(threads, steps), s)
  {
    InvHolds(threads, steps);
    var m := After(threads, steps);
    var t: nat;
    if m.owner == -1 {
      t :| t < |m.threads| && !(m.threads[t].Outside? || m.threads[t].Asleep?);
    } else {
      t := m.owner;
    }
    var wakes: nat := 0;
    if !NoSleeper(m) {
      wakes :| wakes < |m.threads| && m.threads[wakes].Asleep?;
    }
    assert Enabled(m, Advance(t, wakes));
  }

  /** How many steps a thread can still take on its own, a wakeup it causes included. */
  function Rank(pc: Pc): int
  {
    match pc
    case Outside => 0
    case Asleep => 0
    case PushLock(_) => 8
    case PushEnqueue(_) => 7
    case PushNotify => 6
    case PushUnlock => 1
    case PopLock => 4
    case PopTest => 3
    case PopTake => 2
    case PopUnlock(_) => 1
  }

  function Work(m: Monitor): int { Sum(m.threads, Rank) }

  lemma AdvanceLowersRank(m: Monitor, s: Step)
    requires Inv(m) && Enabled(m, s) && s.Advance?
    ensures Work(Next(m, s)) < Work(m)
  {
    var threads := Next(m, s).threads;
    if m.threads[s.t].PushNotify? && !NoSleeper(m) {
      SumUpdate(m.threads, s.wakes, PopLock, Rank);
      SumUpdate(m.threads[s.wakes := PopLock], s.t, PushUnlock, Rank);
    } else {
      assert threads == m.threads[s.t := threads[s.t]];
      assert Rank(threads[s.t]) < Rank(m.threads[s.t]);
      SumUpdate(m.threads, s.t, threads[s.t], Rank);
    }
  }

  /** Every step but a call or a spurious wakeup uses up work, so the calls in progress settle. */
  lemma AdvanceUsesWork(threads: nat, steps: seq<Step>, s: Step)
    requires IsRun(threads, steps) && Enabled(After(threads, steps), s) && s.Advance?
    ensures 0 <= Work(Next(After(threads, steps), s)) < Work(After(threads, steps))
  {
    InvHolds(threads, steps);
    AdvanceLowersRank(After(threads, steps), s);
    SumAtLeast(Next(After(threads, steps), s).threads, s.t, Rank);
  }

  /** Once settled, no alert waits in the queue while a consumer sleeps. */
  lemma SettledStrandsNothing(threads: nat, steps: seq<Step>)
    requires IsRun(threads, steps) && Settled(After(threads, steps))
    ensures After(threads, steps).queue == [] || NoSleeper(After(threads, steps))
  {
    InvHolds(threads, steps);
    SumZero(After(threads, steps).threads, Awake);
  }

  lemma AfterOneMore(threads: nat, steps: seq<Step>, s: Step)
    requires IsRun(threads, steps) && Enabled(After(threads, steps), s)
    ensures IsRun(threads, steps + [s])
    ensures After(threads, steps + [s]) == Next(After(threads, steps), s)
  {
    assert (steps + [s])[..|steps|] == steps;
  }

  /** `more` is only the threads' own steps, and leaves nothing to do and no alert behind a sleeper. */
  predicate Delivers(threads: nat, steps: seq<Step>, more: seq<Step>)
  {
    && IsRun(threads, steps + more)
    && (forall i :: 0 <= i < |more| ==> more[i].Advance?)
    && Settled(After(threads, steps + more))
    && (After(threads, steps + more).queue == [] || NoSleeper(After(threads, steps + more)))
  }

  /** From any reachable state the threads, left to themselves, reach a state where nothing is stranded. */
  lemma {:induction false} EventuallyDelivered(threads: nat, steps: seq<Step>)
    requires IsRun(threads, steps)
    ensures exists more :: Delivers(threads, steps, more)
    decreases Work(After(threads, steps))
  {
    if Settled(After(threads, steps)) {
      assert steps + [] == steps;
      SettledStrandsNothing(threads, steps);
      assert Delivers(threads, steps, []);
    } else {
      SomeThreadCanMove(threads, steps);
      var s: Step :| s.Advance? && Enabled(After(threads, steps), s);
      AdvanceUsesWork(threads, steps, s);
      AfterOneMore(threads, steps, s);
      EventuallyDelivered(threads, steps + [s]);
      var rest :| Delivers(threads, steps + [s], rest);
      DeliversSooner(threads, steps, s, rest);
    }
  }

  lemma DeliversSooner(threads: nat, steps: seq<Step>, s: Step, rest: seq<Step>)
    requires s.Advance? && Delivers(threads, steps + [s], rest)
    ensures Delivers(threads, steps, [s] + rest)
  {
    assert steps + ([s] + rest) == steps + [s] + rest;
  }

  // ---- How many alerts arrive ------------------------------------------------------------------

  /** The calls of push and of pop in a run. */
  function Pushes(steps: seq<Step>): nat
  {
    if steps == [] then 0
    else Pushes(steps[..|steps| - 1]) + if steps[|steps| - 1].CallPush? then 1 else 0
  }

  function Pops(steps: seq<Step>): nat
  {
    if steps == [] then 0
    else Pops(steps[..|steps| - 1]) + if steps[|steps| - 1].CallPop? then 1 else 0
  }

  /** In push, and still to append. */
  function Pushing(pc: Pc): int { if pc.PushLock? || pc.PushEnqueue? then 1 else 0 }

  /** In pop, asleep or not. */
  function Popping(pc: Pc): int
  {
    if pc.PopLock? || pc.PopTest? || pc.PopTake? || pc.PopUnlock? || pc.Asleep? then 1 else 0
  }

  lemma StepKeepsCount(m: Monitor, s: Step, weight: Pc -> int)
    requires Inv(m) && Enabled(m, s) && weight(Asleep) == weight(PopLock)
    ensures Sum(Next(m, s).threads, weight) ==
            Sum(m.threads, weight) - weight(m.threads[s.t]) + weight(Next(m, s).threads[s.t])
  {
    var threads := Next(m, s).threads;
    if s.Advance? && m.threads[s.t].PushNotify? && !NoSleeper(m) {
      SumUpdate(m.threads, s.wakes, PopLock, weight);
      SumUpdate(m.threads[s.wakes := PopLock], s.t, PushUnlock, weight);
    } else {
      assert threads == m.threads[s.t := threads[s.t]];
      SumUpdate(m.threads, s.t, threads[s.t], weight);
    }
  }

  lemma StepCountsPushes(m: Monitor, s: Step)
    requires Inv(m) && Enabled(m, s)
    ensures |Next(m, s).pushed| + Sum(Next(m, s).threads, Pushing) ==
            |m.pushed| + Sum(m.threads, Pushing) + if s.CallPush? then 1 else 0
  {
    StepKeepsCount(m, s, Pushing);
  }

  lemma StepCountsPops(m: Monitor, s: Step)
    requires Inv(m) && Enabled(m, s)
    ensures |Next(m, s).returned| + Sum(Next(m, s).threads, Popping) ==
            |m.returned| + Sum(m.threads, Popping) + if s.CallPop? then 1 else 0
  {
    StepKeepsCount(m, s, Popping);
  }

  /** Every call is accounted for: it has done its work, or its thread is still about to. */
  ghost predicate Accounted(m: Monitor, pushes: nat, pops: nat)
  {
    pushes == |m.pushed| + Sum(m.threads, Pushing) && pops == |m.returned| + Sum(m.threads, Popping)
  }

  lemma {:induction false} CallsAreCounted(threads: nat, steps: seq<Step>)
    requires IsRun(threads, steps)
    ensures Accounted(After(threads, steps), Pushes(steps), Pops(steps))
  {
    if steps == [] {
      SumZero(Start(threads).threads, Pushing);
      SumZero(Start(threads).threads, Popping);
    } else {
      var before, s := steps[..|steps| - 1], steps[|steps| - 1];
      CallsAreCounted(threads, before);
      InvHolds(threads, before);
      StepCountsPushes(After(threads, before), s);
      StepCountsPops(After(threads, before), s);
    }
  }

  function Min(a: nat, b: nat): nat { if a < b then a else b }

  /** The alerts that have come back are the first of those pushed, as many as there were calls of both kinds. */
  predicate ReturnsTheFirst(m: Monitor, pushes: nat, pops: nat)
  {
    |m.pushed| == pushes && m.returned == m.pushed[..Min(pushes, pops)]
  }

  /** Once settled, every push found its place and exactly the smaller number of calls was served. */
  lemma SettledReturnsTheFirst(threads: nat, steps: seq<Step>)
    requires IsRun(threads, steps) && Settled(After(threads, steps))
    ensures ReturnsTheFirst(After(threads, steps), Pushes(steps), Pops(steps))
  {
    var m := After(threads, steps);
    InvHolds(threads, steps);
    CallsAreCounted(threads, steps);
    SettledStrandsNothing(threads, steps);
    SumZero(m.threads, Pushing);
    if NoSleeper(m) {
      SumZero(m.threads, Popping);
    } else {
      var t :| 0 <= t < |m.threads| && m.threads[t].Asleep?;
      SumAtLeast(m.threads, t, Popping);
    }
  }

  lemma {:induction false} AdvancesCallNothing(steps: seq<Step>, more: seq<Step>)
    requires forall i :: 0 <= i < |more| ==> more[i].Advance?
    ensures Pushes(steps + more) == Pushes(steps) && Pops(steps + more) == Pops(steps)
  {
    if more == [] {
      assert steps + more == steps;
    } else {
      AdvancesCallNothing(steps, more[..|more| - 1]);
      assert (steps + more)[..|steps + more| - 1] == steps + more[..|more| - 1];
    }
  }

  ghost predicate Serves(threads: nat, steps: seq<Step>, more: seq<Step>)
  {
    Delivers(threads, steps, more) && ReturnsTheFirst(After(threads, steps + more), Pushes(steps), Pops(steps))
  }

  /** Left to themselves, the threads of any reachable state return min(pushes, pops) alerts, in push order. */
  lemma {:induction false} EveryCallIsServed(threads: nat, steps: seq<Step>)
    requires IsRun(threads, steps)
    ensures exists more :: Serves(threads, steps, more)
  {
    EventuallyDelivered(threads, steps);
    var more :| Delivers(threads, steps, more);
    SettledReturnsTheFirst(threads, steps + more);
    AdvancesCallNothing(steps, more);
    assert Serves(threads, steps, more);
  }

  // ---- Which alerts arrive ---------------------------------------------------------------------

  /** The alerts push was called with. */
  function Called(steps: seq<Step>): multiset<Alert>
  {
    if steps == [] then multiset{} else
      var s := steps[|steps| - 1];
      Called(steps[..|steps| - 1]) + if s.CallPush? then multiset{s.item} else multiset{}
  }

  /** 1 if a thread in push has still to append exactly this alert. */
  function Carries(alert: Alert, pc: Pc): int
  {
    if (pc.PushLock? || pc.PushEnqueue?) && pc.item == alert then 1 else 0
  }

  function InFlight(m: Monitor, alert: Alert): int
  {
    Sum(m.threads, pc => Carries(alert, pc))
  }

  lemma StepKeepsInFlight(m: Monitor, s: Step, alert: Alert)
    requires Inv(m) && Enabled(m, s)
    ensures InFlight(Next(m, s), alert) ==
            InFlight(m, alert) - Carries(alert, m.threads[s.t]) + Carries(alert, Next(m, s).threads[s.t])
  {
    StepKeepsCount(m, s, pc => Carries(alert, pc));
  }

  /** The alert a step appends, if it appends one. */
  function Appended(m: Monitor, s: Step): seq<Alert>
    requires s.t < |m.threads|
  {
    if s.Advance? && m.threads[s.t].PushEnqueue? then [m.threads[s.t].item] else []
  }

  lemma StepAppends(m: Monitor, s: Step)
    requires Enabled(m, s)
    ensures Next(m, s).pushed == m.pushed + Appended(m, s)
  {
  }

  /** A thread in push gives up what it carries when it appends it, and only then. */
  lemma StepHandsOver(m: Monitor, s: Step, alert: Alert)
    requires Inv(m) && Enabled(m, s)
    ensures Carries(alert, Next(m, s).threads[s.t]) ==
            Carries(alert, m.threads[s.t]) - (if alert in Appended(m, s) then 1 else 0) +
            if s.CallPush? && s.item == alert then 1 else 0
  {
  }

  lemma StepKeepsAlert(m: Monitor, s: Step, alert: Alert)
    requires Inv(m) && Enabled(m, s)
    ensures multiset(Next(m, s).pushed)[alert] + InFlight(Next(m, s), alert) ==
            multiset(m.pushed)[alert] + InFlight(m, alert) + if s.CallPush? && s.item == alert then 1 else 0
  {
    var m', more := Next(m, s), Appended(m, s);
    StepKeepsInFlight(m, s, alert);
    StepHandsOver(m, s, alert);
    StepAppends(m, s);
    assert multiset(m.pushed + more) == multiset(m.pushed) + multiset(more);
  }

  /** Nothing is made up, altered or lost on the way in: every alert was appended, or is still carried by threads
      in push, as often as push was called with it. */
  lemma {:induction false} PushedIsCalled(threads: nat, steps: seq<Step>, alert: Alert)
    requires IsRun(threads, steps)
    ensures multiset(After(threads, steps).pushed)[alert] + InFlight(After(threads, steps), alert) ==
            Called(steps)[alert]
  {
    if steps == [] {
      SumZero(Start(threads).threads, pc => Carries(alert, pc));
    } else {
      var before, s := steps[..|steps| - 1], steps[|steps| - 1];
      PushedIsCalled(threads, before, alert);
      InvHolds(threads, before);
      StepKeepsAlert(After(threads, before), s, alert);
    }
  }

  /** Nor on the way out: every alert is, as often as push was called with it, returned, in the hand of the thread
      about to return it, queued, or still carried in push. */
  lemma EveryAlertIsSomewhere(threads: nat, steps: seq<Step>, alert: Alert)
    requires IsRun(threads, steps)
    ensures var m := After(threads, steps);
            multiset(m.returned)[alert] + multiset(InHand(m))[alert] + multiset(m.queue)[alert] + InFlight(m, alert) ==
            Called(steps)[alert]
  {
    InvHolds(threads, steps);
    PushedIsCalled(threads, steps, alert);
    var m := After(threads, steps);
    assert multiset(m.pushed) == multiset(m.returned) + multiset(InHand(m)) + multiset(m.queue);
  }

  lemma SettledCarriesNothing(m: Monitor, alert: Alert)
    requires Inv(m) && Settled(m)
    ensures InFlight(m, alert) == 0 && InHand(m) == []
  {
    SumZero(m.threads, pc => Carries(alert, pc));
  }

  /** Once settled, the alerts of the calls are exactly those returned and those queued. */
  lemma SettledReturnsOrKeeps(threads: nat, steps: seq<Step>)
    requires IsRun(threads, steps) && Settled(After(threads, steps))
    ensures multiset(After(threads, steps).returned) + multiset(After(threads, steps).queue) == Called(steps)
  {
    var m := After(threads, steps);
    InvHolds(threads, steps);
    forall alert: Alert ensures multiset(m.returned)[alert] + multiset(m.queue)[alert] == Called(steps)[alert] {
      EveryAlertIsSomewhere(threads, steps, alert);
      SettledCarriesNothing(m, alert);
    }
  }

  /** All of them are returned when there were at least as many calls of pop as of push. */
  lemma SettledReturnsTheCalled(threads: nat, steps: seq<Step>)
    requires IsRun(threads, steps) && Settled(After(threads, steps)) && Pops(steps) >= Pushes(steps)
    ensures After(threads, steps).queue == [] && multiset(After(threads, steps).returned) == Called(steps)
  {
    var m := After(threads, steps);
    SettledReturnsOrKeeps(threads, steps);
    SettledReturnsTheFirst(threads, steps);
    SettledKeepsTheRest(threads, steps);
    assert multiset(m.returned) + multiset(m.queue) == multiset(m.returned);
  }

  lemma SettledKeepsTheRest(threads: nat, steps: seq<Step>)
    requires IsRun(threads, steps) && Settled(After(threads, steps))
    ensures After(threads, steps).pushed == After(threads, steps).returned + After(threads, steps).queue
  {
    InvHolds(threads, steps);
  }

  /** The alert of the latest call of push by thread `t`. */
  function LatestCall(steps: seq<Step>, t: nat): Option<Alert>
  {
    if steps == [] then None else
      var s := steps[|steps| - 1];
      if s.CallPush? && s.t == t then Some(s.item) else LatestCall(steps[..|steps| - 1], t)
  }

  lemma {:induction false} CarriesItsCall(threads: nat, steps: seq<Step>, t: nat)
    requires IsRun(threads, steps) && t < threads == |After(threads, steps).threads|
    ensures var pc := After(threads, steps).threads[t];
            pc.PushLock? || pc.PushEnqueue? ==> LatestCall(steps, t) == Some(pc.item)
  {
    if steps != [] {
      InvHolds(threads, steps[..|steps| - 1]);
      CarriesItsCall(threads, steps[..|steps| - 1], t);
    }
  }

  /** The one step that appends, appends at the back the alert its own thread was called with. */
  lemma AppendsItsCall(threads: nat, steps: seq<Step>, s: Step)
    requires IsRun(threads, steps) && Enabled(After(threads, steps), s)
    ensures var m, m' := After(threads, steps), Next(After(threads, steps), s);
            if s.Advance? && m.threads[s.t].PushEnqueue? then
              LatestCall(steps, s.t).Some? &&
              m'.pushed == m.pushed + [LatestCall(steps, s.t).value] &&
              m'.queue == m.queue + [LatestCall(steps, s.t).value]
            else m'.pushed == m.pushed
  {
    InvHolds(threads, steps);
    CarriesItsCall(threads, steps, s.t);
  }

  /** Callers and the scheduler are free: a thread outside may call push with any alert, or pop; a sleeper may
      wake; and a thread that wants the free mutex may take it. */
  lemma AnyCallCanCome(m: Monitor, t: nat, item: Alert, wakes: nat)
    requires t < |m.threads|
    ensures m.threads[t].Outside? ==>
              Enabled(m, CallPush(t, item)) && Next(m, CallPush(t, item)).threads[t] == PushLock(item) &&
              Enabled(m, CallPop(t)) && Next(m, CallPop(t)).threads[t] == PopLock
    ensures m.threads[t].Asleep? ==> Enabled(m, Spurious(t)) && Next(m, Spurious(t)).threads[t] == PopLock
    ensures m.threads[t].PushLock? || m.threads[t].PopLock? ==> (Enabled(m, Advance(t, wakes)) <==> m.owner == -1)
  {
  }
}
