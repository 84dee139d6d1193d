/** A counting semaphore made of a mutex and a condition variable, under any number of threads. */
module Semaphore {
  import Arith

  type Thread = nat

  /** Unsigned arithmetic wraps here. */
  const WRAP := 0x1_0000_0000

  /**
   * What the mutex protects, and where the waiting threads are: asleep on the condition variable,
   * or woken and waiting for the mutex.
   */
  datatype State = State(count: nat, waiters: int, sleeping: set<Thread>, woken: set<Thread>)

  /** One critical section each; Wake is a wakeup without a signal. */
  datatype Step =
    | Arrive(thread: Thread)
    | Resume(thread: Thread)
    | Wake(thread: Thread)
    | Post(thread: Thread, signalled: set<Thread>)

  /**
   * A signal wakes at least one sleeping thread if there is one, and may wake more; a thread that
   * arrives may overtake those woken before it.
   */
  predicate Possible(threads: set<Thread>, s: State, step: Step) {
    && step.thread in threads
    && match step
       case Arrive(t) => t !in s.sleeping && t !in s.woken
       case Resume(t) => t in s.woken
       case Wake(t) => t in s.sleeping
       case Post(t, signalled) =>
         && t !in s.sleeping && t !in s.woken
         && signalled <= s.sleeping
         && (s.waiters == 0 ==> signalled == {})
         && (s.waiters > 0 && s.sleeping != {} ==> signalled != {})
  }

  function After(s: State, step: Step): State {
    match step
    case Arrive(t) =>
      if s.count > 0 then s.(count := s.count - 1)
      else s.(waiters := s.waiters + 1, sleeping := s.sleeping + {t})
    case Resume(t) =>
      if s.count > 0 then s.(count := s.count - 1, waiters := s.waiters - 1, woken := s.woken - {t})
      else s.(sleeping := s.sleeping + {t}, woken := s.woken - {t})
    case Wake(t) => s.(sleeping := s.sleeping - {t}, woken := s.woken + {t})
    case Post(_, signalled) =>
      s.(count := (s.count + 1) % WRAP, sleeping := s.sleeping - signalled, woken := s.woken + signalled)
  }

  function Run(s: State, steps: seq<Step>): State
    decreases steps
  {
    if steps == [] then s else Run(After(s, steps[0]), steps[1..])
  }

  predicate PossibleRun(threads: set<Thread>, s: State, steps: seq<Step>)
    decreases steps
  {
    steps == [] || (Possible(threads, s, steps[0]) && PossibleRun(threads, After(s, steps[0]), steps[1..]))
  }

  function Initial(n: nat): State {
    State(n, 0, {}, {})
  }

  /** Nothing that can happen is left out: a thread elsewhere may arrive, or post and wake as many sleeping
      threads as the system likes, but one at least; a sleeping one may wake by itself at any time, and
      a woken one get the mutex, in whatever order. */
  lemma WhatCanHappen(threads: set<Thread>, s: State, t: Thread)
    requires t in threads
    ensures Possible(threads, s, Arrive(t)) <==> t !in s.sleeping + s.woken
    ensures Possible(threads, s, Wake(t)) <==> t in s.sleeping
    ensures Possible(threads, s, Resume(t)) <==> t in s.woken
    ensures forall signalled: set<Thread> :: t !in s.sleeping + s.woken && s.waiters > 0 ==>
              (Possible(threads, s, Post(t, signalled)) <==>
               signalled <= s.sleeping && (signalled == {} ==> s.sleeping == {}))
    ensures t !in s.sleeping + s.woken && s.waiters == 0 ==> Possible(threads, s, Post(t, {}))
  {
  }

  // What every step keeps

  predicate Counted(threads: set<Thread>, s: State) {
    && s.count < WRAP
    && s.sleeping !! s.woken
    && s.sleeping + s.woken <= threads
    && s.waiters == |s.sleeping| + |s.woken|
  }

  /** No wakeup is lost: whatever the count offers sleeping threads, woken threads are there to take. */
  predicate NoLostWakeup(s: State) {
    s.sleeping == {} || s.count <= |s.woken|
  }

  lemma Insert(a: set<Thread>, t: Thread)
    requires t !in a
    ensures |a + {t}| == |a| + 1
  {
  }

  lemma Remove(a: set<Thread>, t: Thread)
    requires t in a
    ensures |a - {t}| == |a| - 1
  {
  }

  lemma {:induction false} Move(a: set<Thread>, b: set<Thread>, moved: set<Thread>)
    requires moved <= a && a !! b
    ensures |a - moved| == |a| - |moved| && |b + moved| == |b| + |moved|
  {
    assert a == (a - moved) + moved;
    assert b !! moved;
  }

  predicate Kept(threads: set<Thread>, s: State) {
    Counted(threads, s) && NoLostWakeup(s)
  }

  lemma ArriveKeeps(threads: set<Thread>, s: State, t: Thread)
    requires Kept(threads, s) && Possible(threads, s, Arrive(t))
    ensures Kept(threads, After(s, Arrive(t)))
  {
    Insert(s.sleeping, t);
  }

  lemma ResumeKeeps(threads: set<Thread>, s: State, t: Thread)
    requires Kept(threads, s) && Possible(threads, s, Resume(t))
    ensures Kept(threads, After(s, Resume(t)))
  {
    Remove(s.woken, t);
    Insert(s.sleeping, t);
  }

  lemma WakeKeeps(threads: set<Thread>, s: State, t: Thread)
    requires Kept(threads, s) && Possible(threads, s, Wake(t))
    ensures Kept(threads, After(s, Wake(t)))
  {
    Remove(s.sleeping, t);
    Insert(s.woken, t);
  }

  lemma PostKeeps(threads: set<Thread>, s: State, t: Thread, signalled: set<Thread>)
    requires Kept(threads, s) && Possible(threads, s, Post(t, signalled))
    ensures Kept(threads, After(s, Post(t, signalled)))
  {
    Move(s.sleeping, s.woken, signalled);
    if s.sleeping != {} {
      assert |s.sleeping| > 0;
      assert |signalled| > 0;
    }
  }

  lemma StepKeeps(threads: set<Thread>, s: State, step: Step)
    requires Kept(threads, s) && Possible(threads, s, step)
    ensures Kept(threads, After(s, step))
  {
    match step
    case Arrive(t) => ArriveKeeps(threads, s, t);
    case Resume(t) => ResumeKeeps(threads, s, t);
    case Wake(t) => WakeKeeps(threads, s, t);
    case Post(t, signalled) => PostKeeps(threads, s, t, signalled);
  }

  lemma {:induction false} RunKeeps(threads: set<Thread>, s: State, steps: seq<Step>)
    requires Kept(threads, s) && PossibleRun(threads, s, steps)
    ensures Kept(threads, Run(s, steps))
    decreases steps
  {
    if steps != [] {
      StepKeeps(threads, s, steps[0]);
      RunKeeps(threads, After(s, steps[0]), steps[1..]);
    }
  }

  /** In every state that can be reached the waiters are counted and no wakeup is lost. */
  lemma NoWakeupIsEverLost(threads: set<Thread>, n: nat, steps: seq<Step>)
    requires n < WRAP && PossibleRun(threads, Initial(n), steps)
    ensures Counted(threads, Run(Initial(n), steps)) && NoLostWakeup(Run(Initial(n), steps))
  {
    RunKeeps(threads, Initial(n), steps);
  }

  // What the semaphore does, seen from outside

  datatype Event = Up | Down

  function Seen(s: State, step: Step): seq<Event> {
    match step
    case Post(_, _) => [Up]
    case Wake(_) => []
    case _ => if s.count > 0 then [Down] else []
  }

  /** The completed operations of a run, in order. */
  function Events(s: State, steps: seq<Step>): seq<Event>
    decreases steps
  {
    if steps == [] then [] else Seen(s, steps[0]) + Events(After(s, steps[0]), steps[1..])
  }

  /** How often a run makes the count wrap round. */
  function Wraps(s: State, steps: seq<Step>): nat
    decreases steps
  {
    if steps == [] then 0 else
      WrapsNow(s, steps[0]) + Wraps(After(s, steps[0]), steps[1..])
  }

  /** A semaphore whose operations are atomic: it can be taken only when it is positive. */
  predicate Legal(value: nat, events: seq<Event>)
    decreases events
  {
    events == [] || (
      if events[0].Up? then Legal(value + 1, events[1..])
      else value > 0 && Legal(value - 1, events[1..]))
  }

  function Value(value: int, events: seq<Event>): int
    decreases events
  {
    if events == [] then value else Value(if events[0].Up? then value + 1 else value - 1, events[1..])
  }

  function Total(s: State, wrapped: nat): nat {
    s.count + WRAP * wrapped
  }

  function WrapsNow(s: State, step: Step): nat {
    if step.Post? && s.count + 1 == WRAP then 1 else 0
  }

  lemma StepIsAtomic(threads: set<Thread>, s: State, step: Step, wrapped: nat, events: seq<Event>)
    requires s.count < WRAP && Possible(threads, s, step)
    ensures var total := Total(After(s, step), wrapped + WrapsNow(s, step));
            && Legal(Total(s, wrapped), Seen(s, step) + events) == Legal(total, events)
            && Value(Total(s, wrapped), Seen(s, step) + events) == Value(total, events)
  {
    var seen := Seen(s, step);
    assert seen + events == if seen == [] then events else [seen[0]] + events;
    assert seen != [] ==> (seen + events)[0] == seen[0] && (seen + events)[1..] == events;
    TotalSteps(s, step, wrapped);
  }

  lemma TotalSteps(s: State, step: Step, wrapped: nat)
    requires s.count < WRAP
    ensures Total(After(s, step), wrapped + WrapsNow(s, step))
         == Total(s, wrapped) + if Seen(s, step) == [] then 0 else if Seen(s, step) == [Up] then 1 else -1
  {
  }

  /** Every run does what a run of the atomic semaphore does; the count is its value but for the wraps. */
  lemma {:induction false} RunIsAtomic(threads: set<Thread>, s: State, steps: seq<Step>, wrapped: nat)
    requires Kept(threads, s) && PossibleRun(threads, s, steps)
    ensures Legal(Total(s, wrapped), Events(s, steps))
    ensures Value(Total(s, wrapped), Events(s, steps)) == Total(Run(s, steps), wrapped + Wraps(s, steps))
    decreases steps
  {
    hide Possible, After, Seen, Total;
    if steps != [] {
      var step, rest := steps[0], steps[1..];
      StepKeeps(threads, s, step);
      RunIsAtomic(threads, After(s, step), rest, wrapped + WrapsNow(s, step));
      StepIsAtomic(threads, s, step, wrapped, Events(After(s, step), rest));
    }
  }

  function Occurs(event: Event, events: seq<Event>): nat {
    if events == [] then 0 else (if events[0] == event then 1 else 0) + Occurs(event, events[1..])
  }

  lemma {:induction false} ValueIsBalance(value: int, events: seq<Event>)
    ensures Value(value, events) == value + Occurs(Up, events) - Occurs(Down, events)
    decreases events
  {
    if events != [] {
      ValueIsBalance(if events[0].Up? then value + 1 else value - 1, events[1..]);
    }
  }

  /**
   * Every run from the start is one of the atomic semaphore, and the initial value with the completed
   * posts is the count with the completed waits exactly when the count never wrapped round.
   */
  lemma RefinesAtomicSemaphore(threads: set<Thread>, n: nat, steps: seq<Step>)
    requires n < WRAP && PossibleRun(threads, Initial(n), steps)
    ensures var events := Events(Initial(n), steps); var count := Run(Initial(n), steps).count;
            && Legal(n, events)
            && (n + Occurs(Up, events) == count + Occurs(Down, events) <==> Wraps(Initial(n), steps) == 0)
  {
    RunIsAtomic(threads, Initial(n), steps, 0);
    ValueIsBalance(n, Events(Initial(n), steps));
  }

  /** An atomic semaphore never gives more than it has: at no time were there more waits than its initial
      value and the posts so far. */
  lemma {:induction false} LegalMeansCovered(value: nat, events: seq<Event>)
    ensures Legal(value, events) <==>
            forall i :: 0 <= i <= |events| ==> Occurs(Down, events[..i]) <= value + Occurs(Up, events[..i])
    decreases events
  {
    if events != [] {
      var first, rest := events[0], events[1..];
      if first.Up? {
        LegalMeansCovered(value + 1, rest);
        CoveredLater(value, value + 1, events);
      } else if value > 0 {
        LegalMeansCovered(value - 1, rest);
        CoveredLater(value, value - 1, events);
      } else {
        assert Occurs(Down, events[..1]) == 1 + Occurs(Down, rest[..0]);
        assert Occurs(Up, events[..1]) == Occurs(Up, rest[..0]) == 0;
      }
    } else {
      assert events[..0] == [];
    }
  }

  lemma CoveredLater(value: nat, then': nat, events: seq<Event>)
    requires events != [] && then' == (if events[0].Up? then value + 1 else value - 1)
    ensures (forall i :: 0 <= i <= |events| ==> Occurs(Down, events[..i]) <= value + Occurs(Up, events[..i])) <==>
            (forall i :: 0 <= i <= |events[1..]| ==>
               Occurs(Down, events[1..][..i]) <= then' + Occurs(Up, events[1..][..i]))
  {
    var rest := events[1..];
    forall i | 0 <= i <= |rest|
      ensures Occurs(Down, events[..i + 1]) - Occurs(Up, events[..i + 1])
           == Occurs(Down, rest[..i]) - Occurs(Up, rest[..i]) + if events[0].Up? then -1 else 1
    {
      assert events[..i + 1][1..] == rest[..i];
    }
    assert events[..0] == [];
    if forall i :: 0 <= i <= |events| ==> Occurs(Down, events[..i]) <= value + Occurs(Up, events[..i]) {
      forall i | 0 <= i <= |rest|
        ensures Occurs(Down, rest[..i]) <= then' + Occurs(Up, rest[..i])
      {
        assert Occurs(Down, events[..i + 1]) <= value + Occurs(Up, events[..i + 1]);
      }
    }
    if forall i :: 0 <= i <= |rest| ==> Occurs(Down, rest[..i]) <= then' + Occurs(Up, rest[..i]) {
      forall i | 0 <= i <= |events|
        ensures Occurs(Down, events[..i]) <= value + Occurs(Up, events[..i])
      {
        if i > 0 {
          assert Occurs(Down, rest[..i - 1]) <= then' + Occurs(Up, rest[..i - 1]);
        }
      }
    }
  }

  /** The count does wrap: one post to a semaphore whose count is the greatest loses all of them. */
  lemma CountCanWrap(thread: Thread)
    ensures var start, steps := Initial(WRAP - 1), [Post(thread, {})];
            && PossibleRun({thread}, start, steps)
            && Wraps(start, steps) == 1 && Run(start, steps).count == 0
  {
    var steps := [Post(thread, {})];
    assert steps[1..] == [];
  }

  // What becomes of the woken threads

  predicate OnlyResumes(steps: seq<Step>) {
    forall i :: 0 <= i < |steps| ==> steps[i].Resume?
  }

  lemma {:induction false} Resumed(threads: set<Thread>, s: State, steps: seq<Step>)
    requires Kept(threads, s) && PossibleRun(threads, s, steps) && OnlyResumes(steps)
    ensures Run(s, steps).count == s.count - Arith.Min(s.count, |steps|)
    ensures Run(s, steps).waiters == s.waiters - Arith.Min(s.count, |steps|)
    ensures |Run(s, steps).woken| == |s.woken| - |steps|
    decreases steps
  {
    hide Kept;
    if steps != [] {
      StepKeeps(threads, s, steps[0]);
      Resumed(threads, After(s, steps[0]), steps[1..]);
      Remove(s.woken, steps[0].thread);
    }
  }

  /**
   * Once all woken threads have had the mutex, in any order, as many waiting threads have gone on as
   * the count allowed: none is left waiting while the count is positive.
   */
  lemma WaitersAreServed(threads: set<Thread>, s: State, steps: seq<Step>)
    requires Kept(threads, s) && PossibleRun(threads, s, steps) && OnlyResumes(steps)
    ensures |steps| <= |s.woken|
    ensures var end := Run(s, steps);
            |steps| == |s.woken| ==>
              && end.count == s.count - Arith.Min(s.count, s.waiters)
              && end.waiters == s.waiters - Arith.Min(s.count, s.waiters)
              && (end.waiters == 0 || end.count == 0)
  {
    Resumed(threads, s, steps);
  }

  // The source's operations, cut where the mutex is released

  /** The semaphore; the sets stand for the condition variable and the mutex's queue. */
  class Mailsem {
    var count: nat
    var waitersCount: nat
    ghost var sleeping: set<Thread>
    ghost var woken: set<Thread>

    ghost function Now(): State
      reads this
    {
      State(count, waitersCount, sleeping, woken)
    }

    constructor (initialCount: nat)
      requires initialCount < WRAP
      ensures Now() == Initial(initialCount)
    {
      count := initialCount;
      waitersCount := 0;
      sleeping := {};
      woken := {};
    }

    /** A wait up to its end, or up to where it first sleeps. */
    method Wait(ghost threads: set<Thread>, ghost thread: Thread) returns (done: bool)
      requires |threads| < WRAP && Kept(threads, Now()) && Possible(threads, Now(), Arrive(thread))
      modifies this
      ensures Now() == After(old(Now()), Arrive(thread)) && Kept(threads, Now())
      ensures done <==> Seen(old(Now()), Arrive(thread)) == [Down]
    {
      hide Counted, NoLostWakeup;
      StepKeeps(threads, Now(), Arrive(thread));
      WaitersFit(threads, Now(), thread);
      waitersCount := (waitersCount + 1) % WRAP;
      if count == 0 {
        sleeping := sleeping + {thread};
        return false;
      }
      TakeOne();
      done := true;
    }

    /** A wait from where it has the mutex again. */
    method WaitOn(ghost threads: set<Thread>, ghost thread: Thread) returns (done: bool)
      requires |threads| < WRAP && Kept(threads, Now()) && Possible(threads, Now(), Resume(thread))
      modifies this
      ensures Now() == After(old(Now()), Resume(thread)) && Kept(threads, Now())
      ensures done <==> Seen(old(Now()), Resume(thread)) == [Down]
    {
      hide Counted, NoLostWakeup;
      StepKeeps(threads, Now(), Resume(thread));
      SomeoneWaits(threads, Now(), thread);
      woken := woken - {thread};
      if count == 0 {
        sleeping := sleeping + {thread};
        return false;
      }
      TakeOne();
      done := true;
    }

    method TakeOne()
      requires 0 < count && 0 < waitersCount < WRAP
      modifies this`count, this`waitersCount
      ensures count == old(count) - 1 && waitersCount == old(waitersCount) - 1
    {
      waitersCount := (waitersCount - 1) % WRAP;
      count := count - 1;
    }

    /** The whole of a post; the signal wakes the threads given, if it is sent. */
    method Post(ghost threads: set<Thread>, ghost thread: Thread, ghost signalled: set<Thread>)
      requires Kept(threads, Now()) && Possible(threads, Now(), Step.Post(thread, signalled))
      modifies this
      ensures Now() == After(old(Now()), Step.Post(thread, signalled)) && Kept(threads, Now())
    {
      StepKeeps(threads, Now(), Step.Post(thread, signalled));
      if waitersCount > 0 {
        sleeping := sleeping - signalled;
        woken := woken + signalled;
      }
      count := (count + 1) % WRAP;
    }
  }

  lemma NoMoreThan(a: set<Thread>, b: set<Thread>)
    requires a <= b
    ensures |a| <= |b|
  {
    assert b == a + (b - a);
  }

  lemma NoMoreThanAll(threads: set<Thread>, s: State)
    requires Counted(threads, s)
    ensures s.waiters <= |threads|
  {
    NoMoreThan(s.sleeping + s.woken, threads);
  }

  lemma SomeoneWaits(threads: set<Thread>, s: State, t: Thread)
    requires Counted(threads, s) && t in s.woken
    ensures 0 < s.waiters <= |threads|
  {
    Remove(s.woken, t);
    NoMoreThanAll(threads, s);
  }

  lemma WaitersFit(threads: set<Thread>, s: State, t: Thread)
    requires Counted(threads, s) && Possible(threads, s, Arrive(t))
    ensures 0 <= s.waiters < |threads|
  {
    NoMoreThan(s.sleeping + s.woken + {t}, threads);
    Insert(s.sleeping + s.woken, t);
  }
}
