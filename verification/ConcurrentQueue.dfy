/** `concurrent_queue` as interleaved thread steps over a mutex and a condition variable. */
module ConcurrentQueues {
  type Thread = nat

  /** What a pop hands to its caller. */
  datatype Outcome<T> = Nothing | Took(value: T)

  /** Where a thread stands. `Checking(true)` is a waiter that came back from `wait`. */
  datatype Pc<T> =
    | Idle
    | PushLock(value: T)        // about to lock in push
    | PushLocked(value: T)      // holds the lock, value not yet appended
    | PushAppended              // holds the lock, value appended
    | PushNotify                // unlocked, notify_one still to come
    | QueryLock                 // about to lock in empty or size
    | QueryLocked
    | TryLock                   // about to lock in try_pop
    | TryLocked
    | WaitLock                  // about to lock in wait_and_pop
    | Checking(again: bool)     // holds the lock, before the test of the while loop
    | Sleeping                  // inside wait, lock released
    | Woken                     // notified or woken spuriously, lock not yet regained
    | Leaving(outcome: Outcome<T>)  // holds the lock, about to return from a pop
  {
    predicate HoldsLock() {
      PushLocked? || PushAppended? || QueryLocked? || TryLocked? || Checking? || Leaving?
    }

    /** Has appended a value that it has not announced yet. */
    predicate OwesNotify() {
      PushAppended? || PushNotify?
    }

    /** Has been woken and has not tested the queue since. */
    predicate MustRecheck() {
      Woken? || (Checking? && again)
    }

    predicate Attends() {
      OwesNotify() || MustRecheck()
    }
  }

  datatype Owner = Free | HeldBy(thread: Thread)

  /** The shared queue and lock, and every thread's position. */
  datatype State<T> = State(
    queue: seq<T>,
    owner: Owner,
    pc: map<Thread, Pc<T>>)
  {
    function Goto(t: Thread, c: Pc<T>): State<T> {
      this.(pc := pc[t := c])
    }

    function Acquire(t: Thread, c: Pc<T>): State<T> {
      this.(owner := HeldBy(t), pc := pc[t := c])
    }

    function Release(t: Thread, c: Pc<T>): State<T> {
      this.(owner := Free, pc := pc[t := c])
    }
  }

  predicate Init<T(==)>(s: State<T>) {
    s.queue == [] && s.owner == Free && forall t :: t in s.pc ==> s.pc[t] == Idle
  }

  /** The next step of thread `t` within a call, or the start of a call. `woken` is the sleeper
      that notify_one picks. */
  ghost predicate Step<T>(s: State<T>, t: Thread, s': State<T>)
    requires t in s.pc
  {
    match s.pc[t]
    case Idle =>
      (t in s'.pc && s'.pc[t].PushLock? && s' == s.Goto(t, s'.pc[t]))
      || s' == s.Goto(t, QueryLock) || s' == s.Goto(t, TryLock) || s' == s.Goto(t, WaitLock)
    case PushLock(v) => s.owner == Free && s' == s.Acquire(t, PushLocked(v))
    case PushLocked(v) => s' == s.Goto(t, PushAppended).(queue := s.queue + [v])
    case PushAppended => s' == s.Release(t, PushNotify)
    case PushNotify =>
      if exists w :: w in s.pc && s.pc[w].Sleeping? then
        exists w :: w in s.pc && s.pc[w].Sleeping? && s' == s.Goto(t, Idle).Goto(w, Woken)
      else s' == s.Goto(t, Idle)
    case QueryLock => s.owner == Free && s' == s.Acquire(t, QueryLocked)
    case QueryLocked => s' == s.Release(t, Idle)
    case TryLock => s.owner == Free && s' == s.Acquire(t, TryLocked)
    case TryLocked => s' == if s.queue == [] then s.Goto(t, Leaving(Nothing)) else Popped(s, t)
    case WaitLock => s.owner == Free && s' == s.Acquire(t, Checking(false))
    case Checking(_) => s' == if s.queue == [] then s.Release(t, Sleeping) else Popped(s, t)
    case Sleeping => s' == s.Goto(t, Woken)
    case Woken => s.owner == Free && s' == s.Acquire(t, Checking(true))
    case Leaving(_) => s' == s.Release(t, Idle)
  }

  /** front and pop, under the lock. */
  function Popped<T>(s: State<T>, t: Thread): State<T>
    requires s.queue != []
  {
    s.Goto(t, Leaving(Took(s.queue[0]))).(queue := s.queue[1..])
  }

  /** A run: any number of threads, any interleaving, spurious wakeups included. */
  ghost predicate Run<T>(states: seq<State<T>>) {
    && states != [] && Init(states[0])
    && forall i :: 0 < i < |states| ==> Next(states[i - 1], states[i])
  }

  ghost predicate Next<T>(s: State<T>, s': State<T>) {
    exists t :: t in s.pc && Step(s, t, s')
  }

  // ---------------------------------------------------------------- reference: positions alone

  /** Thread `t` has just carried out the append of its push. */
  predicate Appends<T>(s: State<T>, s': State<T>, t: Thread) {
    t in s.pc && t in s'.pc && s.pc[t].PushLocked? && s'.pc[t].PushAppended?
  }

  /** Thread `t` has just obtained a value from a pop. */
  predicate Takes<T>(s: State<T>, s': State<T>, t: Thread) {
    t in s.pc && t in s'.pc && !s.pc[t].Leaving? && s'.pc[t].Leaving? && s'.pc[t].outcome.Took?
  }

  ghost function Entering<T>(s: State<T>, s': State<T>): seq<T> {
    if t :| Appends(s, s', t) then [s.pc[t].value] else []
  }

  ghost function Taking<T>(s: State<T>, s': State<T>): seq<T> {
    if t :| Takes(s, s', t) then [s'.pc[t].outcome.value] else []
  }

  /** The arguments of all pushes up to state `i`, in the order in which the lock was held. */
  ghost function Entered<T>(states: seq<State<T>>, i: nat): seq<T>
    requires i < |states|
  {
    if i == 0 then [] else Entered(states, i - 1) + Entering(states[i - 1], states[i])
  }

  /** The results of all pops up to state `i`, in that order. */
  ghost function Taken<T>(states: seq<State<T>>, i: nat): seq<T>
    requires i < |states|
  {
    if i == 0 then [] else Taken(states, i - 1) + Taking(states[i - 1], states[i])
  }

  // ---------------------------------------------------------------- the invariant

  /** The threads a sleeper may rely on: those that have appended but not yet notified, and those
      that were woken and have not looked at the queue again. */
  function Attending<T>(pc: map<Thread, Pc<T>>): set<Thread> {
    set t | t in pc && pc[t].Attends()
  }

  predicate SomeoneSleeps<T>(s: State<T>) {
    exists t :: t in s.pc && s.pc[t].Sleeping?
  }

  /** At most one thread is inside a critical section, and it is the owner of the lock. */
  predicate MutualExclusion<T>(s: State<T>) {
    forall t :: t in s.pc ==> (s.pc[t].HoldsLock() <==> s.owner == HeldBy(t))
  }

  /** Whoever holds the lock is one of the threads. */
  predicate OwnerIsThread<T>(s: State<T>) {
    s.owner.HeldBy? ==> s.owner.thread in s.pc
  }

  /** Values leave in the order in which they entered; none is lost or duplicated: what callers have
      obtained, followed by the queue, is what callers have pushed. */
  ghost predicate Fifo<T>(states: seq<State<T>>, i: nat)
    requires i < |states|
  {
    Taken(states, i) + states[i].queue == Entered(states, i)
  }

  /** Every value a sleeper could take is covered by a thread that will wake it or take it. */
  predicate NoLostWakeup<T>(s: State<T>) {
    SomeoneSleeps(s) ==> |s.queue| <= |Attending(s.pc)|
  }

  ghost predicate Inv<T>(s: State<T>) {
    MutualExclusion(s) && OwnerIsThread(s) && NoLostWakeup(s)
  }

  lemma AttendingMove<T>(pc: map<Thread, Pc<T>>, t: Thread, c: Pc<T>)
    requires t in pc
    ensures |Attending(pc[t := c])| + (if pc[t].Attends() then 1 else 0)
         == |Attending(pc)| + (if c.Attends() then 1 else 0)
  {
    var pc' := pc[t := c];
    var others := Attending(pc) - {t};
    assert Attending(pc) == if pc[t].Attends() then others + {t} else others;
    assert forall u :: u in others <==> u in pc && u != t && pc[u].Attends();
    assert Attending(pc') == if c.Attends() then others + {t} else others;
  }

  /** Every step but a notification moves one thread. */
  lemma OneMoves<T>(s: State<T>, t: Thread, s': State<T>)
    requires t in s.pc && !s.pc[t].PushNotify? && Step(s, t, s')
    ensures t in s'.pc && s'.pc == s.pc[t := s'.pc[t]]
  {}

  /** What a step does to positions and lock, whichever step it is. */
  lemma StepShape<T>(s: State<T>, t: Thread, s': State<T>)
    requires t in s.pc && Step(s, t, s')
    ensures s'.pc.Keys == s.pc.Keys
    ensures forall u :: u in s.pc && u != t ==>
      s'.pc[u] == s.pc[u] || (s.pc[u].Sleeping? && s'.pc[u].Woken?)
    ensures s'.pc[t].HoldsLock() ==> s'.owner == if s.pc[t].HoldsLock() then s.owner else HeldBy(t)
    ensures s'.pc[t].HoldsLock() && !s.pc[t].HoldsLock() ==> s.owner == Free
    ensures !s'.pc[t].HoldsLock() ==> s'.owner == if s.pc[t].HoldsLock() then Free else s.owner
  {
    if !s.pc[t].PushNotify? {
      OneMoves(s, t, s');
    }
  }

  /** In every step the queue gains at its end exactly what a push brings, and loses at its front
      exactly what a pop hands out. */
  lemma StepKeepsFifo<T>(s: State<T>, t: Thread, s': State<T>)
    requires t in s.pc && Step(s, t, s')
    ensures Taking(s, s') + s'.queue == s.queue + Entering(s, s')
  {
    OnlyMover(s, t, s');
    if s.pc[t].PushLocked? {
      assert Appends(s, s', t);
    } else if Takes(s, s', t) {
      assert [s.queue[0]] + s.queue[1..] == s.queue;
    } else {
      assert s'.queue == s.queue;
    }
  }

  lemma OnlyMover<T>(s: State<T>, t: Thread, s': State<T>)
    requires t in s.pc && Step(s, t, s')
    ensures forall u :: Appends(s, s', u) || Takes(s, s', u) ==> u == t
  {
    StepShape(s, t, s');
  }

  lemma StepKeepsLock<T>(s: State<T>, t: Thread, s': State<T>)
    requires t in s.pc && MutualExclusion(s) && OwnerIsThread(s) && Step(s, t, s')
    ensures MutualExclusion(s') && OwnerIsThread(s')
  {
    StepShape(s, t, s');
  }

  /** Only a thread that goes to sleep itself becomes a sleeper. */
  lemma SleptBefore<T>(s: State<T>, t: Thread, s': State<T>)
    requires t in s.pc && Step(s, t, s') && SomeoneSleeps(s') && !s'.pc[t].Sleeping?
    ensures SomeoneSleeps(s)
  {
    StepShape(s, t, s');
    var u :| u in s'.pc && s'.pc[u].Sleeping?;
    assert u in s.pc && s.pc[u].Sleeping?;
  }

  lemma NotifyKeepsWakeups<T>(s: State<T>, t: Thread, s': State<T>)
    requires t in s.pc && s.pc[t].PushNotify? && NoLostWakeup(s) && Step(s, t, s')
    ensures NoLostWakeup(s')
  {
    AttendingMove(s.pc, t, Idle);
    if w :| w in s.pc && s.pc[w].Sleeping? && s' == s.Goto(t, Idle).Goto(w, Woken) {
      AttendingMove(s.pc[t := Idle], w, Woken);
    }
  }

  lemma StepKeepsWakeups<T>(s: State<T>, t: Thread, s': State<T>)
    requires t in s.pc && !s.pc[t].PushNotify? && NoLostWakeup(s) && Step(s, t, s')
    ensures NoLostWakeup(s')
  {
    assert s'.pc == s.pc[t := s'.pc[t]];
    AttendingMove(s.pc, t, s'.pc[t]);
    if SomeoneSleeps(s') && !s'.pc[t].Sleeping? {
      SleptBefore(s, t, s');
    }
  }

  lemma FifoGrows<T>(states: seq<State<T>>, i: nat, t: Thread)
    requires 0 < i < |states| && Fifo(states, i - 1)
    requires t in states[i - 1].pc && Step(states[i - 1], t, states[i])
    ensures Fifo(states, i)
  {
    var s, s' := states[i - 1], states[i];
    StepKeepsFifo(s, t, s');
    assert (Taken(states, i - 1) + Taking(s, s')) + s'.queue == Taken(states, i - 1) + (Taking(s, s') + s'.queue);
    assert (Taken(states, i - 1) + s.queue) + Entering(s, s') == Taken(states, i - 1) + (s.queue + Entering(s, s'));
  }

  /** In every state of every run, with any number of pushers, waiters and competing poppers, the
      lock is exclusive, no wakeup is lost, and what pops have handed out followed by the queue is what
      pushes have brought, in order. */
  lemma {:induction false} RunInvariant<T>(states: seq<State<T>>, i: nat)
    requires Run(states) && i < |states|
    ensures Inv(states[i]) && states[i].pc.Keys == states[0].pc.Keys
    ensures Fifo(states, i)
  {
    if i == 0 {
      assert Taken(states, 0) + states[0].queue == [];
    } else {
      RunInvariant(states, i - 1);
      assert Next(states[i - 1], states[i]);
      var t :| t in states[i - 1].pc && Step(states[i - 1], t, states[i]);
      StepShape(states[i - 1], t, states[i]);
      StepKeepsLock(states[i - 1], t, states[i]);
      FifoGrows(states, i, t);
      if states[i - 1].pc[t].PushNotify? {
        NotifyKeepsWakeups(states[i - 1], t, states[i]);
      } else {
        StepKeepsWakeups(states[i - 1], t, states[i]);
      }
    }
  }

  /** If a thread sleeps while the queue is not empty, some other thread has still to notify or to
      look at the queue again. */
  lemma SleepersAreAttended<T>(states: seq<State<T>>, i: nat)
    requires Run(states) && i < |states|
    requires SomeoneSleeps(states[i]) && states[i].queue != []
    ensures exists t :: t in states[i].pc && states[i].pc[t].Attends()
  {
    var s := states[i];
    RunInvariant(states, i);
    assert Attending(s.pc) != {};
    var t :| t in Attending(s.pc);
  }

  /** Thread `t` can take its next step now. */
  ghost predicate Enabled<T(!new)>(s: State<T>, t: Thread)
    requires t in s.pc
  {
    exists s' :: Step(s, t, s')
  }

  /** The holder of the lock is never blocked. */
  lemma HolderIsEnabled<T(!new)>(s: State<T>, t: Thread)
    requires t in s.pc && s.pc[t].HoldsLock()
    ensures Enabled(s, t)
  {
    var s' := match s.pc[t]
      case PushLocked(v) => s.Goto(t, PushAppended).(queue := s.queue + [v])
      case PushAppended => s.Release(t, PushNotify)
      case QueryLocked => s.Release(t, Idle)
      case TryLocked => if s.queue == [] then s.Goto(t, Leaving(Nothing)) else Popped(s, t)
      case Checking(_) => if s.queue == [] then s.Release(t, Sleeping) else Popped(s, t)
      case _ => s.Release(t, Idle);
    assert Step(s, t, s');
  }

  lemma NotifierIsEnabled<T(!new)>(s: State<T>, t: Thread)
    requires t in s.pc && s.pc[t].PushNotify?
    ensures Enabled(s, t)
  {
    if w :| w in s.pc && s.pc[w].Sleeping? {
      assert Step(s, t, s.Goto(t, Idle).Goto(w, Woken));
    } else {
      assert Step(s, t, s.Goto(t, Idle));
    }
  }

  /** In the middle of a call that holds the lock, owes a notification or must look again. */
  predicate Active<T>(c: Pc<T>) {
    !c.Sleeping? && (c.HoldsLock() || c.Attends())
  }

  /** No run gets stuck with a value in the queue and a consumer asleep: in every such state the
      holder of the lock, or a thread that has still to notify or to look at the queue again, can take
      a step, without any new call and without any spurious wakeup. */
  lemma SleepersAreNotStuck<T(!new)>(states: seq<State<T>>, i: nat)
    requires Run(states) && i < |states|
    requires SomeoneSleeps(states[i]) && states[i].queue != []
    ensures exists t :: t in states[i].pc && Active(states[i].pc[t]) && Enabled(states[i], t)
  {
    var s := states[i];
    RunInvariant(states, i);
    if s.owner.HeldBy? {
      HolderIsEnabled(s, s.owner.thread);
    } else {
      SleepersAreAttended(states, i);
      var t :| t in s.pc && s.pc[t].Attends();
      if s.pc[t].PushNotify? {
        NotifierIsEnabled(s, t);
      } else {
        assert s.pc[t].Woken?;
        assert Step(s, t, s.Acquire(t, Checking(true)));
      }
    }
  }

  // ---------------------------------------------------------------- the code

  /** The template class with one method per stretch of code between two points where another
      thread can run. `pc` records who is where. */
  class ConcurrentQueue<T(==)> {
    var queue: seq<T>               // the_queue
    var owner: Owner                // the_mutex
    ghost var pc: map<Thread, Pc<T>>

    ghost function View(): State<T>
      reads this
    {
      State(queue, owner, pc)
    }

    constructor (ghost threads: set<Thread>)
      ensures Init(View()) && pc.Keys == threads
    {
      queue, owner := [], Free;
      pc := map t | t in threads :: Idle;
    }

    /** scoped_lock: the constructor in every operation, and regaining the lock inside wait. */
    method Lock(t: Thread)
      requires t in pc && owner == Free
      requires pc[t].PushLock? || pc[t].QueryLock? || pc[t].TryLock? || pc[t].WaitLock? || pc[t].Woken?
      modifies this
      ensures Step(old(View()), t, View())
    {
      owner := HeldBy(t);
      pc := pc[t := match pc[t]
                    case PushLock(v) => PushLocked(v)
                    case QueryLock => QueryLocked
                    case TryLock => TryLocked
                    case WaitLock => Checking(false)
                    case _ => Checking(true)];
    }

    /** push: the_queue.push(data). */
    method Push(ghost t: Thread, data: T)
      requires t in pc && pc[t] == PushLocked(data)
      modifies this
      ensures Step(old(View()), t, View())
      ensures queue == old(queue) + [data]
    {
      queue := queue + [data];
      pc := pc[t := PushAppended];
    }

    /** push: lock.unlock(). */
    method Unlock(ghost t: Thread)
      requires t in pc && pc[t].PushAppended?
      modifies this
      ensures Step(old(View()), t, View())
    {
      owner := Free;
      pc := pc[t := PushNotify];
    }

    /** push: notify_one, which wakes some sleeper if there is one. */
    method NotifyOne(ghost t: Thread)
      requires t in pc && pc[t].PushNotify?
      modifies this
      ensures Step(old(View()), t, View())
    {
      if w :| w in pc && pc[w].Sleeping? {
        pc := pc[t := Idle][w := Woken];
        assert View() == old(View()).Goto(t, Idle).Goto(w, Woken);
      } else {
        pc := pc[t := Idle];
      }
    }

    /** empty and size, with the release of the lock on return. */
    method Query(ghost t: Thread) returns (size: nat, empty: bool)
      requires t in pc && pc[t].QueryLocked?
      modifies this
      ensures Step(old(View()), t, View())
      ensures size == |old(queue)| && (empty <==> old(queue) == []) && queue == old(queue)
    {
      size, empty := |queue|, queue == [];
      owner := Free;
      pc := pc[t := Idle];
    }

    /** try_pop, under the lock. */
    method TryPop(ghost t: Thread, before: T) returns (found: bool, poppedValue: T)
      requires t in pc && pc[t].TryLocked?
      modifies this
      ensures Step(old(View()), t, View())
      ensures if old(queue) == [] then !found && poppedValue == before && queue == []
              else found && [poppedValue] + queue == old(queue)
    {
      found, poppedValue := false, before;
      if queue != [] {
        found, poppedValue := true, queue[0];
        queue := queue[1..];
      }
      pc := pc[t := Leaving(if found then Took(poppedValue) else Nothing)];
    }

    /** wait_and_pop: one pass through the while test, ending in wait or with a value. */
    method TestAndPop(ghost t: Thread, before: T) returns (done: bool, poppedValue: T)
      requires t in pc && pc[t].Checking?
      modifies this
      ensures Step(old(View()), t, View())
      ensures if old(queue) == [] then !done && pc[t] == Sleeping && owner == Free && queue == []
              else done && [poppedValue] + queue == old(queue)
    {
      done, poppedValue := false, before;
      if queue == [] {
        owner := Free;
        pc := pc[t := Sleeping];
      } else {
        done, poppedValue := true, queue[0];
        queue := queue[1..];
        pc := pc[t := Leaving(Took(poppedValue))];
      }
    }
  }
}
