/** thread/c10b_sync.c: what a run of lock operations amounts to, told from the actions and from who took them. */
module LockRuns {
  import opened Debug
  import opened Sched
  import opened Locks

  /** Who takes each action. */
  ghost predicate Takers(states: seq<Kernel>, actions: seq<Action>, who: seq<Tid>) {
    && Execution(states, actions) && |who| == |actions|
    && forall i :: 0 <= i < |who| ==> who[i] == states[i].s.current
  }

  /** The lock that thread `t` asked for last. */
  function LastAsked(who: seq<Tid>, actions: seq<Action>, t: Tid): Option<Lid>
    requires |who| == |actions|
  {
    if actions == [] then None
    else
      var n := |actions| - 1;
      if who[n] == t && actions[n].Acquire? then Some(actions[n].l) else LastAsked(who[..n], actions[..n], t)
  }

  /** How many acquires thread `t` has completed on `l`, less the releases it has begun. An acquire by a thread
      that owes a release is complete at once, any other one when the count is set. */
  function Owes(who: seq<Tid>, actions: seq<Action>, t: Tid, l: Lid): int
    requires |who| == |actions|
  {
    if actions == [] then 0
    else
      var n := |actions| - 1;
      Owed(Owes(who[..n], actions[..n], t, l), actions[n], who[n] == t, LastAsked(who, actions, t) == Some(l), l)
  }

  /** One action more. */
  function Owed(before: int, a: Action, own: bool, asked: bool, l: Lid): int {
    if !own then before
    else match a
         case Acquire(m) => if m == l && before > 0 then before + 1 else before
         case SetRepeat => if asked then before + 1 else before
         case Release(m) => if m == l then before - 1 else before
         case _ => before
  }

  predicate Asking(pc: Pc) {
    pc.Entering? || pc.Sleeping? || pc.Got? || pc.Holding?
  }

  /** Who is in lock_acquire is there for the lock it asked for last. */
  ghost predicate AskedFor(k: Kernel, who: seq<Tid>, actions: seq<Action>)
    requires |who| == |actions|
  {
    forall t :: t in k.pc && Asking(k.pc[t]) ==> LastAsked(who, actions, t) == Some(k.pc[t].l)
  }

  lemma AskedNext(who: seq<Tid>, actions: seq<Action>, x: Tid, a: Action, t: Tid)
    requires |who| == |actions|
    ensures LastAsked(who + [x], actions + [a], t)
         == if x == t && a.Acquire? then Some(a.l) else LastAsked(who, actions, t)
  {
    assert (who + [x])[..|actions|] == who && (actions + [a])[..|actions|] == actions;
  }

  lemma OwesNext(who: seq<Tid>, actions: seq<Action>, x: Tid, a: Action, t: Tid, l: Lid)
    requires |who| == |actions|
    ensures Owes(who + [x], actions + [a], t, l)
         == Owed(Owes(who, actions, t, l), a, x == t, LastAsked(who + [x], actions + [a], t) == Some(l), l)
  {
    assert (who + [x])[..|actions|] == who && (actions + [a])[..|actions|] == actions;
  }

  /** A step moves the running thread's place only, apart from a thread that is new. */
  lemma PlacesKept(k: Kernel, a: Action)
    requires Enabled(k, a) && Step(k, a).Done?
    ensures var k1 := Step(k, a).value;
      forall t :: t in k1.pc && t != k.s.current ==> k1.pc[t] == if t in k.pc then k.pc[t] else Free
  {
    hide BlockSelf, Unblock, Tick, Yield, Start;
  }

  lemma PlaceMoved(k: Kernel, a: Action)
    requires Enabled(k, a) && Step(k, a).Done? && k.s.current in Step(k, a).value.pc
    ensures var pc, pc1 := k.pc[k.s.current], Step(k, a).value.pc[k.s.current];
      Asking(pc1) ==> (a.Acquire? && pc1.l == a.l) || (!a.Acquire? && Asking(pc) && pc1.l == pc.l)
  {
    hide BlockSelf, Unblock, Tick, Yield, Start;
  }

  lemma AskedKept(k: Kernel, who: seq<Tid>, actions: seq<Action>, a: Action)
    requires |who| == |actions| && AskedFor(k, who, actions) && Enabled(k, a) && Step(k, a).Done?
    ensures AskedFor(Step(k, a).value, who + [k.s.current], actions + [a])
  {
    hide Step, LastAsked;
    PlacesKept(k, a);
    var k1 := Step(k, a).value;
    forall t | t in k1.pc && Asking(k1.pc[t])
      ensures LastAsked(who + [k.s.current], actions + [a], t) == Some(k1.pc[t].l)
    {
      AskedNext(who, actions, k.s.current, a, t);
      if t == k.s.current {
        PlaceMoved(k, a);
      }
    }
  }

  /** What the model records of depth, against one action more. */
  lemma DepthMoves(k: Kernel, a: Action, t: Tid, l: Lid, asked: bool)
    requires Good(k) && Enabled(k, a) && Step(k, a).Done?
    requires t == k.s.current && Asking(k.pc[t]) ==> (asked <==> k.pc[t].l == l)
    ensures Depth(Step(k, a).value.depth, t, l) == Owed(Depth(k.depth, t, l), a, k.s.current == t, asked, l)
  {
    hide Good, BlockSelf, Unblock, Tick, Yield, Start;
    if t == k.s.current {
      if a.Acquire? && a.l == l {
        NestedOrNot(k, l);
      } else if a.SetRepeat? {
        Expect(k, k.pc[t].l, t);
      } else if a.Release? && a.l == l {
        ReleaseGood(k, l);
      }
    }
  }

  lemma NestedOrNot(k: Kernel, l: Lid)
    requires Good(k) && Enabled(k, Acquire(l))
    ensures k.locks[l].holder == Some(k.s.current) <==> Depth(k.depth, k.s.current, l) > 0
  {
    HolderTracksDepth(k, l, k.s.current);
  }

  /** In every state of every run the depth of a thread in a lock is what it owes. */
  lemma {:induction false} DepthIsOwed(states: seq<Kernel>, actions: seq<Action>, who: seq<Tid>, i: nat, t: Tid, l: Lid)
    requires Takers(states, actions, who) && Initial(states[0]) && i <= |actions|
    ensures AskedFor(states[i], who[..i], actions[..i])
    ensures Depth(states[i].depth, t, l) == Owes(who[..i], actions[..i], t, l)
  {
    hide Good, Step, Enabled, Initial, AskedFor, Owes, Owed;
    RunsAreGood(states, actions, i);
    if i == 0 {
      NothingOwed(states[0], t, l);
      assert who[..0] == [] && actions[..0] == [];
    } else {
      DepthIsOwed(states, actions, who, i - 1, t, l);
      RunsAreGood(states, actions, i - 1);
      var k, a := states[i - 1], actions[i - 1];
      assert Enabled(k, a) && Step(k, a) == Done(states[i]);
      assert who[..i] == who[..i - 1] + [k.s.current] && actions[..i] == actions[..i - 1] + [a];
      OneMoreOwed(k, a, who[..i - 1], actions[..i - 1], t, l);
    }
  }

  lemma NothingOwed(k: Kernel, t: Tid, l: Lid)
    requires Initial(k)
    ensures AskedFor(k, [], []) && Depth(k.depth, t, l) == 0 == Owes([], [], t, l)
  {
  }

  lemma OneMoreOwed(k: Kernel, a: Action, who: seq<Tid>, actions: seq<Action>, t: Tid, l: Lid)
    requires Good(k) && Enabled(k, a) && Step(k, a).Done? && |who| == |actions| && AskedFor(k, who, actions)
    requires Depth(k.depth, t, l) == Owes(who, actions, t, l)
    ensures AskedFor(Step(k, a).value, who + [k.s.current], actions + [a])
    ensures Depth(Step(k, a).value.depth, t, l) == Owes(who + [k.s.current], actions + [a], t, l)
  {
    hide Good, Step, Owes, Owed, LastAsked;
    AskedKept(k, who, actions, a);
    OwesNext(who, actions, k.s.current, a, t, l);
    AskedNext(who, actions, k.s.current, a, t);
    DepthMoves(k, a, t, l, LastAsked(who + [k.s.current], actions + [a], t) == Some(l)) by { NotAskingNow(k, a, t); }
  }

  lemma NotAskingNow(k: Kernel, a: Action, t: Tid)
    requires Enabled(k, a)
    ensures a.Acquire? && t == k.s.current ==> !Asking(k.pc[t])
  {
  }

  /** A thread that owes a release holds the lock and its count is what it owes; a lock that is free owes nothing. */
  lemma CountIsOwed(states: seq<Kernel>, actions: seq<Action>, who: seq<Tid>, i: nat, t: Tid, l: Lid)
    requires Takers(states, actions, who) && Initial(states[0]) && i <= |actions|
    requires l in states[i].locks && t in states[i].pc
    ensures var owes, lock := Owes(who[..i], actions[..i], t, l), states[i].locks[l];
      && owes >= 0
      && (owes > 0 ==> lock.value == 0 && lock.holder == Some(t) && lock.repeat == owes)
      && (lock.holder == Some(t) ==> owes > 0 || states[i].pc[t] == Holding(l))
      && (lock.value == 1 ==> owes == 0)
  {
    hide Good, Step, Enabled, Initial, AskedFor, Owes, Takers;
    assert Execution(states, actions) by { TakersRun(states, actions, who); }
    RunsAreGood(states, actions, i);
    DepthIsOwed(states, actions, who, i, t, l);
    HolderTracksDepth(states[i], l, t);
    if Depth(states[i].depth, t, l) > 0 {
      IsInside(states[i], l, t);
    }
  }

  lemma TakersRun(states: seq<Kernel>, actions: seq<Action>, who: seq<Tid>)
    requires Takers(states, actions, who)
    ensures Execution(states, actions)
  {
  }

  /** Who goes to sleep on `l`. */
  function SleepsNow(k: Kernel, a: Action, l: Lid): seq<Tid>
    requires Enabled(k, a)
  {
    if a.TestSemaphore? && k.pc[k.s.current].l == l && k.locks[l].value == 0 then [k.s.current] else []
  }

  /** Who is woken from it: sema_up puts a thread in front of the ready list. */
  function WokenNow(k: Kernel, a: Action, k1: Kernel, l: Lid): seq<Tid>
    requires Enabled(k, a)
  {
    if a.Up? && k.pc[k.s.current].l == l && |k1.s.ready| > |k.s.ready| then [k1.s.ready[0]] else []
  }

  function Sleeps(states: seq<Kernel>, actions: seq<Action>, l: Lid): seq<Tid>
    requires Execution(states, actions)
  {
    if actions == [] then []
    else
      var n := |actions| - 1;
      Sleeps(states[..n + 1], actions[..n], l) + SleepsNow(states[n], actions[n], l)
  }

  function Wakes(states: seq<Kernel>, actions: seq<Action>, l: Lid): seq<Tid>
    requires Execution(states, actions)
  {
    if actions == [] then []
    else
      var n := |actions| - 1;
      Wakes(states[..n + 1], actions[..n], l) + WokenNow(states[n], actions[n], states[n + 1], l)
  }

  lemma InTurn(k: Kernel, a: Action, l: Lid)
    requires Good(k) && Enabled(k, a) && Step(k, a).Done? && l in k.locks
    ensures var k1 := Step(k, a).value;
      l in k1.locks && k.locks[l].waiters + SleepsNow(k, a, l) == WokenNow(k, a, k1, l) + k1.locks[l].waiters
  {
    hide Good, BlockSelf, Unblock, Tick, Yield, Start;
    if a.Up? && k.pc[k.s.current].l == l && k.locks[l].waiters != [] {
      FirstWaiter(k, l);
      WakesFirst(k, k.locks[l].waiters[0]);
    }
  }

  lemma WakesFirst(k: Kernel, t: Tid)
    requires Good(k) && t in k.s.threads && Stopped(k.s.threads[t].status)
    ensures Unblock(k.s, t).Done? && Unblock(k.s, t).value.ready == [t] + k.s.ready
  {
    hide Inv, LockOk;
    GoodThreads(k);
    WokenRuns(k.s, t);
  }

  /** Over every run, the threads that went to sleep on a lock are those that were woken, in the same order, and
      then those that wait. */
  lemma {:induction false} WokenInOrder(states: seq<Kernel>, actions: seq<Action>, l: Lid)
    requires Execution(states, actions) && Initial(states[0]) && l in states[0].locks
    ensures l in states[|actions|].locks
    ensures Sleeps(states, actions, l) == Wakes(states, actions, l) + states[|actions|].locks[l].waiters
    decreases |actions|
  {
    hide Good, Step, Enabled, SleepsNow, WokenNow;
    if actions != [] {
      var n := |actions| - 1;
      assert Enabled(states[n], actions[n]) && Step(states[n], actions[n]) == Done(states[n + 1]);
      RunsAreGood(states, actions, n);
      WokenInOrder(states[..n + 1], actions[..n], l);
      InTurn(states[n], actions[n], l);
      var sleeps, wakes := Sleeps(states[..n + 1], actions[..n], l), Wakes(states[..n + 1], actions[..n], l);
      var now, woken := SleepsNow(states[n], actions[n], l), WokenNow(states[n], actions[n], states[n + 1], l);
      var ws, ws1 := states[n].locks[l].waiters, states[n + 1].locks[l].waiters;
      assert sleeps + now == wakes + ws + now == wakes + (ws + now) == wakes + (woken + ws1) == wakes + woken + ws1;
    }
  }

  /** What each action does to the scheduler. */
  ghost predicate Switches(k: Kernel, a: Action, k1: Kernel)
    requires Enabled(k, a)
  {
    var s, t := k.s, k.s.current;
    match a
    case Preempt => Ticked(s, k1.s)
    case YieldCpu => GaveWay(s, k1.s)
    case Park(st) => k1.pc.Keys == k.pc.Keys && k1.pc[t] == Parked && NextInLine(WithStatus(s, t, st), k1.s)
    case Unpark(x) => FirstInLine(s, x, k1.s)
    case Spawn(x, priority) =>
      && k1.s.ready == s.ready + [x] && k1.s.current == t && k1.s.idle == s.idle
      && k1.s.threads == s.threads[x := Pcb(Ready, priority, priority)]
    case TestSemaphore =>
      if k.locks[k.pc[t].l].value == 0 then NextInLine(WithStatus(s, t, Blocked), k1.s) else k1.s == s
    case Up =>
      var ws := k.locks[k.pc[t].l].waiters;
      if ws != [] then FirstInLine(s, ws[0], k1.s) else k1.s == s
    case _ => k1.s == s
  }

  lemma StepSwitches(k: Kernel, a: Action)
    requires Good(k) && Enabled(k, a) && Step(k, a).Done?
    ensures Switches(k, a, Step(k, a).value)
  {
    hide Good, BlockSelf, Unblock, Tick, Yield, NextInLine, FirstInLine, Ticked, GaveWay;
    GoodThreads(k);
    var t := k.s.current;
    match a
    case Preempt => TickTakes(k.s);
    case YieldCpu => YieldGives(k.s);
    case Park(st) => BlockLeaves(k.s, st);
    case Unpark(x) => WokenRuns(k.s, x);
    case TestSemaphore => BlockLeaves(k.s, Blocked);
    case Up =>
      if k.locks[k.pc[t].l].waiters != [] {
        FirstWaiter(k, k.pc[t].l);
        WokenRuns(k.s, k.locks[k.pc[t].l].waiters[0]);
      }
    case _ =>
  }

  /** Nothing but lock `l` is different. */
  ghost predicate OnlyLock(k: Kernel, k1: Kernel, l: Lid, lock: Lock) {
    && k1.locks == k.locks[l := lock] && k1.pc == k.pc
    && forall t, m :: t != k.s.current || m != l ==> Depth(k1.depth, t, m) == Depth(k.depth, t, m)
  }

  /** The running thread stands at `pc`. */
  predicate Stands(k: Kernel, pc: Pc) {
    && k.s.current in k.pc && k.s.current in k.s.threads && k.s.idle in k.s.threads && k.s.current != k.s.idle
    && k.pc[k.s.current] == pc
  }

  lemma Begins(k: Kernel, l: Lid)
    requires Stands(k, Free) && l in k.locks && k.locks[l].holder != Some(k.s.current)
    ensures Enabled(k, Acquire(l)) && Step(k, Acquire(l)) == Done(At(k, Entering(l)))
  {
  }

  /** Who finds the semaphore raised, at once or after being woken, goes through. */
  lemma GoesThrough(k: Kernel, l: Lid)
    requires (Stands(k, Entering(l)) || Stands(k, Sleeping(l))) && l in k.locks && k.locks[l].value == 1
    ensures Enabled(k, TestSemaphore)
    ensures Step(k, TestSemaphore) ==
            Done(At(WithLock(k, l, k.locks[l].(value := 0)), Got(l)).(inside := k.inside[l := k.s.current]))
  {
  }

  lemma TakesOver(k: Kernel, l: Lid)
    requires Stands(k, Got(l)) && l in k.locks && k.locks[l].repeat == 0
    ensures Enabled(k, SetHolder)
    ensures var k1 := At(WithLock(k, l, k.locks[l].(holder := Some(k.s.current))), Holding(l));
      && Step(k, SetHolder) == Done(k1) && Enabled(k1, SetRepeat)
      && Step(k1, SetRepeat) == Done(WithDepth(At(WithLock(k1, l, k1.locks[l].(repeat := 1)), Free), l, 1))
  {
  }

  lemma CountsUp(k: Kernel, l: Lid)
    requires Stands(k, Free) && l in k.locks && k.locks[l].holder == Some(k.s.current)
    ensures Enabled(k, Acquire(l))
    ensures Step(k, Acquire(l)) ==
            Done(WithDepth(WithLock(k, l, k.locks[l].(repeat := k.locks[l].repeat + 1)), l,
                           Depth(k.depth, k.s.current, l) + 1))
  {
  }

  lemma CountsDown(k: Kernel, l: Lid)
    requires Stands(k, Free) && l in k.locks && k.locks[l].holder == Some(k.s.current)
    requires k.locks[l].repeat == Depth(k.depth, k.s.current, l) > 1
    ensures Enabled(k, Release(l))
    ensures Step(k, Release(l)) ==
            Done(WithDepth(WithLock(k, l, k.locks[l].(repeat := k.locks[l].repeat - 1)), l,
                           Depth(k.depth, k.s.current, l) - 1))
  {
  }

  lemma LetsGo(k: Kernel, l: Lid)
    requires Stands(k, Free) && l in k.locks && k.locks[l].holder == Some(k.s.current)
    requires k.locks[l].repeat == Depth(k.depth, k.s.current, l) == 1
    ensures Enabled(k, Release(l))
    ensures var k1 := WithDepth(At(WithLock(k, l, k.locks[l].(holder := None)), Leaving(l)), l, 0);
      && Step(k, Release(l)) == Done(k1) && Enabled(k1, ClearRepeat)
      && Step(k1, ClearRepeat) == Done(At(WithLock(k1, l, k1.locks[l].(repeat := 0)), Raising(l)))
  {
  }

  lemma Raises(k: Kernel, l: Lid, s1: State)
    requires Stands(k, Raising(l)) && l in k.locks && k.locks[l].value == 0
    requires var ws := k.locks[l].waiters;
      if ws == [] then s1 == k.s else ws[0] in k.s.threads && Unblock(k.s, ws[0]) == Done(s1)
    ensures Enabled(k, Up) && Step(k, Up).Done?
    ensures var k1, ws := Step(k, Up).value, k.locks[l].waiters;
      && k1.locks == k.locks[l := k.locks[l].(value := 1, waiters := if ws == [] then [] else ws[1..])]
      && k1.pc == k.pc[k.s.current := Free] && k1.depth == k.depth && k1.s == s1
  {
    hide Unblock;
  }

  lemma StandsNow(k: Kernel)
    requires Good(k) && k.s.current in k.pc && k.s.current != k.s.idle
    ensures Stands(k, k.pc[k.s.current])
  {
    hide Inv;
    GoodThreads(k);
    RunningNow(k.s);
  }

  /** lock_acquire of a lock that is free, when nobody comes between: it is not kept waiting. */
  lemma AcquireFree(k: Kernel, l: Lid) returns (states: seq<Kernel>)
    requires Good(k) && l in k.locks && k.locks[l].value == 1
    requires k.s.current in k.pc && k.pc[k.s.current] == Free && k.s.current != k.s.idle
    ensures Execution(states, [Acquire(l), TestSemaphore, SetHolder, SetRepeat]) && states[0] == k
    ensures OnlyLock(k, states[4], l, Lock(0, k.locks[l].waiters, Some(k.s.current), 1)) && states[4].s == k.s
    ensures Depth(states[4].depth, k.s.current, l) == 1
  {
    hide Good, Step, Enabled;
    StandsNow(k);
    FreeLockState(k, l);
    var t, lock := k.s.current, k.locks[l];
    var k1 := At(k, Entering(l));
    var k2 := At(WithLock(k1, l, lock.(value := 0)), Got(l)).(inside := k.inside[l := t]);
    var k3 := At(WithLock(k2, l, lock.(value := 0, holder := Some(t))), Holding(l));
    var k4 := WithDepth(At(WithLock(k3, l, lock.(value := 0, holder := Some(t), repeat := 1)), Free), l, 1);
    Begins(k, l);
    GoesThrough(k1, l);
    TakesOver(k2, l);
    states := [k, k1, k2, k3, k4];
    assert k4.locks == k.locks[l := Lock(0, lock.waiters, Some(t), 1)] && k4.pc == k.pc;
  }

  /** lock_acquire of a lock that another thread has: the thread queues up and the next in line runs. */
  lemma AcquireTaken(k: Kernel, l: Lid) returns (states: seq<Kernel>)
    requires Good(k) && l in k.locks && k.locks[l].value == 0 && k.locks[l].holder != Some(k.s.current)
    requires k.s.current in k.pc && k.pc[k.s.current] == Free && k.s.current != k.s.idle
    ensures Execution(states, [Acquire(l), TestSemaphore]) && states[0] == k
    ensures states[2].locks == k.locks[l := k.locks[l].(waiters := k.locks[l].waiters + [k.s.current])]
    ensures states[2].pc == k.pc[k.s.current := Sleeping(l)] && states[2].depth == k.depth
    ensures NextInLine(WithStatus(k.s, k.s.current, Blocked), states[2].s)
  {
    hide Good, Step, NextInLine;
    StandsNow(k);
    var k1 := At(k, Entering(l));
    Begins(k, l);
    EnterGood(k, l);
    StepGood(k1, TestSemaphore);
    StepSwitches(k1, TestSemaphore);
    QueuesUp(k1, l);
    states := [k, k1, Step(k1, TestSemaphore).value];
  }

  lemma QueuesUp(k: Kernel, l: Lid)
    requires Stands(k, Entering(l)) && l in k.locks && k.locks[l].value == 0 && Step(k, TestSemaphore).Done?
    ensures var k1 := Step(k, TestSemaphore).value;
      && k1.locks == k.locks[l := k.locks[l].(waiters := k.locks[l].waiters + [k.s.current])]
      && k1.pc == k.pc[k.s.current := Sleeping(l)] && k1.depth == k.depth
  {
    hide BlockSelf;
  }

  /** Acquires and releases that are nested move the count by one and nothing else. */
  lemma NestedSteps(k: Kernel, l: Lid)
    requires Good(k) && l in k.locks && k.s.current in k.pc && k.pc[k.s.current] == Free
    requires Depth(k.depth, k.s.current, l) > 0
    ensures Enabled(k, Acquire(l)) && Enabled(k, Release(l))
    ensures var r, lock := Step(k, Acquire(l)), k.locks[l];
      r.Done? && r.value.s == k.s && OnlyLock(k, r.value, l, lock.(repeat := lock.repeat + 1))
    ensures var r, lock := Step(k, Release(l)), k.locks[l];
      lock.repeat > 1 ==>
        r.Done? && r.value.s == k.s && OnlyLock(k, r.value, l, lock.(repeat := lock.repeat - 1))
  {
    hide Good, Step, Enabled, OnlyLock;
    Owner(k, l);
    OneMore(k, l);
    MayRelease(k, l);
    if k.locks[l].repeat > 1 {
      OneLess(k, l);
    }
  }

  lemma OneMore(k: Kernel, l: Lid)
    requires Stands(k, Free) && l in k.locks && k.locks[l].holder == Some(k.s.current)
    ensures Enabled(k, Acquire(l))
    ensures var r, lock := Step(k, Acquire(l)), k.locks[l];
      r.Done? && r.value.s == k.s && OnlyLock(k, r.value, l, lock.(repeat := lock.repeat + 1))
  {
    hide Step, Enabled;
    CountsUp(k, l);
  }

  lemma OneLess(k: Kernel, l: Lid)
    requires Stands(k, Free) && l in k.locks && k.locks[l].holder == Some(k.s.current)
    requires k.locks[l].repeat == Depth(k.depth, k.s.current, l) > 1
    ensures Enabled(k, Release(l))
    ensures var r, lock := Step(k, Release(l)), k.locks[l];
      r.Done? && r.value.s == k.s && OnlyLock(k, r.value, l, lock.(repeat := lock.repeat - 1))
  {
    hide Step, Enabled;
    CountsDown(k, l);
  }

  lemma MayRelease(k: Kernel, l: Lid)
    requires Stands(k, Free) && l in k.locks && Depth(k.depth, k.s.current, l) > 0
    ensures Enabled(k, Release(l))
  {
  }

  lemma Owner(k: Kernel, l: Lid)
    requires Good(k) && l in k.locks && k.s.current in k.pc && k.pc[k.s.current] == Free
    requires Depth(k.depth, k.s.current, l) > 0
    ensures Stands(k, Free) && k.locks[l].holder == Some(k.s.current) && k.locks[l].value == 0
    ensures k.locks[l].repeat == Depth(k.depth, k.s.current, l)
  {
    hide Good;
    HolderTracksDepth(k, l, k.s.current);
    Expect(k, l, k.s.current) by { assert !Outside(k, l, k.s.current); }
    StandsNow(k);
  }

  /** The last lock_release, when nobody comes between: the lock is free and its first waiter on the way. */
  lemma ReleaseLast(k: Kernel, l: Lid) returns (states: seq<Kernel>)
    requires Good(k) && l in k.locks && k.s.current in k.pc && k.pc[k.s.current] == Free
    requires Depth(k.depth, k.s.current, l) == 1
    ensures Execution(states, [Release(l), ClearRepeat, Up]) && states[0] == k
    ensures var ws := k.locks[l].waiters;
      && OnlyLock(k, states[3], l, Lock(1, if ws == [] then [] else ws[1..], None, 0))
      && if ws == [] then states[3].s == k.s else FirstInLine(k.s, ws[0], states[3].s)
    ensures Depth(states[3].depth, k.s.current, l) == 0
  {
    hide Good, Step, Enabled, Unblock, FirstInLine;
    Owner(k, l);
    var lock := k.locks[l];
    var k1 := WithDepth(At(WithLock(k, l, lock.(holder := None)), Leaving(l)), l, 0);
    var k2 := At(WithLock(k1, l, lock.(holder := None, repeat := 0)), Raising(l));
    LetsGo(k, l);
    var s1 := k.s;
    if lock.waiters != [] {
      FirstWaiter(k, l);
      GoodThreads(k);
      WokenRuns(k.s, lock.waiters[0]);
      s1 := Unblock(k.s, lock.waiters[0]).value;
    }
    Raises(k2, l, s1);
    var k3 := Step(k2, Up).value;
    states := [k, k1, k2, k3];
    assert k3.pc == k.pc;
  }

  /** Acquiring a free lock that nobody waits for and releasing it leaves locks and threads as they were. */
  lemma AcquireThenRelease(k: Kernel, l: Lid) returns (states: seq<Kernel>)
    requires Good(k) && l in k.locks && k.locks[l].value == 1 && k.locks[l].waiters == []
    requires k.s.current in k.pc && k.pc[k.s.current] == Free && k.s.current != k.s.idle
    ensures Execution(states, [Acquire(l), TestSemaphore, SetHolder, SetRepeat, Release(l), ClearRepeat, Up])
    ensures states[0] == k && states[7].locks == k.locks && states[7].pc == k.pc && states[7].s == k.s
    ensures forall t, m :: Depth(states[7].depth, t, m) == Depth(k.depth, t, m)
  {
    hide Good, Enabled, Step;
    var up := AcquireFree(k, l);
    RunStaysGood(up, [Acquire(l), TestSemaphore, SetHolder, SetRepeat], 4);
    var down := ReleaseLast(up[4], l);
    states := up + down[1..];
    FreeLockState(k, l);
    assert states[7].locks == k.locks;
  }

  lemma FreeLockState(k: Kernel, l: Lid)
    requires Good(k) && l in k.locks && k.locks[l].value == 1 && k.s.current in k.pc
    ensures k.locks[l] == Lock(1, k.locks[l].waiters, None, 0) && Depth(k.depth, k.s.current, l) == 0
  {
    assert LockOk(k, l);
    FreeLock(k, l, k.s.current);
  }

  lemma {:induction false} RunStaysGood(states: seq<Kernel>, actions: seq<Action>, i: nat)
    requires Execution(states, actions) && Good(states[0]) && i < |states|
    ensures Good(states[i])
  {
    hide Good, Step, Enabled;
    if i > 0 {
      RunStaysGood(states, actions, i - 1);
      StepGood(states[i - 1], actions[i - 1]);
    }
  }
}
