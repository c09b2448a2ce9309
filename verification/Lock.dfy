/** thread/c10b_sync.c: semaphores used as locks, as steps that any number of threads interleave. The
    sections with interrupts off are single steps; between steps the timer may switch threads. */
module Locks {
  import opened Debug
  import opened Sched

  type Lid = nat  // a lock

  datatype Option<+T> = None | Some(value: T)

  /** struct lock with its semaphore. */
  datatype Lock = Lock(value: nat, waiters: seq<Tid>, holder: Option<Tid>, repeat: nat)

  /** Where a thread stands in the code of a lock operation. */
  datatype Pc =
    | Free
    | Entering(l: Lid)  // in lock_acquire, about to call sema_down
    | Sleeping(l: Lid)  // in the wait loop of sema_down
    | Got(l: Lid)       // behind sema_down
    | Holding(l: Lid)   // behind the assignment of holder
    | Leaving(l: Lid)   // in lock_release, holder is cleared
    | Raising(l: Lid)   // about to call sema_up
    | Parked            // blocked by itself, on no list

  /** `inside` and `depth` record, for the specification only, who is between sema_down and sema_up and
      how often a thread has acquired a lock it has not released. */
  datatype Kernel = Kernel(s: State, locks: map<Lid, Lock>, pc: map<Tid, Pc>, inside: map<Lid, Tid>,
                           depth: map<(Tid, Lid), nat>)

  function Depth(depth: map<(Tid, Lid), nat>, t: Tid, l: Lid): nat {
    if (t, l) in depth then depth[(t, l)] else 0
  }

  predicate About(pc: Pc, l: Lid) {
    pc != Free && pc != Parked && pc.l == l
  }

  /** Inside the critical region of `l` while working on the lock itself. */
  predicate Crossing(pc: Pc, l: Lid) {
    About(pc, l) && !pc.Entering? && !pc.Sleeping?
  }

  /** What holder and repeat count say about the thread inside. */
  ghost predicate HolderOk(k: Kernel, l: Lid, t: Tid)
    requires l in k.locks && t in k.pc
  {
    var lock, pc, d := k.locks[l], k.pc[t], Depth(k.depth, t, l);
    if pc == Got(l) then lock.holder == None && lock.repeat == 0 && d == 0
    else if pc == Holding(l) then lock.holder == Some(t) && lock.repeat == 0 && d == 0
    else if pc == Leaving(l) then lock.holder == None && lock.repeat == 1 && d == 0
    else if pc == Raising(l) then lock.holder == None && lock.repeat == 0 && d == 0
    else !About(pc, l) && lock.holder == Some(t) && lock.repeat == d > 0
  }

  ghost predicate Outside(k: Kernel, l: Lid, t: Tid)
    requires t in k.pc
  {
    !Crossing(k.pc[t], l) && Depth(k.depth, t, l) == 0
  }

  /** A thread that was taken off the waiters and has yet to test the semaphore again. */
  predicate Woken(k: Kernel, l: Lid, t: Tid) {
    t in k.pc && t in k.s.threads && k.pc[t] == Sleeping(l) && !Stopped(k.s.threads[t].status)
  }

  ghost predicate WaitersOk(k: Kernel, l: Lid)
    requires l in k.locks
  {
    && Distinct(k.locks[l].waiters)
    && forall t :: t in k.locks[l].waiters <==>
         t in k.pc && t in k.s.threads && k.pc[t] == Sleeping(l) && Stopped(k.s.threads[t].status)
  }

  ghost predicate InsideOk(k: Kernel, l: Lid)
    requires l in k.locks
  {
    && k.locks[l].value <= 1 && (l in k.inside <==> k.locks[l].value == 0)
    && if l in k.inside then k.inside[l] in k.pc && HolderOk(k, l, k.inside[l])
       else k.locks[l].holder == None && k.locks[l].repeat == 0
  }

  ghost predicate OthersOutside(k: Kernel, l: Lid) {
    forall t :: t in k.pc && !(l in k.inside && k.inside[l] == t) ==> Outside(k, l, t)
  }

  ghost predicate WakeOk(k: Kernel, l: Lid)
    requires l in k.locks
  {
    k.locks[l].value == 1 && k.locks[l].waiters != [] ==> exists t :: Woken(k, l, t)
  }

  ghost predicate LockOk(k: Kernel, l: Lid)
    requires l in k.locks
  {
    InsideOk(k, l) && OthersOutside(k, l) && WaitersOk(k, l) && WakeOk(k, l)
  }

  /** Whoever is stopped sleeps on a lock or has parked itself; idle never touches a lock. */
  ghost predicate ThreadsOk(k: Kernel) {
    && Inv(k.s) && k.pc.Keys == k.s.threads.Keys
    && (k.pc[k.s.idle] == Free || k.pc[k.s.idle] == Parked)
    && (forall t :: t in k.pc && Stopped(k.s.threads[t].status) ==> k.pc[t].Sleeping? || k.pc[t] == Parked)
    && (forall t, l :: (t, l) in k.depth ==> t in k.pc && t != k.s.idle)
    && forall t :: t in k.pc && k.pc[t] != Free && k.pc[t] != Parked ==> k.pc[t].l in k.locks
  }

  ghost predicate Good(k: Kernel) {
    ThreadsOk(k) && forall l :: l in k.locks ==> LockOk(k, l)
  }

  /** At most one thread is between its sema_down and its sema_up on a lock. */
  lemma MutualExclusion(k: Kernel, l: Lid, a: Tid, b: Tid)
    requires Good(k) && l in k.locks && a in k.pc && b in k.pc
    requires !Outside(k, l, a) && !Outside(k, l, b)
    ensures a == b && k.locks[l].value == 0
  {
  }

  /** Holder and repeat count track the nesting depth of the thread that has the lock. */
  lemma HolderTracksDepth(k: Kernel, l: Lid, t: Tid)
    requires Good(k) && l in k.locks && t in k.pc
    ensures Depth(k.depth, t, l) > 0 ==> k.locks[l].holder == Some(t) && k.locks[l].repeat == Depth(k.depth, t, l)
    ensures k.locks[l].holder == Some(t) ==> Depth(k.depth, t, l) > 0 || k.pc[t] == Holding(l)
  {
    assert LockOk(k, l);
  }

  /** A thread's tag is on one list at most: the ready list or the waiters of one lock. */
  lemma OneList(k: Kernel, l: Lid, m: Lid, t: Tid)
    requires Good(k) && l in k.locks && m in k.locks && t in k.locks[l].waiters
    ensures t !in k.s.ready && t != k.s.current && (t in k.locks[m].waiters ==> m == l)
  {
    assert LockOk(k, l) && LockOk(k, m);
  }

  /** A free lock with sleepers has a woken thread on its way. */
  lemma NoLostWakeup(k: Kernel, l: Lid)
    requires Good(k) && l in k.locks && k.locks[l].value == 1 && k.locks[l].waiters != []
    ensures exists t :: Woken(k, l, t)
  {
  }

  datatype Action =
    | Acquire(l: Lid)       // lock_acquire up to the call of sema_down, or the nested case
    | TestSemaphore         // one test in sema_down
    | SetHolder
    | SetRepeat
    | Release(l: Lid)       // lock_release up to the clearing of holder, or the nested case
    | ClearRepeat
    | Up                    // sema_up
    | Preempt               // a timer interrupt
    | YieldCpu
    | Park(st: Status)      // thread_block outside a semaphore
    | Unpark(t: Tid)        // thread_unblock outside a semaphore, by a thread or an interrupt handler
    | Resume
    | Spawn(t: Tid, priority: nat)

  function At(k: Kernel, pc: Pc): Kernel {
    k.(pc := k.pc[k.s.current := pc])
  }

  function WithLock(k: Kernel, l: Lid, lock: Lock): Kernel {
    k.(locks := k.locks[l := lock])
  }

  function WithDepth(k: Kernel, l: Lid, d: nat): Kernel {
    k.(depth := k.depth[(k.s.current, l) := d])
  }

  /** What the code lets the running thread do next. A thread only releases what it has acquired. */
  predicate Enabled(k: Kernel, a: Action) {
    k.s.current in k.pc && k.s.current in k.s.threads && k.s.idle in k.s.threads &&
    var pc := k.pc[k.s.current];
    match a
    case Acquire(l) => pc == Free && l in k.locks && k.s.current != k.s.idle
    case TestSemaphore => (pc.Entering? || pc.Sleeping?) && pc.l in k.locks
    case SetHolder => pc.Got? && pc.l in k.locks
    case SetRepeat => pc.Holding? && pc.l in k.locks
    case Release(l) => pc == Free && l in k.locks && Depth(k.depth, k.s.current, l) > 0
    case ClearRepeat => pc.Leaving? && pc.l in k.locks
    case Up => pc.Raising? && pc.l in k.locks
    case Preempt => true
    case YieldCpu => pc == Free
    case Park(st) => pc == Free && Stopped(st)
    case Unpark(t) =>
      t in k.pc && t in k.s.threads && k.pc[t] == Parked && Stopped(k.s.threads[t].status) && t != k.s.idle
    case Resume => pc == Parked
    case Spawn(t, priority) => pc == Free && t !in k.s.threads && t !in k.pc
  }

  function Moved(k: Kernel, r: Run<State>): Run<Kernel> {
    match r
    case Halted => Halted
    case Done(s) => Done(k.(s := s))
  }

  /** sema_down, once around its loop. */
  function TestStep(k: Kernel, l: Lid): Run<Kernel>
    requires k.s.current in k.s.threads && k.s.idle in k.s.threads && l in k.locks
  {
    var lock := k.locks[l];
    if lock.value == 0 then
      if k.s.current in lock.waiters then Halted
      else Moved(At(WithLock(k, l, lock.(waiters := lock.waiters + [k.s.current])), Sleeping(l)),
                 BlockSelf(k.s, Blocked))
    else if lock.value != 1 then Halted
    else Done(At(WithLock(k, l, lock.(value := 0)), Got(l)).(inside := k.inside[l := k.s.current]))
  }

  /** sema_up */
  function UpStep(k: Kernel, l: Lid): Run<Kernel>
    requires l in k.locks
  {
    var lock := k.locks[l];
    if lock.value != 0 then Halted
    else
      var after := At(WithLock(k, l, lock.(value := 1)), Free).(inside := k.inside - {l});
      if lock.waiters == [] then Done(after)
      else if lock.waiters[0] !in k.s.threads then Halted
      else Moved(WithLock(after, l, lock.(value := 1, waiters := lock.waiters[1..])), Unblock(k.s, lock.waiters[0]))
  }

  /** The rest of lock_acquire and lock_release, and everything else a thread may do; Halted when an ASSERT fails. */
  function Step(k: Kernel, a: Action): Run<Kernel>
    requires Enabled(k, a)
  {
    var t, pc := k.s.current, k.pc[k.s.current];
    match a
    case Acquire(l) =>
      if k.locks[l].holder != Some(t) then Done(At(k, Entering(l)))
      else Done(WithDepth(WithLock(k, l, k.locks[l].(repeat := k.locks[l].repeat + 1)), l, Depth(k.depth, t, l) + 1))
    case TestSemaphore => TestStep(k, pc.l)
    case SetHolder => Done(At(WithLock(k, pc.l, k.locks[pc.l].(holder := Some(t))), Holding(pc.l)))
    case SetRepeat =>
      if k.locks[pc.l].repeat != 0 then Halted
      else Done(WithDepth(At(WithLock(k, pc.l, k.locks[pc.l].(repeat := 1)), Free), pc.l, 1))
    case Release(l) =>
      if k.locks[l].holder != Some(t) then Halted
      else if k.locks[l].repeat > 1 then
        Done(WithDepth(WithLock(k, l, k.locks[l].(repeat := k.locks[l].repeat - 1)), l, Depth(k.depth, t, l) - 1))
      else if k.locks[l].repeat != 1 then Halted
      else Done(WithDepth(At(WithLock(k, l, k.locks[l].(holder := None)), Leaving(l)), l, 0))
    case ClearRepeat => Done(At(WithLock(k, pc.l, k.locks[pc.l].(repeat := 0)), Raising(pc.l)))
    case Up => UpStep(k, pc.l)
    case Preempt => Moved(k, Tick(k.s))
    case YieldCpu => Moved(k, Yield(k.s))
    case Park(st) => Moved(At(k, Parked), BlockSelf(k.s, st))
    case Unpark(t1) => Moved(k, Unblock(k.s, t1))
    case Resume => Done(At(k, Free))
    case Spawn(t1, priority) => Moved(k.(pc := k.pc[t1 := Free]), Start(k.s, t1, priority))
  }

  /** What a step leaves of a lock it does not work on. */
  ghost predicate Aside(k: Kernel, k1: Kernel, l: Lid) {
    && l in k.locks && l in k1.locks && k1.locks[l] == k.locks[l]
    && (l in k1.inside <==> l in k.inside) && (l in k.inside ==> k1.inside[l] == k.inside[l])
    && k.pc.Keys <= k1.pc.Keys && k1.pc.Keys == k1.s.threads.Keys && k.pc.Keys == k.s.threads.Keys
    && (forall t :: Depth(k1.depth, t, l) == Depth(k.depth, t, l))
    && (forall t :: t in k.pc && (About(k.pc[t], l) || About(k1.pc[t], l)) ==> k1.pc[t] == k.pc[t])
    && (forall t :: t in k1.pc && t !in k.pc ==> !About(k1.pc[t], l) && Depth(k.depth, t, l) == 0)
    && forall t :: t in k.pc && k.pc[t] == Sleeping(l) ==>
         (Stopped(k1.s.threads[t].status) <==> Stopped(k.s.threads[t].status))
  }

  lemma AsideOk(k: Kernel, k1: Kernel, l: Lid)
    requires Aside(k, k1, l) && LockOk(k, l)
    ensures LockOk(k1, l)
  {
    hide Distinct, Depth;
    assert WaitersOk(k1, l) && InsideOk(k1, l) && OthersOutside(k1, l);
    if k.locks[l].value == 1 && k.locks[l].waiters != [] {
      var t :| Woken(k, l, t);
      assert Woken(k1, l, t);
    }
  }

  /** A step of the running thread on lock `l` that switches nothing. */
  ghost predicate Local(k: Kernel, k1: Kernel, l: Lid) {
    var t := k.s.current;
    && t in k.pc && t in k1.pc && l in k.locks && k1.s == k.s && k1.locks.Keys == k.locks.Keys
    && k1.pc == k.pc[t := k1.pc[t]] && (k.pc[t] == Free || About(k.pc[t], l))
    && (k1.pc[t] == Free || About(k1.pc[t], l))
    && (forall m :: m in k.locks && m != l ==>
          && k1.locks[m] == k.locks[m] && (m in k1.inside <==> m in k.inside)
          && (m in k.inside ==> k1.inside[m] == k.inside[m]))
    && (forall x, m :: m != l || x != t ==> Depth(k1.depth, x, m) == Depth(k.depth, x, m))
    && (forall x, m :: (x, m) in k1.depth ==> (x, m) in k.depth || x == t)
  }

  lemma LocalGood(k: Kernel, k1: Kernel, l: Lid)
    requires Good(k) && Local(k, k1, l) && LockOk(k1, l) && k.s.current != k.s.idle
    ensures Good(k1)
  {
    hide Inv, Distinct, LockOk, Aside;
    LocalThreads(k, k1, l);
    forall m | m in k1.locks && m != l ensures LockOk(k1, m) {
      LocalIsAside(k, k1, l, m);
      AsideOk(k, k1, m);
    }
  }

  lemma LocalThreads(k: Kernel, k1: Kernel, l: Lid)
    requires ThreadsOk(k) && Local(k, k1, l) && k.s.current != k.s.idle
    ensures ThreadsOk(k1) && k1.locks.Keys == k.locks.Keys
  {
    hide Inv, Depth;
    RunningNow(k.s);
  }

  lemma LocalIsAside(k: Kernel, k1: Kernel, l: Lid, m: Lid)
    requires ThreadsOk(k) && Local(k, k1, l) && m in k.locks && m != l
    ensures Aside(k, k1, m)
  {
    hide Inv, Depth;
    RunningNow(k.s);
  }

  lemma RunningNow(s: State)
    requires Inv(s)
    ensures s.current in s.threads && s.idle in s.threads && s.threads[s.current].status == Running
  {
  }

  /** The waiters are as before when the running thread changes its place: it is not stopped. */
  lemma SameWaiters(k: Kernel, k1: Kernel, l: Lid)
    requires Inv(k.s) && Local(k, k1, l) && l in k1.locks && k1.locks[l].waiters == k.locks[l].waiters
    requires WaitersOk(k, l)
    ensures WaitersOk(k1, l)
  {
    hide Distinct;
    RunningNow(k.s);
  }

  /** Threads other than the running one stay outside. */
  lemma SameOutside(k: Kernel, k1: Kernel, l: Lid)
    requires OthersOutside(k, l) && Local(k, k1, l)
    requires (Outside(k1, l, k.s.current) || (l in k1.inside && k1.inside[l] == k.s.current))
    requires l in k.inside && k.inside[l] != k.s.current ==> l in k1.inside && k1.inside[l] == k.inside[l]
    ensures OthersOutside(k1, l)
  {
    hide Depth;
    forall t | t in k1.pc && !(l in k1.inside && k1.inside[l] == t) ensures Outside(k1, l, t) {
      if t != k.s.current {
        assert Outside(k, l, t);
      }
    }
  }

  lemma SameWoken(k: Kernel, k1: Kernel, l: Lid)
    requires l in k.locks && WakeOk(k, l) && Local(k, k1, l) && l in k1.locks && k1.locks[l] == k.locks[l]
    requires !k.pc[k.s.current].Sleeping? && k.pc.Keys == k.s.threads.Keys
    ensures WakeOk(k1, l)
  {
    hide Depth, Stopped, Local;
    if k.locks[l].value == 1 && k.locks[l].waiters != [] {
      var x :| Woken(k, l, x);
      assert Woken(k1, l, x) by { OnlyCurrentMoves(k, k1, l, x); }
    }
  }

  lemma OnlyCurrentMoves(k: Kernel, k1: Kernel, l: Lid, x: Tid)
    requires Local(k, k1, l) && x in k.pc
    ensures x in k1.pc && k1.s == k.s && (x != k.s.current ==> k1.pc[x] == k.pc[x])
  {
  }

  /** The thread inside moves on inside. */
  lemma InsideGood(k: Kernel, k1: Kernel, l: Lid)
    requires Good(k) && Local(k, k1, l) && l in k.inside && k.inside[l] == k.s.current && k.s.current != k.s.idle
    requires k1.inside == k.inside && k1.locks[l].value == 0 && k1.locks[l].waiters == k.locks[l].waiters
    requires HolderOk(k1, l, k.s.current)
    ensures Good(k1)
  {
    hide Inv, Distinct, Depth, HolderOk, Outside, WaitersOk, OthersOutside;
    assert LockOk(k, l);
    SameWaiters(k, k1, l);
    SameOutside(k, k1, l);
    assert LockOk(k1, l);
    hide Local;
    LocalGood(k, k1, l);
  }

  /** Who works on the lock, or has acquired it, is the thread inside. */
  lemma IsInside(k: Kernel, l: Lid, t: Tid)
    requires Good(k) && l in k.locks && t in k.pc && !Outside(k, l, t)
    ensures l in k.inside && k.inside[l] == t && HolderOk(k, l, t) && k.locks[l].value == 0
  {
    hide Inv, Distinct, Depth, HolderOk, Outside, WaitersOk, WakeOk;
    assert LockOk(k, l);
  }

  lemma NotIdle(k: Kernel, l: Lid, t: Tid)
    requires ThreadsOk(k) && t in k.pc && (About(k.pc[t], l) || Depth(k.depth, t, l) > 0)
    ensures t != k.s.idle
  {
  }

  lemma EnterGood(k: Kernel, l: Lid)
    requires Good(k) && Enabled(k, Acquire(l)) && k.locks[l].holder != Some(k.s.current)
    ensures Good(At(k, Entering(l)))
  {
    hide Inv, Distinct, Depth, WaitersOk, WakeOk, OthersOutside;
    var k1, t := At(k, Entering(l)), k.s.current;
    RunningNow(k.s);
    assert LockOk(k, l);
    assert Local(k, k1, l);
    SameWaiters(k, k1, l);
    SameWoken(k, k1, l);
    assert !(l in k.inside && k.inside[l] == t);
    assert Outside(k, l, t) by { NotInside(k, l, t); }
    SameOutside(k, k1, l);
    hide Local;
    LocalGood(k, k1, l);
  }

  lemma NotInside(k: Kernel, l: Lid, t: Tid)
    requires OthersOutside(k, l) && t in k.pc && !(l in k.inside && k.inside[l] == t)
    ensures Outside(k, l, t)
  {
  }

  lemma NestGood(k: Kernel, l: Lid)
    requires Good(k) && Enabled(k, Acquire(l)) && k.locks[l].holder == Some(k.s.current)
    ensures Good(Step(k, Acquire(l)).value)
  {
    hide Inv, Distinct, WaitersOk, WakeOk, OthersOutside;
    assert LockOk(k, l);
    InsideGood(k, Step(k, Acquire(l)).value, l);
  }

  /** A free lock has nobody inside. */
  lemma FreeLock(k: Kernel, l: Lid, t: Tid)
    requires l in k.locks && LockOk(k, l) && k.locks[l].value != 0 && t in k.pc
    ensures k.locks[l].value == 1 && l !in k.inside && Outside(k, l, t)
    ensures k.locks[l].holder == None && k.locks[l].repeat == 0 && WaitersOk(k, l) && OthersOutside(k, l)
  {
    hide Distinct, WakeOk, WaitersOk, HolderOk, Depth;
  }

  lemma TakenLock(k: Kernel, k1: Kernel, l: Lid)
    requires ThreadsOk(k) && l in k.locks && LockOk(k, l) && k.locks[l].value != 0 && k.s.current in k.pc
    requires k.s.current != k.s.idle
    requires k.pc[k.s.current] == Entering(l) || k.pc[k.s.current] == Sleeping(l)
    requires k1 == At(WithLock(k, l, k.locks[l].(value := 0)), Got(l)).(inside := k.inside[l := k.s.current])
    ensures Local(k, k1, l) && LockOk(k1, l)
  {
    hide Inv, Distinct, LockOk, WaitersOk, OthersOutside, Depth, WakeOk;
    var t := k.s.current;
    FreeLock(k, l, t);
    SameWaiters(k, k1, l);
    SameOutside(k, k1, l);
    assert InsideOk(k1, l);
    TakenIsOk(k1, l);
  }

  lemma TakenIsOk(k: Kernel, l: Lid)
    requires l in k.locks && InsideOk(k, l) && OthersOutside(k, l) && WaitersOk(k, l) && k.locks[l].value == 0
    ensures LockOk(k, l)
  {
    hide Distinct, InsideOk, OthersOutside, WaitersOk;
  }

  lemma TakeGood(k: Kernel, l: Lid)
    requires Good(k) && k.s.current in k.pc && (k.pc[k.s.current] == Entering(l) || k.pc[k.s.current] == Sleeping(l))
    requires k.s.current in k.s.threads && k.s.idle in k.s.threads && l in k.locks && k.locks[l].value != 0
    ensures TestStep(k, l).Done? && Good(TestStep(k, l).value)
  {
    hide Inv, LockOk, Local;
    NotIdle(k, l, k.s.current);
    FreeLock(k, l, k.s.current);
    var k1 := TestStep(k, l).value;
    TakenLock(k, k1, l);
    hide ThreadsOk;
    LocalGood(k, k1, l);
  }

  /** Where the code stands tells what the lock says. */
  lemma Expect(k: Kernel, l: Lid, t: Tid)
    requires Good(k) && l in k.locks && t in k.pc && !Outside(k, l, t)
    ensures l in k.inside && k.inside[l] == t != k.s.idle && HolderOk(k, l, t) && k.locks[l].value == 0
  {
    hide Inv, Distinct, HolderOk, WaitersOk, WakeOk, OthersOutside;
    IsInside(k, l, t);
    NotIdle(k, l, t);
  }

  lemma SetHolderGood(k: Kernel, l: Lid)
    requires Good(k) && Enabled(k, SetHolder) && k.pc[k.s.current] == Got(l)
    ensures Good(At(WithLock(k, l, k.locks[l].(holder := Some(k.s.current))), Holding(l)))
  {
    hide Good, Depth;
    Expect(k, l, k.s.current);
    InsideGood(k, At(WithLock(k, l, k.locks[l].(holder := Some(k.s.current))), Holding(l)), l);
  }

  lemma SetRepeatGood(k: Kernel, l: Lid)
    requires Good(k) && Enabled(k, SetRepeat) && k.pc[k.s.current] == Holding(l)
    ensures k.locks[l].repeat == 0
    ensures Good(WithDepth(At(WithLock(k, l, k.locks[l].(repeat := 1)), Free), l, 1))
  {
    hide Good;
    Expect(k, l, k.s.current);
    InsideGood(k, WithDepth(At(WithLock(k, l, k.locks[l].(repeat := 1)), Free), l, 1), l);
  }

  lemma ReleaseGood(k: Kernel, l: Lid)
    requires Good(k) && Enabled(k, Release(l))
    ensures k.locks[l].holder == Some(k.s.current) && k.locks[l].repeat == Depth(k.depth, k.s.current, l)
    ensures Step(k, Release(l)).Done? && Good(Step(k, Release(l)).value)
  {
    hide Good;
    Expect(k, l, k.s.current);
    InsideGood(k, Step(k, Release(l)).value, l);
  }

  lemma ClearRepeatGood(k: Kernel, l: Lid)
    requires Good(k) && Enabled(k, ClearRepeat) && k.pc[k.s.current] == Leaving(l)
    ensures Good(At(WithLock(k, l, k.locks[l].(repeat := 0)), Raising(l)))
  {
    hide Good, Depth;
    Expect(k, l, k.s.current);
    InsideGood(k, At(WithLock(k, l, k.locks[l].(repeat := 0)), Raising(l)), l);
  }

  /** A step that concerns no lock: only the scheduler, and the place of a thread outside all locks. */
  ghost predicate Elsewhere(k: Kernel, k1: Kernel) {
    && k1.locks == k.locks && k1.inside == k.inside && k1.depth == k.depth
    && k.pc.Keys == k.s.threads.Keys && k1.pc.Keys == k1.s.threads.Keys && k.pc.Keys <= k1.pc.Keys
    && (forall t :: t in k.pc && k1.pc[t] != k.pc[t] ==>
          (k.pc[t] == Free || k.pc[t] == Parked) && (k1.pc[t] == Free || k1.pc[t] == Parked))
    && (forall t :: t in k1.pc && t !in k.pc ==> k1.pc[t] == Free)
    && forall t :: t in k.pc && k.pc[t].Sleeping? ==>
         (Stopped(k1.s.threads[t].status) <==> Stopped(k.s.threads[t].status))
  }

  lemma ElsewhereIsAside(k: Kernel, k1: Kernel, l: Lid)
    requires ThreadsOk(k) && ThreadsOk(k1) && Elsewhere(k, k1) && l in k.locks
    ensures Aside(k, k1, l)
  {
    hide Inv;
  }

  lemma ElsewhereGood(k: Kernel, k1: Kernel)
    requires Good(k) && ThreadsOk(k1) && Elsewhere(k, k1)
    ensures Good(k1)
  {
    hide ThreadsOk, LockOk, Aside;
    assert k1.locks == k.locks;
    forall l | l in k1.locks ensures LockOk(k1, l) {
      ElsewhereIsAside(k, k1, l);
      AsideOk(k, k1, l);
    }
  }

  lemma SwitchGood(k: Kernel, s1: State)
    requires Good(k) && Inv(s1) && Switched(k.s, s1)
    ensures Good(k.(s := s1))
  {
    hide Inv, Distinct, LockOk;
    ElsewhereGood(k, k.(s := s1));
  }

  /** Thread `t` has blocked itself and somebody else runs. */
  ghost predicate Blocking(s: State, s1: State, t: Tid) {
    && t in s.threads && s1.threads.Keys == s.threads.Keys && s1.idle == s.idle
    && (forall x :: x in s.threads && x != t && Stopped(s1.threads[x].status) ==> Stopped(s.threads[x].status))
    && (forall x :: x in s.threads && x != t && x != s.idle && Stopped(s.threads[x].status) ==>
          Stopped(s1.threads[x].status))
    && (t != s.idle ==> Stopped(s1.threads[t].status))
  }

  lemma BlockSwitches(s: State, st: Status)
    requires Inv(s) && Stopped(st)
    ensures BlockSelf(s, st).Done? && Inv(BlockSelf(s, st).value) && Blocking(s, BlockSelf(s, st).value, s.current)
  {
    hide ListOk, Reschedule;
    RunningNow(s);
    BlockOk(s, st);
  }

  lemma ParkThreads(k: Kernel, s1: State)
    requires ThreadsOk(k) && k.s.current in k.pc && k.pc[k.s.current] == Free && Inv(s1)
    requires Blocking(k.s, s1, k.s.current)
    ensures ThreadsOk(At(k, Parked).(s := s1)) && Elsewhere(k, At(k, Parked).(s := s1))
  {
    hide Inv, Stopped;
  }

  lemma ParkGood(k: Kernel, s1: State)
    requires Good(k) && k.s.current in k.pc && k.pc[k.s.current] == Free
    requires Inv(s1) && Blocking(k.s, s1, k.s.current)
    ensures Good(At(k, Parked).(s := s1))
  {
    hide Inv, LockOk, Elsewhere, Blocking;
    ParkThreads(k, s1);
    hide ThreadsOk;
    ElsewhereGood(k, At(k, Parked).(s := s1));
  }

  lemma Unblocked(s: State, t: Tid)
    requires Inv(s) && t in s.threads && Stopped(s.threads[t].status)
    ensures Unblock(s, t).Done? && Inv(Unblock(s, t).value) && Unblock(s, t).value.idle == s.idle
    ensures Unblock(s, t).value.threads == s.threads[t := s.threads[t].(status := Ready)]
  {
    hide ListOk;
    UnblockOk(s, t) by { assert ListOk(s); }
  }

  lemma UnparkThreads(k: Kernel, k1: Kernel, t: Tid)
    requires ThreadsOk(k) && t in k.pc && t in k.s.threads && k.pc[t] == Parked && Inv(k1.s)
    requires k1 == k.(s := k1.s) && k1.s.idle == k.s.idle
    requires k1.s.threads == k.s.threads[t := k.s.threads[t].(status := Ready)]
    ensures ThreadsOk(k1) && Elsewhere(k, k1)
  {
    hide Inv;
  }

  lemma UnparkGood(k: Kernel, t: Tid)
    requires Good(k) && Enabled(k, Unpark(t))
    ensures Step(k, Unpark(t)).Done? && Good(Step(k, Unpark(t)).value)
  {
    hide Inv, LockOk, Elsewhere, Unblock;
    Unblocked(k.s, t);
    UnparkThreads(k, Step(k, Unpark(t)).value, t);
    hide ThreadsOk;
    ElsewhereGood(k, Step(k, Unpark(t)).value);
  }

  lemma ResumeGood(k: Kernel)
    requires Good(k) && Enabled(k, Resume)
    ensures Good(At(k, Free))
  {
    hide Inv, LockOk, Elsewhere;
    ResumeThreads(k);
    hide ThreadsOk;
    ElsewhereGood(k, At(k, Free));
  }

  lemma ResumeThreads(k: Kernel)
    requires ThreadsOk(k) && k.s.current in k.pc && k.pc[k.s.current] == Parked
    ensures ThreadsOk(At(k, Free)) && Elsewhere(k, At(k, Free))
  {
    hide Inv;
    RunningNow(k.s);
  }

  lemma Started(s: State, t: Tid, priority: nat)
    requires Inv(s) && t !in s.threads
    ensures Start(s, t, priority).Done? && Inv(Start(s, t, priority).value)
    ensures Start(s, t, priority).value.idle == s.idle
    ensures Start(s, t, priority).value.threads == s.threads[t := Pcb(Ready, priority, priority)]
  {
    hide Inv;
    StartOk(s, t, priority);
  }

  lemma SpawnThreads(k: Kernel, k1: Kernel, t: Tid, pcb: Pcb)
    requires ThreadsOk(k) && t !in k.pc && Inv(k1.s) && pcb.status == Ready
    requires k1 == k.(pc := k.pc[t := Free], s := k1.s) && k1.s.idle == k.s.idle
    requires k1.s.threads == k.s.threads[t := pcb]
    ensures ThreadsOk(k1) && Elsewhere(k, k1)
  {
    hide Inv;
    RunningNow(k.s);
    assert Elsewhere(k, k1);
    hide Elsewhere;
    assert ThreadsOk(k1);
  }

  lemma SpawnGood(k: Kernel, t: Tid, priority: nat)
    requires Good(k) && Enabled(k, Spawn(t, priority))
    ensures Step(k, Spawn(t, priority)).Done? && Good(Step(k, Spawn(t, priority)).value)
  {
    hide Inv, LockOk, Elsewhere, Start;
    Started(k.s, t, priority);
    SpawnThreads(k, Step(k, Spawn(t, priority)).value, t, Pcb(Ready, priority, priority));
    hide ThreadsOk;
    ElsewhereGood(k, Step(k, Spawn(t, priority)).value);
  }

  /** sema_down on a taken semaphore: the thread queues up and another one gets the processor. */
  lemma SleepGood(k: Kernel, k1: Kernel, l: Lid)
    requires Good(k) && k.s.current in k.pc && (k.pc[k.s.current] == Entering(l) || k.pc[k.s.current] == Sleeping(l))
    requires l in k.locks && k.locks[l].value == 0 && Inv(k1.s) && Blocking(k.s, k1.s, k.s.current)
    requires k1
          == At(WithLock(k, l, k.locks[l].(waiters := k.locks[l].waiters + [k.s.current])), Sleeping(l)).(s := k1.s)
    ensures k.s.current !in k.locks[l].waiters && Good(k1)
  {
    hide Inv, Distinct, LockOk, Stopped;
    NotYetWaiting(k, l);
    SleptOk(k, k1, l);
    SleptThreads(k, k1, l);
    forall m | m in k1.locks && m != l ensures LockOk(k1, m) {
      AsideOk(k, k1, m);
    }
  }

  lemma NotYetWaiting(k: Kernel, l: Lid)
    requires Good(k) && k.s.current in k.pc && l in k.locks && About(k.pc[k.s.current], l)
    ensures k.s.current !in k.locks[l].waiters && k.s.current != k.s.idle
  {
    hide Inv, Distinct, WakeOk, InsideOk, OthersOutside;
    RunningNow(k.s);
    NotIdle(k, l, k.s.current);
    assert LockOk(k, l);
  }

  lemma SleptThreads(k: Kernel, k1: Kernel, l: Lid)
    requires ThreadsOk(k) && k.s.current in k.pc && k.s.current != k.s.idle && l in k.locks
    requires Inv(k1.s) && Blocking(k.s, k1.s, k.s.current)
    requires k1
          == At(WithLock(k, l, k.locks[l].(waiters := k.locks[l].waiters + [k.s.current])), Sleeping(l)).(s := k1.s)
    ensures ThreadsOk(k1)
  {
    hide Inv, Stopped;
  }

  lemma SleptOk(k: Kernel, k1: Kernel, l: Lid)
    requires ThreadsOk(k) && l in k.locks && k.locks[l].value == 0 && LockOk(k, l)
    requires k.s.current in k.pc && k.s.current != k.s.idle && k.s.current !in k.locks[l].waiters
    requires k.pc[k.s.current] == Entering(l) || k.pc[k.s.current] == Sleeping(l)
    requires Blocking(k.s, k1.s, k.s.current)
    requires k1
          == At(WithLock(k, l, k.locks[l].(waiters := k.locks[l].waiters + [k.s.current])), Sleeping(l)).(s := k1.s)
    ensures LockOk(k1, l)
  {
    hide Inv, Distinct, Depth, Stopped;
    assert InsideOk(k1, l);
    assert OthersOutside(k1, l);
    AppendOk(k.locks[l].waiters, k.s.current);
    SleptWaiters(k, k1, l);
  }

  lemma SleptWaiters(k: Kernel, k1: Kernel, l: Lid)
    requires ThreadsOk(k) && l in k.locks && WaitersOk(k, l) && l in k1.locks
    requires k.s.current in k.pc && k.s.current != k.s.idle && Blocking(k.s, k1.s, k.s.current)
    requires k1.locks[l].waiters == k.locks[l].waiters + [k.s.current] && Distinct(k1.locks[l].waiters)
    requires k1.pc == k.pc[k.s.current := Sleeping(l)]
    ensures WaitersOk(k1, l)
  {
    hide Inv, Distinct, Stopped;
    forall x ensures x in k1.locks[l].waiters <==>
      x in k1.pc && x in k1.s.threads && k1.pc[x] == Sleeping(l) && Stopped(k1.s.threads[x].status)
    {
      assert x in k.locks[l].waiters + [k.s.current] <==> x in k.locks[l].waiters || x == k.s.current;
    }
  }

  lemma UpThreads(k: Kernel, k1: Kernel, l: Lid, t: Tid)
    requires ThreadsOk(k) && k.s.current in k.pc && k.s.current != k.s.idle && l in k.locks && t in k.s.threads
    requires k1.pc == k.pc[k.s.current := Free] && k1.locks.Keys == k.locks.Keys && k1.depth == k.depth
    requires Unblock(k.s, t) == Done(k1.s) && Inv(k1.s)
    ensures ThreadsOk(k1)
  {
    hide Inv;
    RunningNow(k.s);
  }

  /** After sema_up nobody is inside. */
  lemma NobodyInside(k: Kernel, k1: Kernel, l: Lid)
    requires Good(k) && k.s.current in k.pc && k.pc[k.s.current] == Raising(l) && l in k.locks && l in k1.locks
    requires k1.pc == k.pc[k.s.current := Free] && k1.inside == k.inside - {l} && k1.depth == k.depth
    requires k1.locks[l].holder == k.locks[l].holder && k1.locks[l].repeat == k.locks[l].repeat
    requires k1.locks[l].value == 1
    ensures InsideOk(k1, l) && OthersOutside(k1, l)
  {
    hide Inv, Distinct, Depth, WaitersOk, WakeOk;
    assert LockOk(k, l);
    Expect(k, l, k.s.current);
    forall x | x in k1.pc ensures Outside(k1, l, x) {
      if x != k.s.current {
        assert Outside(k, l, x);
      }
    }
  }

  /** sema_up with waiters: the first one is woken and will find the semaphore free, or find that
      somebody else was quicker. */
  lemma WakeGood(k: Kernel, k1: Kernel, l: Lid, t: Tid)
    requires Good(k) && k.s.current in k.pc && k.pc[k.s.current] == Raising(l)
    requires l in k.locks && k.locks[l].waiters != [] && t == k.locks[l].waiters[0] && t in k.s.threads
    requires Unblock(k.s, t) == Done(k1.s) && Inv(k1.s)
    requires k1
          == At(WithLock(k, l, k.locks[l].(value := 1, waiters := k.locks[l].waiters[1..])), Free)
             .(inside := k.inside - {l}, s := k1.s)
    ensures Good(k1)
  {
    hide Inv, Distinct, LockOk, InsideOk, OthersOutside, WaitersOk, WakeOk;
    NotIdle(k, l, k.s.current);
    UpThreads(k, k1, l, t);
    NobodyInside(k, k1, l);
    WokenWaiters(k, k1, l, t);
    WokenWakes(k1, l, t);
    forall m | m in k1.locks && m != l ensures LockOk(k1, m) {
      AsideOk(k, k1, m);
    }
  }

  lemma WokenWakes(k1: Kernel, l: Lid, t: Tid)
    requires l in k1.locks && Woken(k1, l, t) && InsideOk(k1, l) && OthersOutside(k1, l) && WaitersOk(k1, l)
    ensures LockOk(k1, l)
  {
  }

  lemma WokenWaiters(k: Kernel, k1: Kernel, l: Lid, t: Tid)
    requires ThreadsOk(k) && l in k.locks && LockOk(k, l) && k.locks[l].waiters != [] && t == k.locks[l].waiters[0]
    requires k.s.current in k.pc && k.pc[k.s.current] == Raising(l) && t in k.s.threads && Unblock(k.s, t) == Done(k1.s)
    requires l in k1.locks && k1.locks[l].waiters == k.locks[l].waiters[1..] && k1.pc == k.pc[k.s.current := Free]
    ensures WaitersOk(k1, l) && Woken(k1, l, t) && k.pc[t] == Sleeping(l)
  {
    hide Inv, InsideOk, OthersOutside, WakeOk;
    var ws := k.locks[l].waiters;
    assert t in ws;
    forall x ensures x in ws[1..] <==> x in ws && x != t {
      assert ws == [t] + ws[1..];
    }
  }

  /** sema_up without waiters. */
  lemma UpGood(k: Kernel, k1: Kernel, l: Lid)
    requires Good(k) && k.s.current in k.pc && k.pc[k.s.current] == Raising(l) && l in k.locks
    requires k.locks[l].waiters == []
    requires k1 == At(WithLock(k, l, k.locks[l].(value := 1)), Free).(inside := k.inside - {l})
    ensures Good(k1)
  {
    hide Inv, Distinct, WaitersOk, InsideOk, OthersOutside, Depth;
    NotIdle(k, l, k.s.current);
    assert LockOk(k, l);
    assert Local(k, k1, l);
    SameWaiters(k, k1, l);
    NobodyInside(k, k1, l);
    assert LockOk(k1, l);
    hide Local, LockOk;
    LocalGood(k, k1, l);
  }

  lemma TestGood(k: Kernel, l: Lid)
    requires Good(k) && k.s.current in k.pc && (k.pc[k.s.current] == Entering(l) || k.pc[k.s.current] == Sleeping(l))
    requires k.s.current in k.s.threads && k.s.idle in k.s.threads && l in k.locks
    ensures TestStep(k, l).Done? && Good(TestStep(k, l).value)
  {
    hide Inv, LockOk, BlockSelf, Blocking;
    if k.locks[l].value != 0 {
      TakeGood(k, l);
    } else {
      BlockSwitches(k.s, Blocked);
      var s1 := BlockSelf(k.s, Blocked).value;
      SleepGood(k,
                At(WithLock(k, l, k.locks[l].(waiters := k.locks[l].waiters + [k.s.current])), Sleeping(l)).(s := s1),
                l);
    }
  }

  lemma UpStepGood(k: Kernel, l: Lid)
    requires Good(k) && k.s.current in k.pc && k.pc[k.s.current] == Raising(l) && l in k.locks
    ensures UpStep(k, l).Done? && Good(UpStep(k, l).value)
  {
    hide Inv, LockOk, Unblock, ListOk;
    Expect(k, l, k.s.current);
    if k.locks[l].waiters == [] {
      UpGood(k, UpStep(k, l).value, l);
    } else {
      var t := k.locks[l].waiters[0];
      FirstWaiter(k, l);
      GoodThreads(k);
      UnblockOk(k.s, t);
      WakeGood(k, UpStep(k, l).value, l, t);
    }
  }

  lemma FirstWaiter(k: Kernel, l: Lid)
    requires Good(k) && l in k.locks && k.locks[l].waiters != []
    ensures k.locks[l].waiters[0] in k.s.threads && Stopped(k.s.threads[k.locks[l].waiters[0]].status)
  {
    hide Inv, InsideOk, OthersOutside, WakeOk;
    assert LockOk(k, l);
    assert k.locks[l].waiters[0] in k.locks[l].waiters;
  }

  /** No ASSERT fails, and every step keeps all of the above. */
  lemma StepGood(k: Kernel, a: Action)
    requires Good(k) && Enabled(k, a)
    ensures Step(k, a).Done? && Good(Step(k, a).value)
  {
    hide Good, Inv, Tick, Yield, BlockSelf, TestStep, UpStep, Blocking, Switched;
    match a
    case Acquire(l) =>
      if k.locks[l].holder != Some(k.s.current) { EnterGood(k, l); } else { NestGood(k, l); }
    case TestSemaphore => TestGood(k, k.pc[k.s.current].l);
    case SetHolder => SetHolderGood(k, k.pc[k.s.current].l);
    case SetRepeat => SetRepeatGood(k, k.pc[k.s.current].l);
    case Release(l) => ReleaseGood(k, l);
    case ClearRepeat => ClearRepeatGood(k, k.pc[k.s.current].l);
    case Up => UpStepGood(k, k.pc[k.s.current].l);
    case Preempt =>
      GoodThreads(k);
      TickOk(k.s);
      SwitchGood(k, Tick(k.s).value);
    case YieldCpu =>
      GoodThreads(k);
      YieldOk(k.s);
      SwitchGood(k, Yield(k.s).value);
    case Park(st) =>
      GoodThreads(k);
      BlockSwitches(k.s, st);
      ParkGood(k, BlockSelf(k.s, st).value);
    case Unpark(t) => UnparkGood(k, t);
    case Resume => ResumeGood(k);
    case Spawn(t, priority) => SpawnGood(k, t, priority);
  }

  lemma GoodThreads(k: Kernel)
    requires Good(k)
    ensures Inv(k.s) && ListOk(k.s)
  {
  }

  /** A run: every action is one the code allows in the state before it. */
  ghost predicate Execution(states: seq<Kernel>, actions: seq<Action>) {
    |states| == |actions| + 1 && forall i :: 0 <= i < |actions| ==>
      Enabled(states[i], actions[i]) && Step(states[i], actions[i]) == Done(states[i + 1])
  }

  /** The kernel after thread_init and lock_init: main runs, idle is ready, every lock is free. */
  ghost predicate Initial(k: Kernel) {
    && k.s.current != k.s.idle && k.s.ready == [k.s.idle]
    && k.s.threads == map[k.s.current := Pcb(Running, 31, 31), k.s.idle := Pcb(Ready, 10, 10)]
    && k.pc == map[k.s.current := Free, k.s.idle := Free] && k.inside == map[] && k.depth == map[]
    && forall l :: l in k.locks ==> k.locks[l] == Lock(1, [], None, 0)
  }

  /** All of the above holds in every state of every run, with any number of threads and locks. */
  lemma {:induction false} RunsAreGood(states: seq<Kernel>, actions: seq<Action>, i: nat)
    requires Execution(states, actions) && Initial(states[0]) && i < |states|
    ensures Good(states[i])
  {
    hide Good, Step, Enabled;
    if i == 0 {
      InitialGood(states[0]);
    } else {
      RunsAreGood(states, actions, i - 1);
      StepGood(states[i - 1], actions[i - 1]);
    }
  }

  lemma InitialGood(k: Kernel)
    requires Initial(k)
    ensures Good(k)
  {
    forall l | l in k.locks ensures LockOk(k, l) {
      assert Distinct([]);
    }
  }
}
