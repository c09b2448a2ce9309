/** thread/c14c_thread.c and device/c13c_timer.c: the ready list, thread states and time slices. */
module Sched {
  import opened Debug

  type Tid = nat  // a thread's PCB

  datatype Status = Running | Ready | Blocked | Waiting | Hanging

  datatype Pcb = Pcb(status: Status, priority: nat, ticks: nat)

  datatype State = State(current: Tid, idle: Tid, threads: map<Tid, Pcb>, ready: seq<Tid>)

  predicate Stopped(st: Status) {
    st == Blocked || st == Waiting || st == Hanging
  }

  function WithStatus(s: State, t: Tid, st: Status): State
    requires t in s.threads
  {
    s.(threads := s.threads[t := s.threads[t].(status := st)])
  }

  /** thread_unblock: the thread goes to the front of the ready list. */
  function Unblock(s: State, t: Tid): Run<State>
    requires t in s.threads
  {
    if !Stopped(s.threads[t].status) || t in s.ready then Halted
    else Done(WithStatus(s, t, Ready).(ready := [t] + s.ready))
  }

  /** The first part of schedule: a thread whose slice is over goes to the end of the ready list. */
  function Requeue(s: State): Run<State>
    requires s.current in s.threads
  {
    var pcb := s.threads[s.current];
    if pcb.status != Running then Done(s)
    else if s.current in s.ready then Halted
    else Done(s.(threads := s.threads[s.current := Pcb(Ready, pcb.priority, pcb.priority)],
                 ready := s.ready + [s.current]))
  }

  /** Its second part: with nobody ready, idle is woken. */
  function WakeIdle(s: State): Run<State>
    requires s.idle in s.threads
  {
    if s.ready == [] then Unblock(s, s.idle) else Done(s)
  }

  /** Its third part: the first thread of the list gets the processor. */
  function Dispatch(s: State): Run<State> {
    if s.ready == [] || s.ready[0] !in s.threads then Halted
    else Done(WithStatus(s, s.ready[0], Running).(ready := s.ready[1..], current := s.ready[0]))
  }

  /** schedule */
  function Reschedule(s: State): Run<State>
    requires s.current in s.threads && s.idle in s.threads
  {
    match Requeue(s)
    case Halted => Halted
    case Done(s1) =>
      match WakeIdle(s1)
      case Halted => Halted
      case Done(s2) => Dispatch(s2)
  }

  /** thread_block */
  function BlockSelf(s: State, st: Status): Run<State>
    requires s.current in s.threads && s.idle in s.threads
  {
    if !Stopped(st) then Halted else Reschedule(WithStatus(s, s.current, st))
  }

  /** thread_yield */
  function Yield(s: State): Run<State>
    requires s.current in s.threads && s.idle in s.threads
  {
    if s.current in s.ready then Halted
    else Reschedule(WithStatus(s, s.current, Ready).(ready := s.ready + [s.current]))
  }

  /** intr_timer_handler */
  function Tick(s: State): Run<State>
    requires s.current in s.threads && s.idle in s.threads
  {
    var pcb := s.threads[s.current];
    if pcb.ticks == 0 then Reschedule(s)
    else Done(s.(threads := s.threads[s.current := pcb.(ticks := pcb.ticks - 1)]))
  }

  /** thread_start, once its PCB is made. */
  function Start(s: State, t: Tid, priority: nat): Run<State> {
    if t in s.ready then Halted
    else Done(s.(threads := s.threads[t := Pcb(Ready, priority, priority)], ready := s.ready + [t]))
  }

  ghost predicate Distinct(list: seq<Tid>) {
    forall i, j :: 0 <= i < j < |list| ==> list[i] != list[j]
  }

  /** The part of the invariant that also holds inside schedule: a thread is READY exactly when it is on
      the ready list, once. */
  ghost predicate ListOk(s: State) {
    && s.current in s.threads && s.idle in s.threads && Distinct(s.ready)
    && (forall t :: t in s.ready ==> t in s.threads)
    && (forall t :: t in s.threads ==> (t in s.ready <==> s.threads[t].status == Ready))
    && forall t :: t in s.threads ==> s.threads[t].ticks <= s.threads[t].priority
  }

  /** Exactly the current thread is running. */
  ghost predicate Inv(s: State) {
    ListOk(s) && forall t :: t in s.threads ==> (s.threads[t].status == Running <==> t == s.current)
  }

  /** What a switch leaves of everybody else: who is stopped stays stopped, but for idle, and who can run
      still can. */
  ghost predicate Switched(s: State, s1: State) {
    && s1.threads.Keys == s.threads.Keys && s1.idle == s.idle
    && (forall t :: t in s.threads && Stopped(s.threads[t].status) && t != s.idle ==> s1.threads[t] == s.threads[t])
    && forall t :: t in s.threads && !Stopped(s.threads[t].status) ==> !Stopped(s1.threads[t].status)
  }

  ghost predicate NobodyRuns(s: State) {
    forall t :: t in s.threads ==> s.threads[t].status != Running
  }

  lemma AppendOk(list: seq<Tid>, t: Tid)
    requires Distinct(list) && t !in list
    ensures Distinct(list + [t]) && Distinct([t] + list)
    ensures forall x :: x in list + [t] <==> x in list || x == t
  {
  }

  lemma UnblockOk(s: State, t: Tid)
    requires ListOk(s) && t in s.threads && Stopped(s.threads[t].status)
    ensures Unblock(s, t).Done? && ListOk(Unblock(s, t).value)
    ensures Inv(s) ==> Inv(Unblock(s, t).value)
  {
    hide Distinct;
    AppendOk(s.ready, t);
    assert forall x :: x in [t] + s.ready <==> x in s.ready || x == t;
  }

  /** The thread is first in line, with the time it had left, and nobody else has changed. */
  ghost predicate FirstInLine(s: State, t: Tid, s1: State) {
    && t in s.threads && s1.current == s.current && s1.idle == s.idle && s1.ready == [t] + s.ready
    && s1.threads == s.threads[t := Pcb(Ready, s.threads[t].priority, s.threads[t].ticks)]
  }

  /** thread_unblock puts the woken thread in front of all others, and the next schedule gives it the
      processor; those who were ready follow in their order. */
  lemma WokenRuns(s: State, t: Tid)
    requires Inv(s) && t in s.threads && Stopped(s.threads[t].status)
    ensures Unblock(s, t).Done? && FirstInLine(s, t, Unblock(s, t).value)
    ensures var s1 := Unblock(s, t).value;
      && s1.current in s1.threads && s1.idle in s1.threads && Reschedule(s1).Done?
      && Reschedule(s1).value.current == t && Reschedule(s1).value.ready == s.ready + [s.current]
  {
    hide Reschedule, Distinct;
    UnblockOk(s, t);
    var s1 := Unblock(s, t).value;
    RescheduleOk(s1);
    TakesNext(s1);
    assert [t] + Reschedule(s1).value.ready == [t] + s.ready + [s.current] == [t] + (s.ready + [s.current]);
    assert ([t] + Reschedule(s1).value.ready)[1..] == ([t] + (s.ready + [s.current]))[1..];
  }

  lemma RequeueOk(s: State)
    requires ListOk(s) && forall t :: t in s.threads && t != s.current ==> s.threads[t].status != Running
    ensures Requeue(s).Done? && ListOk(Requeue(s).value) && NobodyRuns(Requeue(s).value)
    ensures Switched(s, Requeue(s).value)
  {
    hide Distinct;
    if s.threads[s.current].status == Running {
      AppendOk(s.ready, s.current);
    }
  }

  lemma WakeIdleOk(s: State)
    requires ListOk(s) && NobodyRuns(s)
    ensures WakeIdle(s).Done? && ListOk(WakeIdle(s).value) && NobodyRuns(WakeIdle(s).value)
    ensures WakeIdle(s).value.ready != []
    ensures Switched(s, WakeIdle(s).value)
  {
    if s.ready == [] {
      UnblockOk(s, s.idle);
    }
  }

  lemma DispatchOk(s: State)
    requires ListOk(s) && NobodyRuns(s) && s.ready != []
    ensures Dispatch(s).Done? && Inv(Dispatch(s).value) && Switched(s, Dispatch(s).value)
  {
    var t0 := s.ready[0];
    forall t ensures t in s.ready[1..] <==> t in s.ready && t != t0 {
      assert s.ready == [t0] + s.ready[1..];
    }
  }

  lemma Members(s: State)
    requires ListOk(s)
    ensures s.current in s.threads && s.idle in s.threads && forall t :: t in s.ready ==> t in s.threads
  {
  }

  /** schedule works whenever at most the current thread runs: with nobody ready, idle is blocked. */
  lemma RescheduleOk(s: State)
    requires ListOk(s) && forall t :: t in s.threads && t != s.current ==> s.threads[t].status != Running
    ensures Reschedule(s).Done? && Inv(Reschedule(s).value) && Switched(s, Reschedule(s).value)
  {
    hide Requeue, WakeIdle, Dispatch, ListOk, NobodyRuns;
    Members(s);
    RequeueOk(s);
    WakeIdleOk(Requeue(s).value);
    DispatchOk(WakeIdle(Requeue(s).value).value);
  }

  /** Nobody but the current thread is running, and that one perhaps not either. */
  ghost predicate AtMostCurrentRuns(s: State) {
    ListOk(s) && forall t :: t in s.threads && t != s.current ==> s.threads[t].status != Running
  }

  /** Whose turn it is: those who were ready, in their order, then the current thread if it only ran out of
      time, and idle when there is nobody. */
  function Queue(s: State): seq<Tid>
    requires s.current in s.threads
  {
    if s.threads[s.current].status == Running then s.ready + [s.current]
    else if s.ready == [] then [s.idle]
    else s.ready
  }

  /** A thread as its turn ends: whose time is up is ready again with a full slice, and nobody else has changed. */
  function Aged(s: State, t: Tid): Pcb
    requires s.current in s.threads && t in s.threads
  {
    var pcb := s.threads[t];
    if t == s.current && pcb.status == Running then Pcb(Ready, pcb.priority, pcb.priority) else pcb
  }

  /** The first in line has the processor and the others are still in line. */
  ghost predicate NextInLine(s: State, s1: State) {
    && s.current in s.threads && s1.current in s1.threads && s1.threads.Keys == s.threads.Keys && s1.idle == s.idle
    && [s1.current] + s1.ready == Queue(s)
    && forall t :: t in s.threads ==>
         s1.threads[t] == if t == s1.current then Aged(s, t).(status := Running) else Aged(s, t)
  }

  /** The line before the first one is taken off it. */
  ghost predicate InLine(s: State, s2: State) {
    && s.current in s.threads && s2.threads.Keys == s.threads.Keys && s2.idle == s.idle && s2.ready == Queue(s)
    && forall t :: t in s.threads ==>
         && s2.threads[t].(status := Running) == Aged(s, t).(status := Running)
         && (t !in s2.ready[..1] ==> s2.threads[t] == Aged(s, t))
  }

  lemma LinesUp(s: State)
    requires AtMostCurrentRuns(s)
    ensures Requeue(s).Done? && Requeue(s).value.idle in Requeue(s).value.threads && WakeIdle(Requeue(s).value).Done?
    ensures InLine(s, WakeIdle(Requeue(s).value).value)
  {
    hide Distinct, Switched;
    RequeueOk(s);
    WakeIdleOk(Requeue(s).value);
  }

  lemma FirstLeaves(s: State, s2: State)
    requires InLine(s, s2) && Dispatch(s2).Done?
    ensures NextInLine(s, Dispatch(s2).value)
  {
    assert [s2.ready[0]] + s2.ready[1..] == s2.ready && s2.ready[..1] == [s2.ready[0]];
  }

  lemma TakesNext(s: State)
    requires AtMostCurrentRuns(s) && s.current in s.threads && s.idle in s.threads && Reschedule(s).Done?
    ensures NextInLine(s, Reschedule(s).value)
  {
    hide AtMostCurrentRuns, Requeue, WakeIdle, Dispatch, InLine, NextInLine;
    LinesUp(s);
    FirstLeaves(s, WakeIdle(Requeue(s).value).value);
  }

  /** thread_block never fails an ASSERT; unless it is idle, the caller stays blocked. */
  lemma BlockOk(s: State, st: Status)
    requires Inv(s) && Stopped(st)
    ensures BlockSelf(s, st).Done? && Inv(BlockSelf(s, st).value)
    ensures Switched(WithStatus(s, s.current, st), BlockSelf(s, st).value)
  {
    RescheduleOk(WithStatus(s, s.current, st));
  }

  lemma YieldMiddle(s: State)
    requires Inv(s)
    ensures s.current in s.threads && s.idle in s.threads
    ensures var s0 := WithStatus(s, s.current, Ready).(ready := s.ready + [s.current]);
      ListOk(s0) && forall t :: t in s0.threads && t != s0.current ==> s0.threads[t].status != Running
    ensures s.current !in s.ready && (s.ready + [s.current])[..|s.ready|] == s.ready
  {
    hide Distinct;
    AppendOk(s.ready, s.current);
  }

  lemma YieldOk(s: State)
    requires Inv(s)
    ensures Yield(s).Done? && Inv(Yield(s).value) && Switched(s, Yield(s).value)
  {
    hide Inv, Distinct, Reschedule, ListOk;
    YieldMiddle(s);
    RescheduleOk(WithStatus(s, s.current, Ready).(ready := s.ready + [s.current]));
    YieldSwitches(s);
  }

  /** The caller went to the end of the line with the time it had left, and the first one runs. */
  ghost predicate GaveWay(s: State, s1: State) {
    && s.current in s.threads && s1.threads.Keys == s.threads.Keys && s1.idle == s.idle
    && [s1.current] + s1.ready == s.ready + [s.current]
    && forall t :: t in s.threads ==>
         && s1.threads[t].priority == s.threads[t].priority && s1.threads[t].ticks == s.threads[t].ticks
         && s1.threads[t].status == if t == s1.current then Running else if t == s.current then Ready
                                    else s.threads[t].status
  }

  lemma YieldGives(s: State)
    requires Inv(s)
    ensures Yield(s).Done? && GaveWay(s, Yield(s).value)
  {
    hide Inv, Distinct, Reschedule, ListOk;
    YieldMiddle(s);
    var s0 := WithStatus(s, s.current, Ready).(ready := s.ready + [s.current]);
    RescheduleOk(s0);
    assert AtMostCurrentRuns(s0);
    TakesNext(s0);
    YieldSwitches(s);
    YieldStatus(s, Yield(s).value);
  }

  lemma YieldStatus(s: State, s1: State)
    requires Inv(s) && Inv(s1)
    requires NextInLine(WithStatus(s, s.current, Ready).(ready := s.ready + [s.current]), s1)
    ensures GaveWay(s, s1)
  {
    hide Distinct;
    forall t | t in s.ready + [s.current] ensures t == s1.current || t in s1.ready {
      assert t in [s1.current] + s1.ready;
    }
  }

  lemma YieldSwitches(s: State)
    requires Inv(s)
    ensures s.current in s.threads && s.idle in s.threads
    ensures Yield(s) == Reschedule(WithStatus(s, s.current, Ready).(ready := s.ready + [s.current]))
    ensures forall s1 :: Switched(WithStatus(s, s.current, Ready).(ready := s.ready + [s.current]), s1) ==>
      Switched(s, s1)
  {
    hide Reschedule, Distinct;
  }

  /** A tick takes one from the slice of the running thread, or its slice is over. */
  ghost predicate Ticked(s: State, s1: State) {
    && s.current in s.threads
    && if s.threads[s.current].ticks > 0 then
         && s1.current == s.current && s1.idle == s.idle && s1.ready == s.ready
         && s1.threads.Keys == s.threads.Keys
         && (forall t :: t in s.threads && t != s.current ==> s1.threads[t] == s.threads[t])
         && s1.threads[s.current] == Pcb(Running, s.threads[s.current].priority, s.threads[s.current].ticks - 1)
       else NextInLine(s, s1)
  }

  lemma TickTakes(s: State)
    requires Inv(s)
    ensures Tick(s).Done? && Ticked(s, Tick(s).value)
  {
    hide Distinct, Reschedule, NextInLine;
    TickOk(s);
    if s.threads[s.current].ticks == 0 {
      TakesNext(s);
    }
  }

  /** thread_block: the caller keeps the status it asked for and leaves the line, unless it is idle and there is
      nobody else; the next in line runs. */
  lemma BlockLeaves(s: State, st: Status)
    requires Inv(s) && Stopped(st)
    ensures BlockSelf(s, st).Done? && NextInLine(WithStatus(s, s.current, st), BlockSelf(s, st).value)
    ensures var s1 := BlockSelf(s, st).value;
      && [s1.current] + s1.ready == (if s.ready == [] then [s.idle] else s.ready)
      && (s.current != s1.current ==> s.current in s1.threads && s1.threads[s.current].status == st)
  {
    hide Reschedule, Distinct;
    BlockMiddle(s, st);
    BlockOk(s, st);
    TakesNext(WithStatus(s, s.current, st));
    assert s.current == s.idle ==> s.idle !in s.ready;
  }

  lemma TickOk(s: State)
    requires Inv(s)
    ensures Tick(s).Done? && Inv(Tick(s).value) && Switched(s, Tick(s).value)
  {
    hide Distinct, Reschedule;
    if s.threads[s.current].ticks == 0 {
      RescheduleOk(s);
    }
  }

  lemma StartOk(s: State, t: Tid, priority: nat)
    requires Inv(s) && t !in s.threads
    ensures Start(s, t, priority).Done? && Inv(Start(s, t, priority).value)
  {
    hide Distinct;
    AppendOk(s.ready, t);
  }

  /** The timer ticks the threads of `list` may use up one after another. */
  function Slices(threads: map<Tid, Pcb>, list: seq<Tid>): nat {
    if list == [] then 0
    else (if list[0] in threads then threads[list[0]].ticks + 1 else 0) + Slices(threads, list[1..])
  }

  /** The ticks until the thread at index `k` of the ready list must have been on the processor. */
  function Wait(s: State, k: nat): nat
    requires s.current in s.threads && k <= |s.ready|
  {
    s.threads[s.current].ticks + 1 + Slices(s.threads, s.ready[..k])
  }

  datatype Event = TimerTick | Yielded | BlockedSelf(st: Status) | Started(t: Tid, priority: nat)

  /** What can happen while no thread is unblocked. */
  function Apply(s: State, e: Event): Run<State>
    requires s.current in s.threads && s.idle in s.threads
  {
    match e
    case TimerTick => Tick(s)
    case Yielded => Yield(s)
    case BlockedSelf(st) => BlockSelf(s, st)
    case Started(t, priority) => if t in s.threads then Halted else Start(s, t, priority)
  }

  lemma SlicesSame(threads: map<Tid, Pcb>, threads1: map<Tid, Pcb>, list: seq<Tid>)
    requires forall t :: t in list ==> t in threads && t in threads1 && threads1[t].ticks == threads[t].ticks
    ensures Slices(threads1, list) == Slices(threads, list)
  {
  }

  /** The head of the list takes over. */
  lemma Advanced(s: State, s1: State, k: nat)
    requires Inv(s) && Inv(s1) && k < |s.ready| && s1.current == s.ready[0]
    requires |s1.ready| >= |s.ready| - 1 && s1.ready[..|s.ready| - 1] == s.ready[1..]
    requires forall t :: t in s.ready ==> t in s1.threads && s1.threads[t].ticks == s.threads[t].ticks
    ensures k == 0 ==> s1.current == s.ready[k]
    ensures k > 0 ==> s1.ready[k - 1] == s.ready[k] && Wait(s1, k - 1) == Slices(s.threads, s.ready[..k])
  {
    if k > 0 {
      assert s1.ready[k - 1] == s1.ready[..|s.ready| - 1][k - 1];
      assert s.ready[..k][1..] == s1.ready[..k - 1];
      assert forall t :: t in s1.ready[..k - 1] ==> t in s.ready;
      SlicesSame(s.threads, s1.threads, s1.ready[..k - 1]);
    }
  }

  /** With somebody ready, schedule takes the head of the list and moves nobody else. */
  lemma RescheduleShape(s: State)
    requires ListOk(s) && s.ready != []
    requires forall t :: t in s.threads && t != s.current ==> s.threads[t].status != Running
    ensures Reschedule(s).Done?
    ensures var s1 := Reschedule(s).value;
      && s1.current == s.ready[0] && |s1.ready| >= |s.ready| - 1 && s1.ready[..|s.ready| - 1] == s.ready[1..]
      && forall t :: t in s.ready ==> t in s1.threads && s1.threads[t].ticks == s.threads[t].ticks
  {
    RequeueOk(s);
    var s2 := Requeue(s).value;
    assert s2.ready[..|s.ready|] == s.ready && WakeIdle(s2) == Done(s2);
    assert s2.ready[1..][..|s.ready| - 1] == s.ready[1..];
  }

  lemma SwitchAdvances(s: State, s0: State, s1: State, k: nat)
    requires Inv(s) && Inv(s1) && k < |s.ready| && ListOk(s0) && Reschedule(s0) == Done(s1)
    requires forall t :: t in s0.threads && t != s0.current ==> s0.threads[t].status != Running
    requires |s.ready| <= |s0.ready| && s0.ready[..|s.ready|] == s.ready
    requires forall t :: t in s.ready ==> t in s0.threads && s0.threads[t].ticks == s.threads[t].ticks
    ensures k == 0 ==> s1.current == s.ready[k]
    ensures k > 0 ==> k - 1 < |s1.ready| && s1.ready[k - 1] == s.ready[k]
    ensures k > 0 ==> Wait(s1, k - 1) == Slices(s.threads, s.ready[..k])
  {
    hide ListOk, Reschedule, Distinct, Wait, Slices;
    RescheduleShape(s0);
    assert s0.ready[0] == s0.ready[..|s.ready|][0];
    assert s1.ready[..|s.ready| - 1] == s0.ready[1..][..|s.ready| - 1] == s0.ready[..|s.ready|][1..];
    forall t | t in s.ready ensures t in s0.ready {
      assert t in s0.ready[..|s.ready|];
    }
    Advanced(s, s1, k);
  }

  /** The thread at index `k` is still on the list, with at least `n` ticks less to wait. */
  ghost predicate Closer(s: State, s1: State, k: nat, n: nat)
    requires s.current in s.threads && k < |s.ready|
  {
    s1.current in s1.threads &&
    exists k1 :: 0 <= k1 < |s1.ready| && s1.ready[k1] == s.ready[k] && Wait(s1, k1) + n <= Wait(s, k)
  }

  /** Each event brings the thread at index `k` closer to the processor, each timer tick by one. */
  lemma EventAdvances(s: State, e: Event, s1: State, k: nat)
    requires Inv(s) && k < |s.ready| && Apply(s, e) == Done(s1)
    ensures Inv(s1) && s.current in s.threads
    ensures s1.current == s.ready[k] || Closer(s, s1, k, if e.TimerTick? then 1 else 0)
  {
    hide ListOk, Reschedule, Distinct, Slices;
    Members(s);
    match e
    case TimerTick =>
      TickOk(s);
      Members(s1);
      if s.threads[s.current].ticks == 0 {
        SwitchAdvances(s, s, s1, k) by { assert ListOk(s); }
      } else {
        TickCounts(s, s1, k);
      }
    case Yielded =>
      YieldOk(s);
      Members(s1);
      YieldMiddle(s);
      SwitchAdvances(s, WithStatus(s, s.current, Ready).(ready := s.ready + [s.current]), s1, k);
    case BlockedSelf(st) =>
      BlockOk(s, st);
      Members(s1);
      SwitchAdvances(s, WithStatus(s, s.current, st), s1, k) by { BlockMiddle(s, st); }
    case Started(t, priority) =>
      StartOk(s, t, priority);
      StartKeeps(s, t, priority, k);
  }

  lemma TickCounts(s: State, s1: State, k: nat)
    requires Inv(s) && k < |s.ready| && s.threads[s.current].ticks > 0 && Tick(s) == Done(s1)
    ensures s1.ready == s.ready && s1.current == s.current && s1.current in s1.threads && Wait(s1, k) + 1 == Wait(s, k)
  {
    assert s.current !in s.ready;
    SlicesSame(s.threads, s1.threads, s.ready[..k]);
  }

  lemma BlockMiddle(s: State, st: Status)
    requires Inv(s) && Stopped(st)
    ensures ListOk(WithStatus(s, s.current, st))
  {
  }

  lemma StartKeeps(s: State, t: Tid, priority: nat, k: nat)
    requires Inv(s) && t !in s.threads && k < |s.ready| && Start(s, t, priority).Done?
    ensures var s1 := Start(s, t, priority).value;
      s1.current in s1.threads && k < |s1.ready| && s1.ready[k] == s.ready[k] && Wait(s1, k) == Wait(s, k)
  {
    var s1 := Start(s, t, priority).value;
    assert s1.ready[..k] == s.ready[..k];
    SlicesSame(s.threads, s1.threads, s.ready[..k]);
  }

  /** A run without unblocking: each state follows from the one before. */
  ghost predicate Trace(states: seq<State>, events: seq<Event>) {
    && |states| == |events| + 1 && Inv(states[0])
    && forall i :: 0 <= i < |events| ==>
         && states[i].current in states[i].threads && states[i].idle in states[i].threads
         && Apply(states[i], events[i]) == Done(states[i + 1])
  }

  function TimerTicks(events: seq<Event>): nat {
    if events == [] then 0 else (if events[0].TimerTick? then 1 else 0) + TimerTicks(events[1..])
  }

  /** The round-robin bound: a ready thread that has not yet been on the processor has seen fewer timer
      ticks than the slices of the running thread and of the threads ahead of it allow. */
  lemma {:induction false} RoundRobin(states: seq<State>, events: seq<Event>, k: nat)
    requires Trace(states, events) && k < |states[0].ready|
    requires forall i :: 0 < i < |states| ==> states[i].current != states[0].ready[k]
    ensures TimerTicks(events) < Wait(states[0], k)
  {
    hide Wait, Apply, Inv, ListOk;
    if events != [] {
      assert Apply(states[0], events[0]) == Done(states[1]);
      assert states[0].current in states[0].threads;
      EventAdvances(states[0], events[0], states[1], k);
      assert Closer(states[0], states[1], k, if events[0].TimerTick? then 1 else 0);
      var k1 :| 0 <= k1 < |states[1].ready| && states[1].ready[k1] == states[0].ready[k]
        && Wait(states[1], k1) + (if events[0].TimerTick? then 1 else 0) <= Wait(states[0], k);
      forall i | 0 <= i < |events[1..]| ensures Apply(states[1..][i], events[1..][i]) == Done(states[1..][i + 1]) {
        assert Apply(states[i + 1], events[i + 1]) == Done(states[i + 2]);
      }
      RoundRobin(states[1..], events[1..], k1);
    } else {
      WaitPositive(states[0], k);
    }
  }

  lemma WaitPositive(s: State, k: nat)
    requires Inv(s) && k < |s.ready|
    ensures Wait(s, k) > 0
  {
  }

  lemma SchedulesNext(s: State)
    requires s.current in s.threads && s.idle in s.threads
    ensures AtMostCurrentRuns(s) ==>
      && Reschedule(s).Done? && Inv(Reschedule(s).value) && Switched(s, Reschedule(s).value)
      && NextInLine(s, Reschedule(s).value)
  {
    hide Reschedule, NextInLine, Inv, Switched;
    if AtMostCurrentRuns(s) {
      RescheduleOk(s);
      TakesNext(s);
    }
  }

  /** The kernel's own variables. No ASSERT in any of its methods fails, whatever the order of calls. */
  class Scheduler {
    var current: Tid
    var idle: Tid
    var threads: map<Tid, Pcb>
    var ready: seq<Tid>

    ghost function Abs(): State
      reads this
    {
      State(current, idle, threads, ready)
    }

    ghost predicate Valid()
      reads this
    {
      Inv(Abs())
    }

    /** thread_init: main runs, idle is ready. */
    constructor (main: Tid, idle: Tid)
      requires main != idle
      ensures Valid() && current == main && this.idle == idle && ready == [idle]
      ensures threads == map[main := Pcb(Running, 31, 31), idle := Pcb(Ready, 10, 10)]
    {
      current := main;
      this.idle := idle;
      threads := map[main := Pcb(Running, 31, 31), idle := Pcb(Ready, 10, 10)];
      ready := [idle];
    }

    method ThreadUnblock(t: Tid) returns (halted: bool)
      requires t in threads
      modifies this`threads, this`ready
      ensures (if halted then Halted else Done(Abs())) == Unblock(old(Abs()), t)
      ensures old(Valid()) ==> (halted <==> !Stopped(old(threads)[t].status)) && (!halted ==> Valid())
      ensures !halted ==> FirstInLine(old(Abs()), t, Abs())
    {
      if Inv(Abs()) && Stopped(threads[t].status) { UnblockOk(Abs(), t); }
      if !Stopped(threads[t].status) {  // ASSERT
        return true;
      }
      if t in ready {  // ASSERT
        return true;
      }
      ready := [t] + ready;
      threads := threads[t := threads[t].(status := Ready)];
      halted := false;
    }

    /** The next in line runs, and no ASSERT fails, whenever at most the current thread was running. */
    method Schedule() returns (halted: bool)
      requires current in threads && idle in threads
      modifies this`threads, this`ready, this`current
      ensures old(AtMostCurrentRuns(Abs())) ==> !halted && Valid() && Switched(old(Abs()), Abs())
      ensures old(AtMostCurrentRuns(Abs())) ==> NextInLine(old(Abs()), Abs())
      ensures !halted ==> Done(Abs()) == Reschedule(old(Abs()))
      ensures halted <==> Reschedule(old(Abs())).Halted?
    {
      SchedulesNext(Abs());
      if threads[current].status == Running {
        if current in ready {  // ASSERT
          return true;
        }
        ready := ready + [current];
        threads := threads[current := Pcb(Ready, threads[current].priority, threads[current].priority)];
      }
      if ready == [] {
        halted := ThreadUnblock(idle);
        if halted {
          return;
        }
      }
      if ready == [] || ready[0] !in threads {  // ASSERT
        return true;
      }
      var next := ready[0];
      ready := ready[1..];
      threads := threads[next := threads[next].(status := Running)];
      current := next;
      halted := false;
    }

    method ThreadBlock(st: Status) returns (halted: bool)
      requires Valid() && Stopped(st)
      modifies this`threads, this`ready, this`current
      ensures !halted && Valid() && Done(Abs()) == BlockSelf(old(Abs()), st)
      ensures [current] + ready == if old(ready) == [] then [idle] else old(ready)
      ensures old(current) != current ==> threads[old(current)].status == st
      ensures NextInLine(WithStatus(old(Abs()), old(current), st), Abs())
    {
      BlockOk(Abs(), st);
      BlockLeaves(Abs(), st);
      threads := threads[current := threads[current].(status := st)];
      halted := Schedule();
    }

    method ThreadYield() returns (halted: bool)
      requires Valid()
      modifies this`threads, this`ready, this`current
      ensures !halted && Valid() && Done(Abs()) == Yield(old(Abs())) && GaveWay(old(Abs()), Abs())
    {
      YieldOk(Abs());
      YieldGives(Abs());
      if current in ready {  // ASSERT
        return true;
      }
      ready := ready + [current];
      threads := threads[current := threads[current].(status := Ready)];
      halted := Schedule();
    }

    method IntrTimerHandler() returns (halted: bool)
      requires Valid()
      modifies this`threads, this`ready, this`current
      ensures !halted && Valid() && Done(Abs()) == Tick(old(Abs())) && Ticked(old(Abs()), Abs())
    {
      TickOk(Abs());
      TickTakes(Abs());
      if threads[current].ticks == 0 {
        halted := Schedule();
      } else {
        threads := threads[current := threads[current].(ticks := threads[current].ticks - 1)];
        halted := false;
      }
    }

    method ThreadStart(t: Tid, priority: nat) returns (halted: bool)
      requires Valid() && t !in threads
      modifies this`threads, this`ready
      ensures !halted && Valid() && Done(Abs()) == Start(old(Abs()), t, priority)
      ensures ready == old(ready) + [t] && threads == old(threads)[t := Pcb(Ready, priority, priority)]
    {
      StartOk(Abs(), t, priority);
      threads := threads[t := Pcb(Ready, priority, priority)];
      if t in ready {  // ASSERT
        return true;
      }
      ready := ready + [t];
      halted := false;
    }
  }
}
