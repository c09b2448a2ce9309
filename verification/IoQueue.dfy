/** device/c10f_ioqueue.c: the ring buffer, and the protocol of its putters and getters. They run with
    interrupts off and lose the processor only where they block. */
module IoQueue {
  import opened Debug
  import opened Bytes
  import opened Sched
  import opened Locks

  const SIZE := 64

  function NextPos(pos: nat): nat {
    (pos + 1) % SIZE
  }

  /** How many bytes lie between tail and head. */
  function Held(head: nat, tail: nat): (n: nat)
    requires head < SIZE && tail < SIZE
    ensures n < SIZE
  {
    if tail <= head then head - tail else head + SIZE - tail
  }

  function Slot(tail: nat, i: nat): (k: nat)
    requires tail < SIZE && i < SIZE
    ensures k < SIZE
  {
    if tail + i < SIZE then tail + i else tail + i - SIZE
  }

  /** The bytes from tail up to head. */
  function Between(buf: seq<byte>, head: nat, tail: nat): (s: seq<byte>)
    requires |buf| == SIZE && head < SIZE && tail < SIZE
    ensures |s| == Held(head, tail)
  {
    seq(Held(head, tail), i requires 0 <= i < Held(head, tail) => buf[Slot(tail, i)])
  }

  lemma PutAtHead(buf: seq<byte>, head: nat, tail: nat, b: byte)
    requires |buf| == SIZE && head < SIZE && tail < SIZE && Held(head, tail) < SIZE - 1
    ensures Between(buf[head := b], NextPos(head), tail) == Between(buf, head, tail) + [b]
  {
    var n := Held(head, tail);
    assert Held(NextPos(head), tail) == n + 1 && Slot(tail, n) == head;
    forall i | 0 <= i < n ensures Slot(tail, i) != head {}
  }

  lemma TakeAtTail(buf: seq<byte>, head: nat, tail: nat)
    requires |buf| == SIZE && head < SIZE && tail < SIZE && Held(head, tail) > 0
    ensures Between(buf, head, tail) == [buf[tail]] + Between(buf, head, NextPos(tail))
  {
    var n := Held(head, tail);
    assert Held(head, NextPos(tail)) == n - 1 && Slot(tail, 0) == tail;
    forall i | 0 <= i < n - 1 ensures Slot(NextPos(tail), i) == Slot(tail, i + 1) {}
  }

  /** struct ioqueue without its lock and wait slots. */
  class Ring {
    const buf: array<byte>
    var head: nat
    var tail: nat

    ghost predicate Valid()
      reads this
    {
      buf.Length == SIZE && head < SIZE && tail < SIZE
    }

    ghost function Contents(): (s: seq<byte>)
      requires Valid()
      reads this, buf
      ensures |s| < SIZE
    {
      Between(buf[..], head, tail)
    }

    constructor ()
      ensures Valid() && Contents() == [] && fresh(buf)
    {
      buf := new byte[SIZE](_ => 0);
      head := 0;
      tail := 0;
    }

    /** ioq_full */
    method Full() returns (r: bool)
      requires Valid()
      ensures r <==> |Contents()| == SIZE - 1
    {
      r := NextPos(head) == tail;
    }

    /** ioq_empty */
    method Empty() returns (r: bool)
      requires Valid()
      ensures r <==> Contents() == []
    {
      r := head == tail;
    }

    method Put(b: byte)
      requires Valid() && |Contents()| < SIZE - 1
      modifies this`head, buf
      ensures Valid() && Contents() == old(Contents()) + [b]
    {
      PutAtHead(buf[..], head, tail, b);
      buf[head] := b;
      head := NextPos(head);
      assert buf[..] == old(buf[..])[old(head) := b];
    }

    method Take() returns (b: byte)
      requires Valid() && Contents() != []
      modifies this`tail
      ensures Valid() && old(Contents()) == [b] + Contents()
    {
      TakeAtTail(buf[..], head, tail);
      b := buf[tail];
      tail := NextPos(tail);
    }
  }

  /** Where a thread is in ioq_putchar or ioq_getchar. */
  datatype Place =
    | Away
    | PutLock(b: byte)  // blocked, or just woken, in lock_acquire
    | GetLock
    | PutWait(b: byte)  // blocked, or just woken, in ioq_wait
    | GetWait

  /** The queue between two switches. `accepted` and `delivered` are the bytes put and got so far. */
  datatype Queue = Queue(content: seq<byte>, producer: Option<Tid>, consumer: Option<Tid>, lock: Lock,
                         place: map<Tid, Place>, blocked: set<Tid>, accepted: seq<byte>, delivered: seq<byte>)

  /** thread_unblock */
  function Wake(q: Queue, t: Tid): Run<Queue> {
    if t !in q.blocked then Halted else Done(q.(blocked := q.blocked - {t}))
  }

  /** thread_block, which gives the processor away. */
  function Sleep(q: Queue, t: Tid, p: Place): Queue {
    q.(blocked := q.blocked + {t}, place := q.place[t := p])
  }

  /** ioq_wait on the slot of producers or consumers. */
  function WaitInSlot(q: Queue, t: Tid, p: Place): Run<Queue> {
    match p
    case PutLock(b) => if q.producer != None then Halted else Done(Sleep(q, t, PutWait(b)).(producer := Some(t)))
    case _ => if q.consumer != None then Halted else Done(Sleep(q, t, GetWait).(consumer := Some(t)))
  }

  /** sema_down of the queue's lock, the rest of lock_acquire, and ioq_wait. */
  function DownThenWait(q: Queue, t: Tid, p: Place): Run<Queue> {
    if q.lock.value == 0 then
      if t in q.lock.waiters then Halted
      else Done(Sleep(q, t, p).(lock := q.lock.(waiters := q.lock.waiters + [t])))
    else if q.lock.value != 1 || q.lock.repeat != 0 then Halted
    else WaitInSlot(q.(lock := Lock(0, q.lock.waiters, Some(t), 1)), t, p)
  }

  function LockThenWait(q: Queue, t: Tid, p: Place): Run<Queue> {
    if q.lock.holder != Some(t) then DownThenWait(q, t, p)
    else WaitInSlot(q.(lock := q.lock.(repeat := q.lock.repeat + 1)), t, p)
  }

  /** lock_release */
  function Leave(q: Queue, t: Tid): Run<Queue> {
    if q.lock.holder != Some(t) then Halted
    else if q.lock.repeat > 1 then Done(q.(lock := q.lock.(repeat := q.lock.repeat - 1)))
    else if q.lock.repeat != 1 || q.lock.value != 0 then Halted
    else if q.lock.waiters == [] then Done(q.(lock := Lock(1, [], None, 0), place := q.place[t := Away]))
    else Wake(q.(lock := Lock(1, q.lock.waiters[1..], None, 0), place := q.place[t := Away]), q.lock.waiters[0])
  }

  /** ioq_putchar from the test of its loop on. */
  function PutLoop(q: Queue, t: Tid, b: byte): Run<Queue> {
    if |q.content| == SIZE - 1 then LockThenWait(q, t, PutLock(b))
    else
      var after := q.(content := q.content + [b], accepted := q.accepted + [b], place := q.place[t := Away]);
      if q.consumer == None then Done(after) else Wake(after.(consumer := None), q.consumer.value)
  }

  /** ioq_getchar from the test of its loop on. */
  function GetLoop(q: Queue, t: Tid): Run<Queue> {
    if q.content == [] then LockThenWait(q, t, GetLock)
    else
      var after := q.(content := q.content[1..], delivered := q.delivered + [q.content[0]], place := q.place[t :=
        Away]);
      if q.producer == None then Done(after) else Wake(after.(producer := None), q.producer.value)
  }

  datatype Move = PutChar(t: Tid, b: byte) | GetChar(t: Tid) | GoOn(t: Tid)

  predicate Possible(q: Queue, m: Move) {
    m.t in q.place && m.t !in q.blocked && (q.place[m.t] == Away <==> !m.GoOn?)
  }

  /** Everything a thread does until it leaves or loses the processor. */
  function Take(q: Queue, m: Move): Run<Queue>
    requires Possible(q, m)
  {
    match m
    case PutChar(t, b) => PutLoop(q, t, b)
    case GetChar(t) => GetLoop(q, t)
    case GoOn(t) =>
      match q.place[t]
      case PutWait(b) => (match Leave(q, t) case Halted => Halted case Done(q1) => PutLoop(q1, t, b))
      case GetWait => (match Leave(q, t) case Halted => Halted case Done(q1) => GetLoop(q1, t))
      case p => DownThenWait(q, t, p)
  }

  predicate InWait(p: Place) {
    p.PutWait? || p.GetWait?
  }

  /** The lock belongs to the thread behind it, if any. */
  ghost predicate LockHeld(q: Queue) {
    && q.lock.value <= 1 && (q.lock.value == 1 <==> q.lock.holder == None)
    && q.lock.repeat == (if q.lock.holder == None then 0 else 1)
    && (q.lock.holder != None ==> q.lock.holder.value in q.place && InWait(q.place[q.lock.holder.value]))
    && forall t :: t in q.place && InWait(q.place[t]) ==> q.lock.holder == Some(t)
  }

  /** A slot names a blocked thread that waits there, and such a thread is in its slot. */
  ghost predicate SlotsNamed(q: Queue) {
    && (forall t :: q.producer == Some(t) <==> t in q.place && q.place[t].PutWait? && t in q.blocked)
    && forall t :: q.consumer == Some(t) <==> t in q.place && q.place[t] == GetWait && t in q.blocked
  }

  ghost predicate Sleepers(q: Queue) {
    && (forall t :: t in q.blocked ==> t in q.place && q.place[t] != Away)
    && Distinct(q.lock.waiters)
    && forall t :: t in q.lock.waiters <==>
         t in q.place && (q.place[t].PutLock? || q.place[t] == GetLock) && t in q.blocked
  }

  ghost predicate Sound(q: Queue) {
    && LockHeld(q) && SlotsNamed(q) && Sleepers(q)
    && |q.content| < SIZE && q.accepted == q.delivered + q.content
  }

  /** What the ASSERTs in ioq_wait and wakeup need: a filled slot names a blocked thread that has the lock. */
  lemma SlotHoldsLock(q: Queue, t: Tid)
    requires Sound(q) && (q.producer == Some(t) || q.consumer == Some(t))
    ensures t in q.blocked && q.lock.holder == Some(t) && (q.producer == None || q.consumer == None)
  {
    assert q.producer != None ==> q.lock.holder == q.producer && q.place[q.producer.value].PutWait?;
    assert q.consumer != None ==> q.lock.holder == q.consumer && q.place[q.consumer.value] == GetWait;
  }

  lemma SlotsFollowLock(q: Queue)
    requires Sound(q)
    ensures q.producer != None ==> q.lock.holder == q.producer
    ensures q.consumer != None ==> q.lock.holder == q.consumer
  {
    if q.producer != None { SlotHoldsLock(q, q.producer.value); }
    if q.consumer != None { SlotHoldsLock(q, q.consumer.value); }
  }

  /** The lock is taken: the thread joins its waiters. */
  lemma JoinOk(q: Queue, t: Tid, p: Place)
    requires Sound(q) && t in q.place && t !in q.blocked && !InWait(q.place[t]) && (p.PutLock? || p == GetLock)
    requires q.lock.value == 0
    ensures DownThenWait(q, t, p).Done? && Sound(DownThenWait(q, t, p).value)
  {
    hide Distinct;
    var q1 := Sleep(q, t, p).(lock := q.lock.(waiters := q.lock.waiters + [t]));
    AppendOk(q.lock.waiters, t);
    assert LockHeld(q1);
    assert SlotsNamed(q1) by { hide LockHeld; }
    assert Sleepers(q1) by { hide LockHeld, SlotsNamed; }
  }

  /** The lock is free: the thread takes it, and both slots are empty. */
  lemma FillOk(q: Queue, t: Tid, p: Place)
    requires Sound(q) && t in q.place && t !in q.blocked && !InWait(q.place[t]) && (p.PutLock? || p == GetLock)
    requires q.lock.value != 0
    ensures DownThenWait(q, t, p).Done? && Sound(DownThenWait(q, t, p).value)
  {
    hide Distinct;
    SlotsFollowLock(q);
    var q1 := DownThenWait(q, t, p).value;
    assert LockHeld(q1);
    assert SlotsNamed(q1);
    assert Sleepers(q1) by { hide LockHeld, SlotsNamed; }
  }

  lemma DownOk(q: Queue, t: Tid, p: Place)
    requires Sound(q) && t in q.place && t !in q.blocked && !InWait(q.place[t]) && (p.PutLock? || p == GetLock)
    ensures DownThenWait(q, t, p).Done? && Sound(DownThenWait(q, t, p).value)
  {
    hide Sound, DownThenWait;
    if q.lock.value == 0 {
      JoinOk(q, t, p);
    } else {
      FillOk(q, t, p);
    }
  }

  lemma LeaveOk(q: Queue, t: Tid)
    requires Sound(q) && t in q.place && t !in q.blocked && InWait(q.place[t])
    ensures Leave(q, t).Done?
    ensures var q1 := Leave(q, t).value; Sound(q1) && t in q1.place && t !in q1.blocked && q1.place[t] == Away
  {
    var ws, q1 := q.lock.waiters, Leave(q, t).value;
    if ws != [] {
      assert ws[0] in ws;
      forall x ensures x in ws[1..] <==> x in ws && x != ws[0] {
        assert ws == [ws[0]] + ws[1..];
      }
    }
    assert LockHeld(q1) && SlotsNamed(q1) && Sleepers(q1);
  }

  lemma NotHolder(q: Queue, t: Tid)
    requires Sound(q) && t in q.place && !InWait(q.place[t])
    ensures q.lock.holder != Some(t)
  {
  }

  lemma PutLoopOk(q: Queue, t: Tid, b: byte)
    requires Sound(q) && t in q.place && t !in q.blocked && q.place[t] == Away
    ensures PutLoop(q, t, b).Done? && Sound(PutLoop(q, t, b).value)
  {
    hide Distinct, DownThenWait;
    if |q.content| == SIZE - 1 {
      NotHolder(q, t);
      DownOk(q, t, PutLock(b));
    } else {
      var q1 := PutLoop(q, t, b).value;
      assert q.delivered + (q.content + [b]) == q.delivered + q.content + [b];
      assert LockHeld(q1) && SlotsNamed(q1) && Sleepers(q1);
    }
  }

  lemma GetLoopOk(q: Queue, t: Tid)
    requires Sound(q) && t in q.place && t !in q.blocked && q.place[t] == Away
    ensures GetLoop(q, t).Done? && Sound(GetLoop(q, t).value)
  {
    hide Distinct, DownThenWait;
    if q.content == [] {
      NotHolder(q, t);
      DownOk(q, t, GetLock);
    } else {
      var q1 := GetLoop(q, t).value;
      assert q.delivered + [q.content[0]] + q.content[1..] == q.delivered + q.content;
      assert LockHeld(q1) && SlotsNamed(q1) && Sleepers(q1);
    }
  }

  /** No ASSERT of the queue or of its lock fails, whatever thread moves next. */
  lemma TakeOk(q: Queue, m: Move)
    requires Sound(q) && Possible(q, m)
    ensures Take(q, m).Done? && Sound(Take(q, m).value)
  {
    hide Sound, DownThenWait, Leave, PutLoop, GetLoop;
    match m
    case PutChar(t, b) => PutLoopOk(q, t, b);
    case GetChar(t) => GetLoopOk(q, t);
    case GoOn(t) =>
      var p := q.place[t];
      if p.PutWait? {
        LeaveOk(q, t);
        PutLoopOk(Leave(q, t).value, t, p.b);
      } else if p == GetWait {
        LeaveOk(q, t);
        GetLoopOk(Leave(q, t).value, t);
      } else {
        DownOk(q, t, p);
      }
  }

  ghost predicate NewQueue(q: Queue) {
    && q.content == q.accepted == q.delivered == [] && q.producer == None && q.consumer == None
    && q.lock == Lock(1, [], None, 0) && q.blocked == {} && forall t :: t in q.place ==> q.place[t] == Away
  }

  ghost predicate Moves(states: seq<Queue>, moves: seq<Move>) {
    |states| == |moves| + 1 && forall i :: 0 <= i < |moves| ==>
      Possible(states[i], moves[i]) && Take(states[i], moves[i]) == Done(states[i + 1])
  }

  /** Over every interleaving, the bytes got are a prefix of the bytes put, and the buffer holds the
      rest, at most 63 of them. */
  lemma {:induction false} BytesInOrder(states: seq<Queue>, moves: seq<Move>, i: nat)
    requires Moves(states, moves) && NewQueue(states[0]) && i < |states|
    ensures Sound(states[i])
    ensures states[i].delivered <= states[i].accepted && |states[i].accepted| - |states[i].delivered| <= 63
  {
    hide Take, Possible, LockHeld, SlotsNamed, Sleepers;
    if i == 0 {
      StartSound(states[0]);
    } else {
      BytesInOrder(states, moves, i - 1);
      TakeOk(states[i - 1], moves[i - 1]);
    }
  }

  /** The call that thread `t` is in, or made last: its last move that did not go on with one. */
  function CallOf(moves: seq<Move>, t: Tid): Option<Move> {
    if moves == [] then None
    else
      var m := moves[|moves| - 1];
      if m.t == t && !m.GoOn? then Some(m) else CallOf(moves[..|moves| - 1], t)
  }

  /** The last move ended a call: its thread is away from the queue. */
  predicate Ends(q: Queue, m: Move) {
    m.t in q.place && q.place[m.t] == Away
  }

  /** The bytes of the calls of ioq_putchar that have ended, in the order in which they did. */
  function Puts(states: seq<Queue>, moves: seq<Move>): seq<byte>
    requires |states| == |moves| + 1
  {
    if moves == [] then []
    else
      var n := |moves| - 1;
      var call := CallOf(moves, moves[n].t);
      Puts(states[..n + 1], moves[..n]) +
      if Ends(states[n + 1], moves[n]) && call != None && call.value.PutChar? then [call.value.b] else []
  }

  /** How many calls of ioq_getchar have ended. */
  function Gets(states: seq<Queue>, moves: seq<Move>): nat
    requires |states| == |moves| + 1
  {
    if moves == [] then 0
    else
      var n := |moves| - 1;
      var call := CallOf(moves, moves[n].t);
      Gets(states[..n + 1], moves[..n]) +
      if Ends(states[n + 1], moves[n]) && call != None && call.value.GetChar? then 1 else 0
  }

  function CallAt(p: Place, t: Tid): Move
    requires p != Away
  {
    match p
    case PutLock(b) => PutChar(t, b)
    case PutWait(b) => PutChar(t, b)
    case _ => GetChar(t)
  }

  /** Where a thread is tells the call that it is in. */
  ghost predicate Underway(q: Queue, moves: seq<Move>) {
    forall t :: t in q.place && q.place[t] != Away ==>
      CallOf(moves, t) == Some(CallAt(q.place[t], t))
  }

  /** The call that a move begins or goes on with. */
  function CallNow(q: Queue, m: Move): Move
    requires Possible(q, m)
  {
    if !m.GoOn? then m else CallAt(q.place[m.t], m.t)
  }

  /** What `call` has put or got by a move of `t`, and where it is. */
  ghost predicate Did(q: Queue, q1: Queue, t: Tid, call: Move) {
    && t in q.place && q1.place.Keys == q.place.Keys && call.t == t && !call.GoOn?
    && (forall x :: x in q.place && x != t ==> q1.place[x] == q.place[x])
    && (q1.place[t] != Away ==> call == CallAt(q1.place[t], t))
    && q1.accepted == q.accepted + (if q1.place[t] == Away && call.PutChar? then [call.b] else [])
    && |q1.delivered| == |q.delivered| + (if q1.place[t] == Away && call.GetChar? then 1 else 0)
  }

  lemma WaitDid(q: Queue, t: Tid, p: Place)
    requires t in q.place && (p.PutLock? || p == GetLock)
    ensures DownThenWait(q, t, p).Done? ==> Did(q, DownThenWait(q, t, p).value, t, CallAt(p, t))
    ensures LockThenWait(q, t, p).Done? ==> Did(q, LockThenWait(q, t, p).value, t, CallAt(p, t))
  {
  }

  lemma PutDid(q: Queue, t: Tid, b: byte)
    requires t in q.place && PutLoop(q, t, b).Done?
    ensures Did(q, PutLoop(q, t, b).value, t, PutChar(t, b))
  {
    hide LockThenWait;
    WaitDid(q, t, PutLock(b));
  }

  lemma GetDid(q: Queue, t: Tid)
    requires t in q.place && GetLoop(q, t).Done?
    ensures Did(q, GetLoop(q, t).value, t, GetChar(t))
  {
    hide LockThenWait;
    WaitDid(q, t, GetLock);
  }

  lemma LeaveDid(q: Queue, t: Tid)
    requires t in q.place && Leave(q, t).Done?
    ensures var q1 := Leave(q, t).value;
      && q1.place.Keys == q.place.Keys && (forall x :: x in q.place && x != t ==> q1.place[x] == q.place[x])
      && q1.accepted == q.accepted && q1.delivered == q.delivered
  {
  }

  lemma MoveDid(q: Queue, m: Move)
    requires Possible(q, m) && Take(q, m).Done? && (m.GoOn? ==> q.place[m.t] != Away)
    ensures Did(q, Take(q, m).value, m.t, CallNow(q, m))
  {
    hide PutLoop, GetLoop, Leave, DownThenWait;
    var t := m.t;
    match m
    case PutChar(_, b) => PutDid(q, t, b);
    case GetChar(_) => GetDid(q, t);
    case GoOn(_) =>
      var p := q.place[t];
      if p.PutWait? {
        LeaveDid(q, t);
        PutDid(Leave(q, t).value, t, p.b);
      } else if p == GetWait {
        LeaveDid(q, t);
        GetDid(Leave(q, t).value, t);
      } else {
        WaitDid(q, t, p);
      }
  }

  lemma CallMade(moves: seq<Move>, m: Move, t: Tid)
    ensures CallOf(moves + [m], t) == if m.t == t && !m.GoOn? then Some(m) else CallOf(moves, t)
  {
    assert (moves + [m])[..|moves|] == moves;
  }

  /** The bytes accepted are those of the calls that have ended, each in its turn, and one byte was delivered for
      each ioq_getchar that has. */
  lemma {:induction false} AcceptedAreThePuts(states: seq<Queue>, moves: seq<Move>)
    requires Moves(states, moves) && NewQueue(states[0])
    ensures states[|moves|].accepted == Puts(states, moves) && |states[|moves|].delivered| == Gets(states, moves)
    ensures Underway(states[|moves|], moves)
    decreases |moves|
  {
    hide Take, Possible, CallOf, NewQueue, Underway;
    if moves == [] {
      NothingUnderway(states[0]);
    } else {
      var n := |moves| - 1;
      var front := moves[..n];
      forall i | 0 <= i < n ensures Possible(states[i], moves[i]) && Take(states[i], moves[i]) == Done(states[i + 1]) {}
      AcceptedAreThePuts(states[..n + 1], front);
      assert moves == front + [moves[n]];
      MoveUnderway(states[n], moves[n], front, states[n + 1]);
    }
  }

  lemma NothingUnderway(q: Queue)
    requires NewQueue(q)
    ensures Underway(q, []) && q.accepted == [] && q.delivered == []
  {
  }

  lemma MoveUnderway(q: Queue, m: Move, front: seq<Move>, q1: Queue)
    requires Possible(q, m) && Take(q, m) == Done(q1) && Underway(q, front)
    ensures Underway(q1, front + [m])
    ensures var call := CallOf(front + [m], m.t);
      && call != None
      && q1.accepted == q.accepted + (if Ends(q1, m) && call.value.PutChar? then [call.value.b] else [])
      && |q1.delivered| == |q.delivered| + (if Ends(q1, m) && call.value.GetChar? then 1 else 0)
  {
    hide Take, CallOf;
    MoveDid(q, m);
    CallMade(front, m, m.t);
    forall t | t in q1.place && q1.place[t] != Away && t != m.t
      ensures CallOf(front + [m], t) == CallOf(front, t)
    {
      CallMade(front, m, t);
    }
  }

  /** So the bytes got are a prefix of the bytes of the ended calls of ioq_putchar, whoever made them, and the
      buffer holds the rest. */
  lemma GotWhatWasPut(states: seq<Queue>, moves: seq<Move>)
    requires Moves(states, moves) && NewQueue(states[0])
    ensures var q := states[|moves|]; Puts(states, moves) == q.delivered + q.content
    ensures |states[|moves|].delivered| == Gets(states, moves) && |states[|moves|].content| <= 63
  {
    hide Take, Possible, Puts, Gets, NewQueue, LockHeld, SlotsNamed, Sleepers;
    BytesInOrder(states, moves, |moves|);
    AcceptedAreThePuts(states, moves);
  }

  /** A put that ends leaves the consumers' slot empty and its thread awake; a get does so for the producers. */
  lemma EndsAndWakes(q: Queue, m: Move)
    requires Sound(q) && Possible(q, m) && Take(q, m).Done? && Ends(Take(q, m).value, m)
    ensures var q1 := Take(q, m).value;
      if CallNow(q, m).PutChar? then q1.consumer == None && (q.consumer != None ==> q.consumer.value !in q1.blocked)
      else q1.producer == None && (q.producer != None ==> q.producer.value !in q1.blocked)
  {
    hide Sound;
  }

  /** Where a move leaves its thread: a call that finds room, or a byte, ends at once; else the thread waits in
      its slot if the lock is free and among the lock's waiters if not. A thread woken in the slot tests the queue
      again; one woken from the lock does not and goes to the slot whatever the queue holds. */
  lemma WhereItEnds(q: Queue, m: Move)
    requires Sound(q) && Possible(q, m) && Take(q, m).Done?
    ensures var q1, t, call := Take(q, m).value, m.t, CallNow(q, m);
      var ready := if call.PutChar? then |q.content| < 63 else q.content != [];
      && (Ends(q1, m) <==> ready && (m.GoOn? ==> InWait(q.place[t])))
      && (!Ends(q1, m) ==> t in q1.blocked && InWait(q1.place[t]) == (q.lock.value == 1 || InWait(q.place[t])))
  {
    hide SlotsNamed, Sleepers;
  }

  /** Whoever waits in a slot has a reason to: no bytes to get, or no room to put one. */
  predicate WaitsRightly(q: Queue) {
    (q.consumer != None ==> q.content == []) && (q.producer != None ==> |q.content| == 63)
  }

  /** The move is that of a thread woken from the lock, into the slot, though the queue has what it wants. */
  predicate WaitsForNothing(q: Queue, m: Move)
    requires Possible(q, m)
  {
    && m.GoOn? && !InWait(q.place[m.t]) && q.lock.value == 1
    && if CallNow(q, m).PutChar? then |q.content| < 63 else q.content != []
  }

  /** That every wait has a reason is kept by all moves but those. */
  lemma WaitsForAReason(q: Queue, m: Move)
    requires Sound(q) && WaitsRightly(q) && Possible(q, m) && Take(q, m).Done?
    ensures WaitsRightly(Take(q, m).value) <==> !WaitsForNothing(q, m)
  {
    hide SlotsNamed, Sleepers;
    SlotsFollowLock(q) by { assert Sound(q); }
  }

  /** The queue of threads 1, 2 and 3, of which 3 puts bytes only while there is room. */
  function Scene(content: seq<byte>, consumer: Option<Tid>, lock: Lock, first: Place, second: Place,
                 blocked: set<Tid>, accepted: seq<byte>, delivered: seq<byte>): Queue
  {
    Queue(content, None, consumer, lock, map[1 := first, 2 := second, 3 := Away], blocked, accepted, delivered)
  }

  lemma Same(q: Queue, q1: Queue)
    requires q.content == q1.content && q.producer == q1.producer && q.consumer == q1.consumer && q.lock == q1.lock
    requires q.place == q1.place && q.blocked == q1.blocked
    requires q.accepted == q1.accepted && q.delivered == q1.delivered
    ensures q == q1
  {
  }

  lemma BothWait()
    ensures var q := Scene([], None, Lock(1, [], None, 0), Away, Away, {}, [], []);
      var q1 := Scene([], Some(1), Lock(0, [], Some(1), 1), GetWait, Away, {1}, [], []);
      && Take(q, GetChar(1)) == Done(q1)
      && Take(q1, GetChar(2)) == Done(Scene([], Some(1), Lock(0, [2], Some(1), 1), GetWait, GetLock, {1, 2}, [], []))
  {
    var q := Scene([], None, Lock(1, [], None, 0), Away, Away, {}, [], []);
    var q1 := Scene([], Some(1), Lock(0, [], Some(1), 1), GetWait, Away, {1}, [], []);
    assert [] + [2] == [2];
    Same(Take(q, GetChar(1)).value, q1);
    Same(Take(q1, GetChar(2)).value, Scene([], Some(1), Lock(0, [2], Some(1), 1), GetWait, GetLock, {1, 2}, [], []));
  }

  lemma BothPut(a: byte, b: byte)
    ensures var q := Scene([], Some(1), Lock(0, [2], Some(1), 1), GetWait, GetLock, {1, 2}, [], []);
      var q1 := Scene([a], None, Lock(0, [2], Some(1), 1), GetWait, GetLock, {2}, [a], []);
      && Take(q, PutChar(3, a)) == Done(q1)
      && Take(q1, PutChar(3, b)) ==
         Done(Scene([a, b], None, Lock(0, [2], Some(1), 1), GetWait, GetLock, {2}, [a, b], []))
  {
    var q := Scene([], Some(1), Lock(0, [2], Some(1), 1), GetWait, GetLock, {1, 2}, [], []);
    var q1 := Scene([a], None, Lock(0, [2], Some(1), 1), GetWait, GetLock, {2}, [a], []);
    assert [] + [a] == [a] && [a] + [b] == [a, b];
    Same(Take(q, PutChar(3, a)).value, q1);
    Same(Take(q1, PutChar(3, b)).value,
         Scene([a, b], None, Lock(0, [2], Some(1), 1), GetWait, GetLock, {2}, [a, b], []));
  }

  lemma FirstGets(a: byte, b: byte)
    ensures var q := Scene([a, b], None, Lock(0, [2], Some(1), 1), GetWait, GetLock, {2}, [a, b], []);
      Take(q, GoOn(1)) == Done(Scene([b], None, Lock(1, [], None, 0), Away, GetLock, {}, [a, b], [a]))
  {
    var q := Scene([a, b], None, Lock(0, [2], Some(1), 1), GetWait, GetLock, {2}, [a, b], []);
    assert [a, b][1..] == [b] && [2][1..] == [] && [] + [a] == [a];
    Same(Take(q, GoOn(1)).value, Scene([b], None, Lock(1, [], None, 0), Away, GetLock, {}, [a, b], [a]));
  }

  lemma SecondWaits(a: byte, b: byte)
    ensures var q := Scene([b], None, Lock(1, [], None, 0), Away, GetLock, {}, [a, b], [a]);
      Take(q, GoOn(2)) == Done(Scene([b], Some(2), Lock(0, [], Some(2), 1), Away, GetWait, {2}, [a, b], [a]))
  {
    var q := Scene([b], None, Lock(1, [], None, 0), Away, GetLock, {}, [a, b], [a]);
    Same(Take(q, GoOn(2)).value, Scene([b], Some(2), Lock(0, [], Some(2), 1), Away, GetWait, {2}, [a, b], [a]));
  }

  /** Two getters and a putter that puts two bytes: the second getter sleeps beside the second byte, and nobody is
      left to wake it but the next put. */
  lemma SleepsBesideAByte(a: byte, b: byte) returns (states: seq<Queue>, moves: seq<Move>)
    ensures Moves(states, moves) && NewQueue(states[0])
    ensures moves == [GetChar(1), GetChar(2), PutChar(3, a), PutChar(3, b), GoOn(1), GoOn(2)]
    ensures var q := states[6];
      && q.content == [b] && q.delivered == [a] && q.place == map[1 := Away, 2 := GetWait, 3 := Away]
      && q.blocked == {2} && q.lock.waiters == []
  {
    hide Take;
    BothWait();
    BothPut(a, b);
    FirstGets(a, b);
    SecondWaits(a, b);
    moves := [GetChar(1), GetChar(2), PutChar(3, a), PutChar(3, b), GoOn(1), GoOn(2)];
    states := [
      Scene([], None, Lock(1, [], None, 0), Away, Away, {}, [], []),
      Scene([], Some(1), Lock(0, [], Some(1), 1), GetWait, Away, {1}, [], []),
      Scene([], Some(1), Lock(0, [2], Some(1), 1), GetWait, GetLock, {1, 2}, [], []),
      Scene([a], None, Lock(0, [2], Some(1), 1), GetWait, GetLock, {2}, [a], []),
      Scene([a, b], None, Lock(0, [2], Some(1), 1), GetWait, GetLock, {2}, [a, b], []),
      Scene([b], None, Lock(1, [], None, 0), Away, GetLock, {}, [a, b], [a]),
      Scene([b], Some(2), Lock(0, [], Some(2), 1), Away, GetWait, {2}, [a, b], [a])
    ];
  }

  /** A thread that was taken off the lock's waiters and has yet to test it again. */
  ghost predicate OnItsWay(q: Queue, t: Tid) {
    t in q.place && (q.place[t].PutLock? || q.place[t] == GetLock) && t !in q.blocked
  }

  /** A free lock with waiters has a woken thread on its way. */
  ghost predicate NoneForgotten(q: Queue) {
    q.lock.value == 1 && q.lock.waiters != [] ==> exists t :: OnItsWay(q, t)
  }

  /** The waiters of the lock keep their order: who joins comes last, and who is woken was first. */
  ghost predicate InTurn(q: Queue, q1: Queue, t: Tid) {
    || q1.lock.waiters == q.lock.waiters
    || (q1.lock.waiters == q.lock.waiters + [t] && t in q1.blocked && q.lock.value == 0)
    || (q.lock.waiters != [] && q1.lock.waiters == q.lock.waiters[1..] && q.lock.waiters[0] !in q1.blocked)
  }

  lemma DownInTurn(q: Queue, t: Tid, p: Place)
    requires Sound(q) && NoneForgotten(q) && t in q.place && t !in q.blocked && (p.PutLock? || p == GetLock)
    requires q.place[t] == Away || q.place[t] == p
    requires DownThenWait(q, t, p).Done?
    ensures InTurn(q, DownThenWait(q, t, p).value, t) && NoneForgotten(DownThenWait(q, t, p).value)
    ensures q.lock.value == 1 ==> DownThenWait(q, t, p).value.lock.waiters == q.lock.waiters
  {
    hide Sound;
  }

  lemma LeaveInTurn(q: Queue, t: Tid)
    requires Sound(q) && t in q.place && InWait(q.place[t]) && Leave(q, t).Done?
    ensures InTurn(q, Leave(q, t).value, t) && NoneForgotten(Leave(q, t).value) && Leave(q, t).value.lock.value == 1
  {
    var ws := q.lock.waiters;
    if ws != [] {
      assert ws[0] in ws;
      assert OnItsWay(Leave(q, t).value, ws[0]);
    }
  }

  lemma PutInTurn(q: Queue, t: Tid, b: byte)
    requires Sound(q) && NoneForgotten(q) && t in q.place && t !in q.blocked && q.place[t] == Away
    requires PutLoop(q, t, b).Done?
    ensures InTurn(q, PutLoop(q, t, b).value, t) && NoneForgotten(PutLoop(q, t, b).value)
    ensures q.lock.value == 1 ==> PutLoop(q, t, b).value.lock.waiters == q.lock.waiters
    ensures forall x :: x !in q.blocked && x != t ==> x !in PutLoop(q, t, b).value.blocked
  {
    hide Sound;
    NotHolder(q, t);
    if |q.content| == SIZE - 1 {
      DownInTurn(q, t, PutLock(b));
    } else if x :| OnItsWay(q, x) {
      assert OnItsWay(PutLoop(q, t, b).value, x);
    }
  }

  lemma GetInTurn(q: Queue, t: Tid)
    requires Sound(q) && NoneForgotten(q) && t in q.place && t !in q.blocked && q.place[t] == Away
    requires GetLoop(q, t).Done?
    ensures InTurn(q, GetLoop(q, t).value, t) && NoneForgotten(GetLoop(q, t).value)
    ensures q.lock.value == 1 ==> GetLoop(q, t).value.lock.waiters == q.lock.waiters
    ensures forall x :: x !in q.blocked && x != t ==> x !in GetLoop(q, t).value.blocked
  {
    hide Sound;
    NotHolder(q, t);
    if q.content == [] {
      DownInTurn(q, t, GetLock);
    } else if x :| OnItsWay(q, x) {
      assert OnItsWay(GetLoop(q, t).value, x);
    }
  }

  /** Nobody waits for a lock that is free without being woken, and they are woken in their order. */
  lemma NoneOvertaken(q: Queue, m: Move)
    requires Sound(q) && NoneForgotten(q) && Possible(q, m) && Take(q, m).Done?
    ensures InTurn(q, Take(q, m).value, m.t) && NoneForgotten(Take(q, m).value)
  {
    hide Sound, DownThenWait, Leave, PutLoop, GetLoop, NoneForgotten;
    var t := m.t;
    match m
    case PutChar(_, b) => PutInTurn(q, t, b);
    case GetChar(_) => GetInTurn(q, t);
    case GoOn(_) =>
      var p := q.place[t];
      if InWait(p) {
        LeaveInTurn(q, t);
        LeaveOk(q, t);
        if p.PutWait? {
          PutInTurn(Leave(q, t).value, t, p.b);
        } else {
          GetInTurn(Leave(q, t).value, t);
        }
        Awake(q, t);
      } else {
        DownInTurn(q, t, p);
      }
  }

  lemma Awake(q: Queue, t: Tid)
    requires Sound(q) && t in q.place && InWait(q.place[t])
    ensures t !in q.lock.waiters
  {
  }

  lemma {:induction false} NobodyForgotten(states: seq<Queue>, moves: seq<Move>, i: nat)
    requires Moves(states, moves) && NewQueue(states[0]) && i < |states|
    ensures Sound(states[i]) && NoneForgotten(states[i])
    ensures i < |moves| ==> InTurn(states[i], states[i + 1], moves[i].t)
  {
    hide Take, Possible, Sound, InTurn, NoneForgotten;
    BytesInOrder(states, moves, i);
    if i == 0 {
      StartLive(states[0]);
    } else {
      NobodyForgotten(states, moves, i - 1);
      NoneOvertaken(states[i - 1], moves[i - 1]);
    }
    if i < |moves| {
      assert Take(states[i], moves[i]) == Done(states[i + 1]);
      NoneOvertaken(states[i], moves[i]);
    }
  }

  lemma StartLive(q: Queue)
    requires NewQueue(q)
    ensures NoneForgotten(q)
  {
  }

  /** A move with its bytes in the ring: the tests of the loops and the byte go through it. What
      ioq_getchar answers is the byte that is delivered. */
  method TakeOnRing(ring: Ring, q: Queue, m: Move) returns (r: Run<Queue>, got: Option<byte>)
    requires ring.Valid() && ring.Contents() == q.content && Possible(q, m)
    modifies ring`head, ring`tail, ring.buf
    ensures r == Take(q, m)
    ensures r.Done? ==> ring.Valid() && ring.Contents() == r.value.content
    ensures r.Done? ==> r.value.delivered == q.delivered + if got == None then [] else [got.value]
  {
    hide DownThenWait, Leave;
    var t, call := m.t, CallNow(q, m);
    got := None;
    var q0 := q;
    if m.GoOn? {
      if !InWait(q.place[t]) {
        r := DownThenWait(q, t, q.place[t]);
        SameBytes(q, t, q.place[t]);
        return;
      }
      r := Leave(q, t);
      if r.Halted? {
        return;
      }
      LeftBytes(q, t);
      q0 := r.value;
    }
    if call.PutChar? {
      var full := ring.Full();
      if full {
        r := LockThenWait(q0, t, PutLock(call.b));
        SameBytes(q0, t, PutLock(call.b));
      } else {
        ring.Put(call.b);
        r := PutLoop(q0, t, call.b);
      }
    } else {
      var empty := ring.Empty();
      if empty {
        r := LockThenWait(q0, t, GetLock);
        SameBytes(q0, t, GetLock);
      } else {
        var b := ring.Take();
        got := Some(b);
        r := GetLoop(q0, t);
      }
    }
  }

  lemma SameBytes(q: Queue, t: Tid, p: Place)
    ensures DownThenWait(q, t, p).Done? ==>
      DownThenWait(q, t, p).value.content == q.content && DownThenWait(q, t, p).value.delivered == q.delivered
    ensures LockThenWait(q, t, p).Done? ==>
      LockThenWait(q, t, p).value.content == q.content && LockThenWait(q, t, p).value.delivered == q.delivered
  {
  }

  lemma LeftBytes(q: Queue, t: Tid)
    ensures Leave(q, t).Done? ==>
      Leave(q, t).value.content == q.content && Leave(q, t).value.delivered == q.delivered
  {
  }

  lemma StartSound(q: Queue)
    requires NewQueue(q)
    ensures Sound(q)
  {
  }
}
