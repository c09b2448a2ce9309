/** device/c13a_ide.c: a command and its completion interrupt, under the channel's lock. The lock
    itself is the subject of Locks; here it is just taken or free. */
module Handshake {
  import opened Debug
  import opened Sched
  import opened Locks

  /** Where a thread is in ide_read or ide_write. Commands are numbered as they are issued. */
  datatype Stage =
    | Off
    | Owner            // has the channel, no command under way
    | Armed            // expecting_intr is set, the command is not out yet
    | Commanded(n: nat)  // the command is out, sema_down is ahead
    | Asleep(n: nat)     // in the wait loop of sema_down

  datatype Device = Idle | Busy | Raised  // Raised: its interrupt waits for the processor

  datatype Channel = Channel(owner: Option<Tid>, expecting: bool, value: nat, waiters: seq<Tid>, device: Device,
                             stage: map<Tid, Stage>, issued: nat, handled: nat)

  datatype Event =
    | Take(t: Tid)      // lock_acquire on the channel
    | Arm(t: Tid)       // first half of cmd_out
    | Issue(t: Tid)     // second half of cmd_out
    | Complete          // the device raises its interrupt
    | Interrupt         // intr_hd_handler
    | Down(t: Tid)      // one test in sema_down on disk_done
    | Give(t: Tid)      // lock_release on the channel

  predicate At(c: Channel, t: Tid, s: Stage) {
    t in c.stage && c.stage[t] == s
  }

  predicate Possible(c: Channel, e: Event) {
    match e
    case Take(t) => At(c, t, Off) && c.owner == None
    case Arm(t) => At(c, t, Owner)
    case Issue(t) => At(c, t, Armed)
    case Complete => c.device == Busy
    case Interrupt => c.device == Raised
    case Down(t) => t in c.stage && t !in c.waiters && (c.stage[t].Commanded? || c.stage[t].Asleep?)
    case Give(t) => At(c, t, Owner)
  }

  function To(c: Channel, t: Tid, s: Stage): Channel {
    c.(stage := c.stage[t := s])
  }

  /** sema_up on disk_done */
  function UpDone(c: Channel): Run<Channel> {
    if c.value != 0 then Halted
    else Done(c.(value := 1, waiters := if c.waiters == [] then [] else c.waiters[1..]))
  }

  function Next(c: Channel, e: Event): Run<Channel>
    requires Possible(c, e)
  {
    match e
    case Take(t) => Done(To(c, t, Owner).(owner := Some(t)))
    case Arm(t) => Done(To(c, t, Armed).(expecting := true))
    case Issue(t) => Done(To(c, t, Commanded(c.issued)).(device := Busy, issued := c.issued + 1))
    case Complete => Done(c.(device := Raised))
    case Interrupt =>
      if c.expecting then UpDone(c.(expecting := false, device := Idle, handled := c.handled + 1))
      else Done(c.(device := Idle))
    case Down(t) =>
      if c.value == 0 then Done(To(c, t, Asleep(c.stage[t].n)).(waiters := c.waiters + [t]))
      else if c.value != 1 then Halted
      else Done(To(c, t, Owner).(value := 0))
    case Give(t) => Done(To(c, t, Off).(owner := None))
  }

  /** No command is under way. */
  ghost predicate Quiet(c: Channel) {
    !c.expecting && c.value == 0 && c.waiters == [] && c.device == Idle && c.issued == c.handled
  }

  /** Command `n` is out: either its interrupt is still to come, or it has raised the semaphore. */
  ghost predicate UnderWay(c: Channel, n: nat, asleep: seq<Tid>) {
    c.issued == n + 1 &&
    if c.expecting then c.device != Idle && c.value == 0 && c.handled == n && c.waiters == asleep
    else c.device == Idle && c.value == 1 && c.handled == n + 1 && c.waiters == []
  }

  ghost predicate Sound(c: Channel) {
    && (forall t :: t in c.stage && c.stage[t] != Off ==> c.owner == Some(t))
    && (c.owner != None ==> c.owner.value in c.stage)
    && match if c.owner == None then Off else c.stage[c.owner.value]
       case Off => c.owner == None && Quiet(c)
       case Owner => Quiet(c)
       case Armed => c.expecting && Quiet(c.(expecting := false))
       case Commanded(n) => UnderWay(c, n, [])
       case Asleep(n) => UnderWay(c, n, [c.owner.value])
  }

  /** Every step keeps the handshake; in particular the handler's sema_up never finds the semaphore raised. */
  lemma NextSound(c: Channel, e: Event)
    requires Sound(c) && Possible(c, e)
    ensures Next(c, e).Done? && Sound(Next(c, e).value)
  {
    var c1 := Next(c, e).value;
    assert e.Down? ==> c.owner == Some(e.t);
  }

  /** A thread comes out of its wait with the interrupt of its own command, the last one issued, and
      no interrupt is left over. */
  lemma OwnInterrupt(c: Channel, t: Tid)
    requires Sound(c) && Possible(c, Down(t)) && c.value != 0
    ensures c.stage[t].n + 1 == c.issued == c.handled
    ensures Quiet(Next(c, Down(t)).value)
  {
    assert c.owner == Some(t);
  }

  /** A thread that sleeps on a raised semaphore is off the waiters, so it will test again. */
  lemma WakeIsDelivered(c: Channel, t: Tid)
    requires Sound(c) && t in c.stage && c.stage[t].Asleep? && c.handled == c.issued
    ensures c.value == 1 && t !in c.waiters && Possible(c, Down(t))
  {
    assert c.owner == Some(t);
  }

  ghost predicate Events(states: seq<Channel>, events: seq<Event>) {
    |states| == |events| + 1 && forall i :: 0 <= i < |events| ==>
      Possible(states[i], events[i]) && Next(states[i], events[i]) == Done(states[i + 1])
  }

  /** All runs of any number of threads on the channel. */
  lemma {:induction false} RunsSound(states: seq<Channel>, events: seq<Event>, i: nat)
    requires Events(states, events) && i < |states|
    requires states[0].owner == None && Quiet(states[0])
    requires forall t :: t in states[0].stage ==> states[0].stage[t] == Off
    ensures Sound(states[i])
  {
    hide Next, Possible;
    if i > 0 {
      RunsSound(states, events, i - 1);
      NextSound(states[i - 1], events[i - 1]);
    }
  }

  /** How many commands went out, and how many interrupts came in. */
  function Issues(events: seq<Event>): nat {
    if events == [] then 0
    else Issues(events[..|events| - 1]) + if events[|events| - 1].Issue? then 1 else 0
  }

  function Interrupts(events: seq<Event>): nat {
    if events == [] then 0
    else Interrupts(events[..|events| - 1]) + if events[|events| - 1].Interrupt? then 1 else 0
  }

  /** The counts of the model are those of the events. So a thread leaves its wait when every command that went out
      has had its interrupt, and its own was the last. */
  lemma {:induction false} CountsAreTold(states: seq<Channel>, events: seq<Event>)
    requires Events(states, events) && states[0].owner == None && Quiet(states[0]) && states[0].issued == 0
    requires forall t :: t in states[0].stage ==> states[0].stage[t] == Off
    ensures states[|events|].issued == Issues(events) && states[|events|].handled == Interrupts(events)
    decreases |events|
  {
    hide Next, Possible;
    if events != [] {
      var n := |events| - 1;
      forall i | 0 <= i < n
        ensures Possible(states[i], events[i]) && Next(states[i], events[i]) == Done(states[i + 1])
      {
      }
      CountsAreTold(states[..n + 1], events[..n]);
      RunsSound(states, events, n);
      assert Next(states[n], events[n]) == Done(states[n + 1]);
      Counted(states[n], events[n]);
    }
  }

  lemma Counted(c: Channel, e: Event)
    requires Sound(c) && Possible(c, e) && Next(c, e).Done?
    ensures Next(c, e).value.issued == c.issued + if e.Issue? then 1 else 0
    ensures Next(c, e).value.handled == c.handled + if e.Interrupt? then 1 else 0
  {
  }

  /** Some step of the owner, the device or the handler is always possible while the channel is taken. */
  lemma NeverStuck(c: Channel) returns (e: Event)
    requires Sound(c) && c.owner != None
    ensures Possible(c, e) && !e.Take? && (e.Arm? || e.Issue? || e.Down? || e.Give? ==> e.t == c.owner.value)
  {
    var t := c.owner.value;
    match c.stage[t]
    case Owner => e := Give(t);
    case Armed => e := Issue(t);
    case _ => e := if c.device == Busy then Complete else if c.device == Raised then Interrupt else Down(t);
  }

  predicate Goes(c: Channel, e: Event, c1: Channel) {
    Possible(c, e) && Next(c, e) == Done(c1)
  }

  lemma GoesOut(c: Channel, t: Tid)
    requires At(c, t, Owner)
    ensures var c1 := To(c, t, Armed).(expecting := true);
      && Goes(c, Arm(t), c1)
      && Goes(c1, Issue(t), To(c1, t, Commanded(c.issued)).(device := Busy, issued := c.issued + 1))
  {
  }

  lemma ComesBack(c: Channel)
    requires c.device == Busy && c.expecting && c.value == 0 && |c.waiters| <= 1
    ensures var c1 := c.(device := Raised);
      && Goes(c, Complete, c1)
      && Goes(c1, Interrupt,
              c.(device := Idle, expecting := false, handled := c.handled + 1, value := 1, waiters := []))
  {
    assert c.waiters != [] ==> c.waiters[1..] == [];
  }

  lemma Tests(c: Channel, t: Tid, n: nat)
    requires (At(c, t, Commanded(n)) || At(c, t, Asleep(n))) && c.waiters == [] && c.value <= 1
    ensures Goes(c, Down(t), if c.value == 1 then To(c, t, Owner).(value := 0)
                             else To(c, t, Asleep(n)).(waiters := [t]))
  {
    assert c.waiters + [t] == [t];
  }

  /** A whole command, whether the interrupt comes before the thread gets to sema_down or while it sleeps there:
      one command more, one interrupt more, and the channel as it was. */
  lemma WholeCommand(c: Channel, t: Tid, early: bool) returns (states: seq<Channel>, events: seq<Event>)
    requires Sound(c) && At(c, t, Owner)
    ensures Events(states, events) && states[0] == c
    ensures events == if early then [Arm(t), Issue(t), Complete, Interrupt, Down(t)]
                      else [Arm(t), Issue(t), Down(t), Complete, Interrupt, Down(t)]
    ensures states[|events|] == c.(issued := c.issued + 1, handled := c.handled + 1)
  {
    assert c.owner == Some(t) && Quiet(c);
    hide Sound, Next, Possible;
    var n := c.issued;
    var c1 := To(c, t, Armed).(expecting := true);
    var c2 := To(c1, t, Commanded(n)).(device := Busy, issued := n + 1);
    GoesOut(c, t);
    var c3 := if early then c2 else To(c2, t, Asleep(n)).(waiters := [t]);
    if !early {
      Tests(c2, t, n);
    }
    var c4 := c3.(device := Raised);
    var c5 := c3.(device := Idle, expecting := false, handled := c.handled + 1, value := 1, waiters := []);
    ComesBack(c3);
    Tests(c5, t, n);
    var c6 := To(c5, t, Owner).(value := 0);
    assert c6.stage == c.stage;
    states := [c, c1, c2] + (if early then [] else [c3]) + [c4, c5, c6];
    events := [Arm(t), Issue(t)] + (if early then [] else [Down(t)]) + [Complete, Interrupt, Down(t)];
    forall i | 0 <= i < |events| ensures Goes(states[i], events[i], states[i + 1]) {}
  }
}
