/**
 The race between a driver that re-enables interrupts and goes to sleep and a device that uses
 buffers meanwhile, with every shared access a step of its own. The driver may enable at its own
 position or, delayed, at three quarters of what is outstanding.
 */
module VirtqueueWakeup {
  import opened Bits
  import opened VirtqueueSpec
  import opened VirtqueueProtocol

  /** Inside vca_virtqueue_enable_cb and vca_virtqueue_enable_cb_delayed the driver clears the flag,
      writes the event index, and polls; it waits when the poll found too little. */
  datatype Pc = Running | FlagCleared(delayed: bool) | EventWritten(delayed: bool) | Waiting

  /** `added`, `used`, `got` and `signalled` count buffers added and taken back by the driver, used by
      the device, and used at the device's last interrupt decision. `bufs` is the driver's local
      variable, and `want` the position whose passing should wake the driver. `eventIdx` says whether
      event indices are on. */
  datatype State = State(pc: Pc, noInterrupt: bool, usedEvent: nat, added: nat, used: nat, got: nat, signalled: nat,
                         bufs: nat, want: nat, irq: bool, eventIdx: bool)

  datatype Action =
    | DisableCb | AddBuffer | TakeBack | ClearFlag(delayed: bool) | WriteEvent | Poll | TakeInterrupt
    | UseBuffer | DecideInterrupt

  /** A device uses only what was added and decides on an interrupt at least once in 65535 buffers;
      the ring holds at most 32768 buffers. */
  predicate Enabled(s: State, a: Action) {
    match a
    case DisableCb => s.pc == Running
    case AddBuffer => (s.pc == Running || s.pc == Waiting) && s.added - s.got < 32768
    case TakeBack => s.pc == Running && s.got < s.used
    case ClearFlag(_) => s.pc == Running
    case WriteEvent => s.pc.FlagCleared?
    case Poll => s.pc.EventWritten?
    case TakeInterrupt => s.irq
    case UseBuffer => s.used < s.added && s.used - s.signalled < U16 - 1
    case DecideInterrupt => true
  }

  /** 16-bit difference of two positions, as the driver computes it. */
  function Distance(b: nat, a: nat): nat {
    (b % U16 + U16 - a % U16) % U16
  }

  function Next(s: State, a: Action): State
    requires Enabled(s, a)
  {
    match a
    case DisableCb => s.(noInterrupt := true)
    case AddBuffer => s.(added := s.added + 1)
    case TakeBack => s.(got := s.got + 1, usedEvent := if s.noInterrupt then s.usedEvent else (s.got + 1) % U16)
    case ClearFlag(delayed) => s.(pc := FlagCleared(delayed), noInterrupt := false)
    case WriteEvent =>
      var bufs := if s.pc.delayed then Distance(s.added, s.got) * 3 / 4 % U16 else 0;
      s.(pc := EventWritten(s.pc.delayed), bufs := bufs, usedEvent := (s.got % U16 + bufs) % U16, want := s.got + bufs)
    case Poll =>
      var busy := if s.pc.delayed then Distance(s.used, s.got) > s.bufs else s.used % U16 != s.got % U16;
      s.(pc := if busy then Running else Waiting)
    case TakeInterrupt => s.(irq := false, pc := if s.pc == Waiting then Running else s.pc)
    case UseBuffer => s.(used := s.used + 1)
    case DecideInterrupt =>
      var interrupt := if s.eventIdx then NeedEvent(s.usedEvent, s.used % U16, s.signalled % U16) else !s.noInterrupt;
      s.(irq := s.irq || interrupt, signalled := s.used)
  }

  ghost predicate Counted(s: State) {
    s.got <= s.used <= s.added <= s.got + 32768 && s.signalled <= s.used < s.signalled + U16
  }

  /** The event index stands for the wanted position, which lies before the last outstanding buffer. */
  ghost predicate EventSet(s: State) {
    && !s.noInterrupt && s.usedEvent == s.want % U16 && s.got <= s.want <= s.got + 24576
    && (s.want < s.added || s.want == s.got)
  }

  /** A waiting driver has interrupts on and its event index set, and either the interrupt is on its
      way or the device has not decided past the wanted position. */
  ghost predicate Inv(s: State) {
    && Counted(s)
    && (s.pc.FlagCleared? ==> !s.noInterrupt)
    && (s.pc.EventWritten? ==> EventSet(s) && s.bufs == s.want - s.got && (!s.pc.delayed ==> s.bufs == 0))
    && (s.pc == Waiting ==> EventSet(s) && (s.irq || s.signalled <= s.want))
  }

  lemma WriteKeepsInv(s: State)
    requires Inv(s) && s.pc.FlagCleared?
    ensures Inv(Next(s, WriteEvent))
    ensures s.pc.delayed ==> Next(s, WriteEvent).want == s.got + 3 * (s.added - s.got) / 4
  {
    IndexDistance(s.got, s.added);
    ThreeQuarters(s.added - s.got);
    SumIndex(s.got, Next(s, WriteEvent).bufs);
  }

  lemma PollKeepsInv(s: State)
    requires Inv(s) && s.pc.EventWritten?
    ensures Inv(Next(s, Poll)) && (Next(s, Poll).pc == Waiting <==> s.used <= s.want)
  {
    IndexDistance(s.got, s.used);
  }

  lemma DecideKeepsInv(s: State)
    requires Inv(s)
    ensures Inv(Next(s, DecideInterrupt))
  {
    if s.pc == Waiting && s.eventIdx && s.signalled <= s.want < s.used {
      EventWindow(s.signalled, s.used, s.usedEvent);
    }
  }

  lemma NextKeepsInv(s: State, a: Action)
    requires Inv(s) && Enabled(s, a)
    ensures Inv(Next(s, a))
  {
    match a
    case WriteEvent => WriteKeepsInv(s);
    case Poll => PollKeepsInv(s);
    case DecideInterrupt => DecideKeepsInv(s);
    case _ =>
  }

  ghost predicate Legal(s: State, actions: seq<Action>)
    decreases |actions|
  {
    actions == [] || (Enabled(s, actions[0]) && Legal(Next(s, actions[0]), actions[1..]))
  }

  ghost function Run(s: State, actions: seq<Action>): State
    requires Legal(s, actions)
    decreases |actions|
  {
    if actions == [] then s else Run(Next(s, actions[0]), actions[1..])
  }

  lemma {:induction false} RunKeepsInv(s: State, actions: seq<Action>)
    requires Inv(s) && Legal(s, actions)
    ensures Inv(Run(s, actions))
    decreases |actions|
  {
    if actions != [] {
      NextKeepsInv(s, actions[0]);
      RunKeepsInv(Next(s, actions[0]), actions[1..]);
    }
  }

  ghost predicate Initial(s: State) {
    s.pc == Running && s.added == s.used == s.got == s.signalled == 0
  }

  /** The queue that the driver has at these positions. */
  ghost predicate Mirrors(s: State, q: Queue) {
    && q.lastUsed == s.got % U16 && q.availIdx == s.added % U16
    && q.usedEvent == s.usedEvent && q.noInterrupt == s.noInterrupt
  }

  /** The driver's steps are those of the queue's own functions: what the enables write and poll, and below
      what taking a buffer back does to the event index. */
  lemma EnablesMatchQueue(s: State, q: Queue)
    requires Inv(s) && Mirrors(s, q)
    ensures s.pc.FlagCleared? ==>
              Next(s, WriteEvent).usedEvent == if s.pc.delayed then DelayedEvent(q) else q.lastUsed
  {
  }

  lemma PollsMatchQueue(s: State, q: Queue)
    requires Inv(s) && Mirrors(s, q) && s.pc.EventWritten? && (s.pc.delayed ==> s.bufs == DelayedBufs(q))
    ensures Next(s, Poll).pc == Waiting <==>
            if s.pc.delayed then !DelayedBusy(q, s.used % U16) else s.used % U16 == q.lastUsed
  {
  }

  lemma TakeBackMatchesQueue(s: State, q: Queue, id: nat)
    requires Inv(s) && Mirrors(s, q) && s.pc == Running && s.got < s.used
    requires VirtqueueSpec.Inv(q) && !q.broken && id in q.chains
    ensures Mirrors(Next(s, TakeBack), Get(q, s.used % U16, id).0)
  {
    IndexDistance(s.got, s.used);
    IncIndex(s.got);
  }

  /** No lost wakeup: in every order of steps, once either enable has told the driver to sleep, a
      device that has passed the wanted position and decided leaves an interrupt pending. Using up
      all outstanding buffers always passes it. */
  lemma NoLostWakeup(s: State, actions: seq<Action>)
    requires Initial(s) && Legal(s, actions)
    ensures
      var t := Run(s, actions);
      t.pc == Waiting ==>
        && !t.noInterrupt && t.usedEvent == t.want % U16
        && (t.used > t.want && t.signalled == t.used ==> t.irq)
        && (t.used == t.added > t.got && t.signalled == t.used ==> t.irq)
  {
    RunKeepsInv(s, actions);
  }

  /** Either enable, undisturbed, turns interrupts on and puts the driver to sleep exactly when the device has
      not passed the wanted position. */
  lemma EnableSleeps(s: State, delayed: bool) returns (a: State, b: State, t: State)
    requires Inv(s) && s.pc == Running
    ensures Enabled(s, ClearFlag(delayed)) && a == Next(s, ClearFlag(delayed))
    ensures Enabled(a, WriteEvent) && b == Next(a, WriteEvent) && Enabled(b, Poll) && t == Next(b, Poll)
    ensures !t.noInterrupt && t.want == s.got + (if delayed then 3 * (s.added - s.got) / 4 else 0)
    ensures t.pc == if s.used <= t.want then Waiting else Running
  {
    a := Next(s, ClearFlag(delayed));
    WriteKeepsInv(a);
    b := Next(a, WriteEvent);
    PollKeepsInv(b);
    t := Next(b, Poll);
  }

  /** A device that uses another buffer, passes the wanted position with it and decides wakes the driver. */
  lemma DeviceWakes(s: State) returns (a: State, b: State)
    requires Inv(s) && s.pc == Waiting && s.used == s.want < s.added && s.used - s.signalled < U16 - 1
    ensures Enabled(s, UseBuffer) && a == Next(s, UseBuffer) && b == Next(a, DecideInterrupt)
    ensures b.used == s.used + 1 && Enabled(b, TakeInterrupt) && Next(b, TakeInterrupt).pc == Running
  {
    a := Next(s, UseBuffer);
    DecideKeepsInv(a);
    b := Next(a, DecideInterrupt);
  }

  /** The wanted position: the driver's own, or three quarters of the way through what is outstanding
      when the event index is written. */
  lemma WantedPosition(s: State, actions: seq<Action>, delayed: bool)
    requires Initial(s) && Legal(s, actions) && Run(s, actions).pc == FlagCleared(delayed)
    ensures var t := Run(s, actions);
            Next(t, WriteEvent).want == t.got + if delayed then 3 * (t.added - t.got) / 4 else 0
  {
    RunKeepsInv(s, actions);
    WriteKeepsInv(Run(s, actions));
  }
}
