/**
 The protocol of VirtqueueProtocol, one shared access at a time: an addition writes its slot before it
 publishes the index, the device reads the index before it reads a slot, and the used ring goes the same
 way back. Driver and device interleave between any two accesses.
 */
module VirtqueueAccess {
  import opened Bits
  import opened VirtqueueSpec
  import opened VirtqueueProtocol
  import opened Wrappers

  /** Where the driver is: `idx` is the used index it has read, which counted `at` buffers. */
  datatype Driver = Ready | SlotWritten(add: VirtqueueProtocol.Step) | IndexRead(idx: nat, at: nat)

  /** `s` is the state up to the last publication of either side; `ring` and `used` are the slots as they
      are in memory, one of which may be ahead of it. `pushing` is the head whose used element is written
      but not published, `seen` the available index that the device has read, which counted `seenAt` heads.
      `fetched` and `gotten` are what the two sides have read from the slots. */
  datatype State = State(s: Sys, ring: seq<nat>, used: seq<nat>, drv: Driver, pushing: Option<nat>,
                         seen: nat, seenAt: nat, fetched: seq<nat>, gotten: seq<nat>)

  datatype Access =
    | WriteSlot(add: VirtqueueProtocol.Step) | PublishHead | DriverKicks(needed: bool, ok: bool)
    | ReadUsedIndex | ReadElement
    | ReadAvailIndex | ReadSlot
    | WriteElement(h: nat) | PublishElement

  // ---------------------------------------------------------------- accesses

  ghost predicate Enabled(f: State, a: Access) {
    match a
    case WriteSlot(add) => f.drv.Ready? && add.DriverAdd? && VirtqueueProtocol.Enabled(f.s, add)
    case PublishHead => f.drv.SlotWritten?
    case DriverKicks(_, _) => f.drv.Ready?
    case ReadUsedIndex => f.drv.Ready? && !f.s.q.broken
    case ReadElement => f.drv.IndexRead?
    case ReadAvailIndex => true
    case ReadSlot => f.s.devAvail != f.seen
    case WriteElement(h) => f.pushing.None? && VirtqueueProtocol.Enabled(f.s, DevicePush(h))
    case PublishElement => f.pushing.Some?
  }

  ghost function Next(f: State, a: Access): State
    requires Inv(f) && Enabled(f, a)
  {
    var s, num := f.s, f.s.q.num;
    match a
    case WriteSlot(add) => f.(ring := f.ring[s.q.availIdx % num := s.q.free[0]], drv := SlotWritten(add))
    case PublishHead => f.(s := VirtqueueProtocol.Next(s, f.drv.add), drv := Ready)
    case DriverKicks(needed, ok) => f.(s := VirtqueueProtocol.Next(s, DriverKick(needed, ok)))
    case ReadUsedIndex => f.(drv := IndexRead(s.usedIdx, |s.done|))
    case ReadElement =>
      if f.drv.idx == s.q.lastUsed then f.(drv := Ready)
      else
        var id := f.used[s.q.lastUsed % num];
        f.(s := TakeBack(s, f.drv.idx, id), drv := Ready, gotten := f.gotten + [id])
    case ReadAvailIndex => f.(seen := s.q.availIdx, seenAt := |s.heads|)
    case ReadSlot =>
      var h := f.ring[s.devAvail % num];
      f.(s := TakeHead(s, h), fetched := f.fetched + [h])
    case WriteElement(h) => f.(used := f.used[s.usedIdx % num := h], pushing := Some(h))
    case PublishElement => f.(s := VirtqueueProtocol.Next(s, DevicePush(f.pushing.value)), pushing := None)
  }

  // ---------------------------------------------------------------- invariant

  /** In memory the available ring is that of the last publication, but for a slot written since. */
  ghost predicate RingAgrees(s: Sys, ring: seq<nat>, drv: Driver) {
    && s.q.num > 0 && |s.q.ring| == s.q.num
    && (drv.SlotWritten? ==> drv.add.DriverAdd? && VirtqueueProtocol.Enabled(s, drv.add) && |s.q.free| > 0)
    && ring == if drv.SlotWritten? then s.q.ring[s.q.availIdx % s.q.num := s.q.free[0]] else s.q.ring
  }

  ghost predicate UsedAgrees(s: Sys, used: seq<nat>, pushing: Option<nat>) {
    && s.q.num > 0 && |s.used| == s.q.num
    && (pushing.Some? ==> VirtqueueProtocol.Enabled(s, DevicePush(pushing.value)))
    && used == if pushing.Some? then s.used[s.usedIdx % s.q.num := pushing.value] else s.used
  }

  /** An index once read may be old, but it is not behind what was taken since. */
  ghost predicate SeenOk(s: Sys, seen: nat, seenAt: nat) {
    seen == seenAt % U16 && |s.taken| <= seenAt <= |s.heads|
  }

  ghost predicate DriverOk(s: Sys, drv: Driver) {
    drv.IndexRead? ==> drv.idx == drv.at % U16 && s.got <= drv.at <= |s.done| && !s.q.broken
  }

  ghost predicate Memory(f: State) {
    && RingAgrees(f.s, f.ring, f.drv) && UsedAgrees(f.s, f.used, f.pushing)
    && SeenOk(f.s, f.seen, f.seenAt) && DriverOk(f.s, f.drv)
    && f.fetched == f.s.taken && f.s.got <= |f.s.done| && f.gotten == f.s.done[..f.s.got]
  }

  ghost predicate Inv(f: State) {
    SysInv(f.s) && Memory(f)
  }

  // ---------------------------------------------------------------- every access keeps it

  /** The slot being written is not one that the device may still read. */
  lemma SlotInPlace(f: State, k: nat)
    requires Inv(f) && |f.s.taken| <= k < |f.s.heads|
    ensures f.ring[Slot(k, f.s.q.num)] == f.s.q.ring[Slot(k, f.s.q.num)] == f.s.heads[k]
  {
    assert PendingAt(f.s, k);
    if f.drv.SlotWritten? {
      NextSlot(f.s);
      SlotsDiffer(k, |f.s.heads|, f.s.q.num);
    }
  }

  /** The element being written is not one that the driver may still read. */
  lemma ElementInPlace(f: State, k: nat)
    requires Inv(f) && f.s.got <= k < |f.s.done|
    ensures f.used[Slot(k, f.s.q.num)] == f.s.used[Slot(k, f.s.q.num)] == f.s.done[k]
  {
    var s := f.s;
    assert DoneAt(s, k);
    if f.pushing.Some? {
      RingHasRoom(s);
      assert StageOk(s, f.pushing.value);
      assert s.inflight != {};
      SlotOf(|s.done|, s.q.num);
      SlotsDiffer(k, |s.done|, s.q.num);
    }
  }

  lemma SlotSteps(f: State)
    requires Inv(f) && Enabled(f, ReadSlot)
    ensures |f.s.taken| < f.seenAt && Steps(f.s, DeviceTake, Next(f, ReadSlot).s)
  {
    RingHasRoom(f.s);
    HeadUnread(f.s, f.seen, f.seenAt);
    SlotOf(|f.s.taken|, f.s.q.num);
    SlotInPlace(f, |f.s.taken|);
  }

  lemma HeadUnread(s: Sys, seen: nat, seenAt: nat)
    requires Indices(s) && SeenOk(s, seen, seenAt) && s.devAvail != seen && |s.heads| <= |s.taken| + 32768
    ensures |s.taken| < seenAt && s.devAvail != s.q.availIdx
  {
    IndexDistance(|s.taken|, |s.heads|);
  }

  lemma SlotMemory(f: State, h: nat)
    requires Memory(f) && |f.s.taken| < f.seenAt
    ensures Memory(f.(s := TakeHead(f.s, h), fetched := f.fetched + [h]))
  {
  }

  lemma SlotKeeps(f: State)
    requires Inv(f) && Enabled(f, ReadSlot)
    ensures Inv(Next(f, ReadSlot)) && Steps(f.s, DeviceTake, Next(f, ReadSlot).s)
  {
    SlotSteps(f);
    SlotMemory(f, f.ring[f.s.devAvail % f.s.q.num]);
    StepKeeps(f.s, DeviceTake, Next(f, ReadSlot).s);
  }

  lemma WriteSlotKeeps(f: State, a: Access)
    requires Inv(f) && a.WriteSlot? && Enabled(f, a)
    ensures Inv(Next(f, a)) && Next(f, a).s == f.s
  {
  }

  lemma HeadMemory(f: State, t: Sys)
    requires Memory(f) && f.drv.SlotWritten? && f.s.q.free[0] !in f.s.stage && AddsHead(f.s.q, t.q, f.s.q.free[0])
    requires var s, h := f.s, f.s.q.free[0];
             t == s.(q := t.q, heads := s.heads + [h], stage := s.stage[h := Pending(|s.heads|)], kicked := t.kicked)
    ensures Memory(f.(s := t, drv := Ready))
  {
  }

  lemma PublishHeadKeeps(f: State)
    requires Inv(f) && Enabled(f, PublishHead)
    ensures Inv(Next(f, PublishHead)) && Steps(f.s, f.drv.add, Next(f, PublishHead).s)
  {
    var s, add := f.s, f.drv.add;
    AddFacts(s.q, add.buf, add.token, add.table, add.needed, add.notifyOk);
    HeadMemory(f, Next(f, PublishHead).s);
    StepKeeps(s, add, Next(f, PublishHead).s);
  }

  lemma KickKeeps(f: State, a: Access)
    requires Inv(f) && a.DriverKicks? && Enabled(f, a)
    ensures Inv(Next(f, a)) && Steps(f.s, DriverKick(a.needed, a.ok), Next(f, a).s)
  {
    StepKeeps(f.s, DriverKick(a.needed, a.ok), Next(f, a).s);
  }

  lemma IndexKeeps(f: State, a: Access)
    requires Inv(f) && (a.ReadUsedIndex? || a.ReadAvailIndex?) && Enabled(f, a)
    ensures Inv(Next(f, a)) && Next(f, a).s == f.s
  {
  }

  /** The driver takes back what the coarser protocol lets it take, even if its index is old. */
  lemma ElementSteps(f: State)
    requires Inv(f) && Enabled(f, ReadElement) && f.drv.idx != f.s.q.lastUsed
    ensures f.s.got < |f.s.done| && Steps(f.s, DriverGet, Next(f, ReadElement).s)
    ensures var id := f.s.done[f.s.got];
            && Next(f, ReadElement).gotten == f.gotten + [id] && id in f.s.q.chains && f.s.stage[id] == Done(f.s.got)
            && Next(f, ReadElement).s == f.s.(q := Get(f.s.q, f.s.usedIdx, id).0, got := f.s.got + 1,
                    stage := f.s.stage - {id})
  {
    assert f.s.got < f.drv.at;
    SlotOf(f.s.got, f.s.q.num);
    ElementInPlace(f, f.s.got);
    GetTakesUsed(f.s);
  }

  lemma ElementMemory(f: State, q: Queue, id: nat)
    requires Memory(f) && f.drv.IndexRead? && f.s.got < |f.s.done| && id == f.s.done[f.s.got]
    requires id in f.s.stage && f.s.stage[id].Done?
    requires q.num == f.s.q.num && q.ring == f.s.q.ring
    ensures Memory(f.(s := f.s.(q := q, got := f.s.got + 1, stage := f.s.stage - {id}), drv := Ready,
                      gotten := f.gotten + [id]))
  {
  }

  lemma ReadElementKeeps(f: State)
    requires Inv(f) && Enabled(f, ReadElement)
    ensures Inv(Next(f, ReadElement))
    ensures if f.drv.idx == f.s.q.lastUsed then Next(f, ReadElement).s == f.s
            else Steps(f.s, DriverGet, Next(f, ReadElement).s)
  {
    if f.drv.idx != f.s.q.lastUsed {
      ElementSteps(f);
      ElementMemory(f, Next(f, ReadElement).s.q, f.s.done[f.s.got]);
      StepKeeps(f.s, DriverGet, Next(f, ReadElement).s);
    }
  }

  lemma WriteElementKeeps(f: State, a: Access)
    requires Inv(f) && a.WriteElement? && Enabled(f, a)
    ensures Inv(Next(f, a)) && Next(f, a).s == f.s
  {
  }

  lemma PublishElementMemory(f: State, t: Sys)
    requires Memory(f) && f.pushing.Some?
    requires var s, h := f.s, f.pushing.value;
             t == s.(used := f.used, usedIdx := t.usedIdx, done := s.done + [h],
                     stage := t.stage, inflight := t.inflight)
    ensures Memory(f.(s := t, pushing := None))
  {
  }

  lemma PublishElementKeeps(f: State)
    requires Inv(f) && Enabled(f, PublishElement)
    ensures Inv(Next(f, PublishElement)) && Steps(f.s, DevicePush(f.pushing.value), Next(f, PublishElement).s)
  {
    PublishElementMemory(f, Next(f, PublishElement).s);
    StepKeeps(f.s, DevicePush(f.pushing.value), Next(f, PublishElement).s);
  }

  /** The step of the coarser protocol that an access completes. */
  ghost function Completes(f: State, a: Access): Option<VirtqueueProtocol.Step> {
    match a
    case PublishHead => if f.drv.SlotWritten? then Some(f.drv.add) else None
    case DriverKicks(needed, ok) => Some(DriverKick(needed, ok))
    case ReadElement => if f.drv.IndexRead? && f.drv.idx != f.s.q.lastUsed then Some(DriverGet) else None
    case ReadSlot => Some(DeviceTake)
    case PublishElement => if f.pushing.Some? then Some(DevicePush(f.pushing.value)) else None
    case _ => None
  }

  /** Every access keeps the invariant, and either leaves the published state alone or completes a step of
      the coarser protocol. */
  lemma AccessKeeps(f: State, a: Access)
    requires Inv(f) && Enabled(f, a)
    ensures Inv(Next(f, a))
    ensures match Completes(f, a)
            case None => Next(f, a).s == f.s
            case Some(step) => Steps(f.s, step, Next(f, a).s)
  {
    match a
    case WriteSlot(_) => WriteSlotKeeps(f, a);
    case PublishHead => PublishHeadKeeps(f);
    case DriverKicks(_, _) => KickKeeps(f, a);
    case ReadUsedIndex => IndexKeeps(f, a);
    case ReadElement => ReadElementKeeps(f);
    case ReadAvailIndex => IndexKeeps(f, a);
    case ReadSlot => SlotKeeps(f);
    case WriteElement(_) => WriteElementKeeps(f, a);
    case PublishElement => PublishElementKeeps(f);
  }

  // ---------------------------------------------------------------- runs

  ghost predicate Legal(f: State, accesses: seq<Access>)
    requires Inv(f)
    decreases |accesses|
  {
    accesses == [] ||
    (Enabled(f, accesses[0]) && (AccessKeeps(f, accesses[0]); Legal(Next(f, accesses[0]), accesses[1..])))
  }

  ghost function Run(f: State, accesses: seq<Access>): (g: State)
    requires Inv(f) && Legal(f, accesses)
    ensures Inv(g)
    decreases |accesses|
  {
    if accesses == [] then f else AccessKeeps(f, accesses[0]); Run(Next(f, accesses[0]), accesses[1..])
  }

  ghost function Boot(num: nat, noInterrupt: bool): (f: State)
    requires IsPow2(num) && num <= 32768
    ensures Inv(f)
  {
    var s := VirtqueueProtocol.Boot(num, noInterrupt);
    State(s, s.q.ring, s.used, Ready, None, 0, 0, [], [])
  }

  /** Every run of single accesses publishes what a run of whole operations would. */
  lemma {:induction false} AccessesAreSteps(f: State, accesses: seq<Access>)
    returns (steps: seq<VirtqueueProtocol.Step>)
    requires Inv(f) && Legal(f, accesses)
    ensures VirtqueueProtocol.Legal(f.s, steps) && VirtqueueProtocol.Run(f.s, steps) == Run(f, accesses).s
    decreases |accesses|
  {
    if accesses == [] {
      steps := [];
    } else {
      AccessKeeps(f, accesses[0]);
      var rest := AccessesAreSteps(Next(f, accesses[0]), accesses[1..]);
      steps := rest;
      if Completes(f, accesses[0]).Some? {
        steps := [Completes(f, accesses[0]).value] + rest;
        assert steps[1..] == rest;
      }
    }
  }

  /** In every interleaving of single accesses the device has read the added heads in order, each exactly
      once, the driver has read the used ones in the same way, and whatever has been published and not read
      is still in its slot, however often the 16-bit indices have wrapped. */
  lemma ReadsInOrder(num: nat, noInterrupt: bool, accesses: seq<Access>)
    requires IsPow2(num) && num <= 32768
    requires Legal(Boot(num, noInterrupt), accesses)
    ensures
      var f := Run(Boot(num, noInterrupt), accesses);
      && f.fetched <= f.s.heads && f.gotten <= f.s.done
      && f.s.q.availIdx == |f.s.heads| % U16 && f.s.usedIdx == |f.s.done| % U16
      && f.s.q.num > 0 && |f.ring| == |f.used| == f.s.q.num
      && (forall k :: |f.fetched| <= k < |f.s.heads| ==> f.ring[Slot(k, f.s.q.num)] == f.s.heads[k])
      && (forall k :: |f.gotten| <= k < |f.s.done| ==> f.used[Slot(k, f.s.q.num)] == f.s.done[k])
  {
    var f := Run(Boot(num, noInterrupt), accesses);
    forall k | |f.fetched| <= k < |f.s.heads| ensures f.ring[Slot(k, f.s.q.num)] == f.s.heads[k] { SlotInPlace(f, k); }
    forall k | |f.gotten| <= k < |f.s.done| ensures f.used[Slot(k, f.s.q.num)] == f.s.done[k] { ElementInPlace(f, k); }
  }

  /** One access leads from `f` to `g`. */
  ghost predicate Does(f: State, a: Access, g: State) {
    Inv(f) && Enabled(f, a) && g == Next(f, a)
  }

  /** Nothing is under way on either side. */
  ghost predicate Quiet(f: State) {
    f.drv.Ready? && f.pushing.None? && RingsIdle(f.s)
  }

  lemma AddAccesses(f: State, add: VirtqueueProtocol.Step, added: Sys) returns (m: State, g: State)
    requires Inv(f) && f.drv.Ready? && add.DriverAdd? && Steps(f.s, add, added)
    ensures Does(f, WriteSlot(add), m) && Does(m, PublishHead, g) && Inv(g)
    ensures g.s == added && g.drv.Ready? && g.pushing == f.pushing && g.fetched == f.fetched && g.gotten == f.gotten
  {
    m := Next(f, WriteSlot(add));
    WriteSlotKeeps(f, WriteSlot(add));
    PublishHeadKeeps(m);
    g := Next(m, PublishHead);
  }

  lemma TakeAccesses(f: State, h: nat) returns (m: State, g: State)
    requires Inv(f) && |f.s.heads| == |f.s.taken| + 1 && f.s.heads[|f.s.taken|] == h
    ensures Does(f, ReadAvailIndex, m) && Does(m, ReadSlot, g) && Inv(g)
    ensures g.s == TakeHead(f.s, h) && g.fetched == f.fetched + [h]
    ensures g.drv == f.drv && g.pushing == f.pushing && g.gotten == f.gotten
  {
    m := Next(f, ReadAvailIndex);
    IndexKeeps(f, ReadAvailIndex);
    NewHeadSeen(f.s);
    SlotOf(|f.s.taken|, f.s.q.num);
    SlotInPlace(m, |f.s.taken|);
    SlotKeeps(m);
    g := Next(m, ReadSlot);
  }

  lemma NewHeadSeen(s: Sys)
    requires Indices(s) && |s.heads| == |s.taken| + 1
    ensures s.devAvail != s.q.availIdx
  {
    IndexDistance(|s.taken|, |s.heads|);
  }

  lemma PushAccesses(f: State, h: nat) returns (m: State, g: State)
    requires Inv(f) && f.pushing.None? && h in f.s.stage && f.s.stage[h] == Taken
    ensures Does(f, WriteElement(h), m) && Does(m, PublishElement, g) && Inv(g)
    ensures Steps(f.s, DevicePush(h), g.s)
    ensures g.pushing.None? && g.drv == f.drv && g.fetched == f.fetched && g.gotten == f.gotten
  {
    m := Next(f, WriteElement(h));
    WriteElementKeeps(f, WriteElement(h));
    PublishElementKeeps(m);
    g := Next(m, PublishElement);
  }

  lemma GetAccesses(f: State, h: nat) returns (m: State, g: State)
    requires Inv(f) && f.drv.Ready? && !f.s.q.broken && |f.s.done| == f.s.got + 1 && f.s.done[f.s.got] == h
    ensures Does(f, ReadUsedIndex, m) && Does(m, ReadElement, g)
    ensures Steps(f.s, DriverGet, g.s) && g.gotten == f.gotten + [h]
    ensures g.drv.Ready? && g.pushing == f.pushing && g.fetched == f.fetched
  {
    m := Next(f, ReadUsedIndex);
    IndexKeeps(f, ReadUsedIndex);
    NewElementSeen(f.s);
    ElementSteps(m);
    g := Next(m, ReadElement);
  }

  lemma NewElementSeen(s: Sys)
    requires Indices(s) && |s.done| == s.got + 1
    ensures s.usedIdx != s.q.lastUsed
  {
    IndexDistance(s.got, |s.done|);
  }

  /** Over idle rings a buffer goes all the way round, access by access: the device reads its head, the
      driver reads it back, and everything is idle again. */
  lemma BufferGoesRound(f: State, add: VirtqueueProtocol.Step)
    returns (f1: State, f2: State, f3: State, f4: State, f5: State, f6: State, f7: State, g: State)
    requires Inv(f) && Quiet(f) && !f.s.q.broken && add.DriverAdd? && (add.needed ==> add.notifyOk)
    requires 0 < |add.buf| && (if add.table.Some? then 1 else |add.buf|) <= |f.s.q.free|
    ensures var h := f.s.q.free[0];
            && Does(f, WriteSlot(add), f1) && Does(f1, PublishHead, f2)
            && Does(f2, ReadAvailIndex, f3) && Does(f3, ReadSlot, f4)
            && Does(f4, WriteElement(h), f5) && Does(f5, PublishElement, f6)
            && Does(f6, ReadUsedIndex, f7) && Does(f7, ReadElement, g)
            && g.fetched == f.fetched + [h] && g.gotten == f.gotten + [h]
            && Quiet(g) && g.s.q.chains == f.s.q.chains
  {
    var h := f.s.q.free[0];
    var added := AddGoes(f.s, add);
    f1, f2 := AddAccesses(f, add, added);
    f3, f4 := TakeAccesses(f2, h);
    f5, f6 := PushAccesses(f4, h);
    var used := PushGoes(f4.s, h);
    f7, g := GetAccesses(f6, h);
    var back := GetGoes(f6.s, h);
  }
}
