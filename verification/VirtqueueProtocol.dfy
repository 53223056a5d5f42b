/**
 Driver and device side by side over shared ring memory, one operation at a time. The device
 takes heads from the available ring and returns each taken head once; nothing else is assumed
 about its order or speed. VirtqueueAccess takes the operations apart into single accesses.
 */
module VirtqueueProtocol {
  import opened Bits
  import opened VirtqueueSpec
  import opened Wrappers

  /** Where an outstanding buffer is: unread in the available ring, with the device, or used. */
  datatype Stage = Pending(k: nat) | Taken | Done(k: nat)

  /** `heads`, `taken` and `done` are the whole history of the two rings: heads published by the
      driver, read by the device, and put in the used ring. `got` counts what the driver took back
      and `kicked` what it had published at its last kick. */
  datatype Sys = Sys(q: Queue, used: seq<nat>, usedIdx: nat, devAvail: nat,
                     heads: seq<nat>, taken: seq<nat>, done: seq<nat>, got: nat, kicked: nat,
                     stage: map<nat, Stage>, inflight: set<nat>)

  datatype Step =
    | DriverAdd(buf: seq<Piece>, token: Token, table: Option<nat>, needed: bool, notifyOk: bool)
    | DriverGet
    | DriverKick(kickNeeded: bool, kickOk: bool)
    | DeviceTake
    | DevicePush(h: nat)

  // ---------------------------------------------------------------- steps

  ghost predicate Enabled(s: Sys, step: Step) {
    match step
    case DriverAdd(buf, _, table, _, _) => !s.q.broken && |buf| > 0 && Used(buf, table) <= |s.q.free|
    case DriverGet => true
    case DriverKick(_, _) => true
    case DeviceTake => s.devAvail != s.q.availIdx
    case DevicePush(h) => h in s.stage && s.stage[h] == Taken
  }

  /** The driver takes a buffer back after it read `usedIdx` and `id` from the used ring. */
  ghost function TakeBack(s: Sys, usedIdx: nat, id: nat): Sys
    requires Inv(s.q)
  {
    var r := Get(s.q, usedIdx, id);
    if r.1.None? then s.(q := r.0) else s.(q := r.0, got := s.got + 1, stage := s.stage - {id})
  }

  /** The device takes on the head that it read from the available ring. */
  ghost function TakeHead(s: Sys, h: nat): Sys {
    s.(devAvail := (s.devAvail + 1) % U16, taken := s.taken + [h], stage := s.stage[h := Taken],
       inflight := s.inflight + {h})
  }

  ghost function Next(s: Sys, step: Step): Sys
    requires Inv(s.q) && |s.used| == s.q.num && Enabled(s, step)
  {
    match step
    case DriverAdd(buf, token, table, needed, ok) =>
      var q, h := Add(s.q, buf, token, table, needed, ok), s.q.free[0];
      s.(q := q, heads := s.heads + [h], stage := s.stage[h := Pending(|s.heads|)],
         kicked := if q.numAdded == 0 then |s.heads| + 1 else s.kicked)
    case DriverGet => TakeBack(s, s.usedIdx, s.used[s.q.lastUsed % s.q.num])
    case DriverKick(needed, ok) => s.(q := Kick(s.q, needed, ok), kicked := |s.heads|)
    case DeviceTake => TakeHead(s, s.q.ring[s.devAvail % s.q.num])
    case DevicePush(h) =>
      s.(used := s.used[s.usedIdx % s.q.num := h], usedIdx := (s.usedIdx + 1) % U16, done := s.done + [h],
         stage := s.stage[h := Done(|s.done|)], inflight := s.inflight - {h})
  }

  // ---------------------------------------------------------------- invariant

  /** The ring slot of position `k`: its remainder, counted down. */
  function Slot(k: nat, num: nat): (r: nat)
    requires num > 0
    ensures r < num
    decreases k
  {
    if k < num then k else Slot(k - num, num)
  }

  ghost predicate PendingAt(s: Sys, k: nat)
    requires k < |s.heads| && s.q.num > 0 && |s.q.ring| == s.q.num
  {
    s.q.ring[Slot(k, s.q.num)] == s.heads[k] && s.heads[k] in s.stage && s.stage[s.heads[k]] == Pending(k)
  }

  ghost predicate DoneAt(s: Sys, k: nat)
    requires k < |s.done| && s.q.num > 0 && |s.used| == s.q.num
  {
    s.used[Slot(k, s.q.num)] == s.done[k] && s.done[k] in s.stage && s.stage[s.done[k]] == Done(k)
  }

  ghost predicate StageOk(s: Sys, h: nat)
    requires h in s.stage
  {
    match s.stage[h]
    case Pending(k) => |s.taken| <= k < |s.heads| && s.heads[k] == h && h !in s.inflight
    case Taken => h in s.inflight
    case Done(k) => s.got <= k < |s.done| && s.done[k] == h && h !in s.inflight
  }

  ghost predicate Indices(s: Sys) {
    && s.q.availIdx == |s.heads| % U16 && s.devAvail == |s.taken| % U16
    && s.usedIdx == |s.done| % U16 && s.q.lastUsed == s.got % U16
    && s.kicked <= |s.heads| && |s.heads| - s.kicked == s.q.numAdded
  }

  ghost predicate Counts(s: Sys) {
    && s.got <= |s.done| <= |s.taken| <= |s.heads|
    && s.taken == s.heads[..|s.taken|]
    && |s.heads| - s.got == |s.q.chains|
    && |s.taken| - |s.done| == |s.inflight|
  }

  ghost predicate StagesOk(s: Sys) {
    forall h :: h in s.stage ==> StageOk(s, h)
  }

  ghost predicate PendingsOk(s: Sys) {
    && s.q.num > 0 && |s.q.ring| == s.q.num
    && forall k :: |s.taken| <= k < |s.heads| ==> PendingAt(s, k)
  }

  ghost predicate DonesOk(s: Sys) {
    && s.q.num > 0 && |s.used| == s.q.num
    && forall k :: s.got <= k < |s.done| ==> DoneAt(s, k)
  }

  ghost predicate SysInv(s: Sys) {
    Inv(s.q) && Settled(s.q) && Shared(s)
  }

  /** What ties the two sides together. */
  ghost predicate Shared(s: Sys) {
    && |s.used| == s.q.num && Indices(s) && Counts(s)
    && s.stage.Keys == s.q.chains.Keys && s.inflight <= s.stage.Keys
    && StagesOk(s) && PendingsOk(s) && DonesOk(s)
  }

  // ---------------------------------------------------------------- ring arithmetic

  lemma {:induction false} SlotIsRemainder(k: nat, num: nat)
    requires num > 0
    ensures Slot(k, num) == k % num
    decreases k
  {
    if k >= num {
      SlotIsRemainder(k - num, num);
      var q, r := (k - num) / num, (k - num) % num;
      assert k - num == q * num + r;
      assert (q + 1) * num == q * num + num;
      UniqueMod(k, num, q + 1, r);
    }
  }

  lemma SlotOf(n: nat, num: nat)
    requires IsPow2(num) && num <= 32768
    ensures n % U16 % num == Slot(n, num)
  {
    Pow2Divides(num);
    var a, b := n / U16, U16 / num;
    var r := n % U16;
    assert U16 == b * num && n == a * U16 + r && r == (r / num) * num + r % num;
    assert n == (a * b + r / num) * num + r % num by {
      assert a * U16 == a * b * num;
      assert (a * b + r / num) * num == a * b * num + (r / num) * num;
    }
    UniqueMod(n, num, a * b + r / num, r % num);
    SlotIsRemainder(n, num);
  }

  /** Two positions less than a ring apart have different slots. */
  lemma {:induction false} SlotsDiffer(a: nat, b: nat, num: nat)
    requires num > 0 && a < b < a + num
    ensures Slot(a, num) != Slot(b, num)
    decreases a
  {
    if a >= num { SlotsDiffer(a - num, b - num, num); }
  }

  lemma IndexDistance(a: nat, b: nat)
    requires a <= b < a + U16
    ensures (b % U16 + U16 - a % U16) % U16 == b - a
    ensures a % U16 == b % U16 <==> a == b
  {
  }

  // ---------------------------------------------------------------- every step keeps the invariant

  /** Room in the available ring: what is unread never fills it while a descriptor is free. */
  lemma RingHasRoom(s: Sys)
    requires SysInv(s)
    ensures |s.heads| - |s.taken| + |s.q.free| <= s.q.num && |s.heads| - s.got + |s.q.free| <= s.q.num
  {
    OutstandingFits(s.q);
  }

  lemma IncIndex(n: nat)
    ensures (n % U16 + 1) % U16 == (n + 1) % U16
  {
  }

  /** Writing the next slot leaves every unread slot alone: it is less than a ring behind. */
  lemma PublishKeepsPendings(s: Sys, t: Sys, h: nat)
    requires PendingsOk(s) && h !in s.stage && |s.taken| <= |s.heads| < |s.taken| + s.q.num
    requires t.q.num == s.q.num && t.taken == s.taken && t.heads == s.heads + [h]
    requires t.q.ring == s.q.ring[Slot(|s.heads|, s.q.num) := h] && t.stage == s.stage[h := Pending(|s.heads|)]
    ensures PendingsOk(t)
  {
    forall k | |t.taken| <= k < |t.heads|
      ensures PendingAt(t, k)
    {
      if k < |s.heads| {
        assert PendingAt(s, k);
        SlotsDiffer(k, |s.heads|, s.q.num);
      }
    }
  }

  lemma PushKeepsDones(s: Sys, t: Sys, h: nat)
    requires DonesOk(s) && h in s.stage && s.stage[h] == Taken && s.got <= |s.done| < s.got + s.q.num
    requires t.q.num == s.q.num && t.got == s.got && t.done == s.done + [h]
    requires t.used == s.used[Slot(|s.done|, s.q.num) := h] && t.stage == s.stage[h := Done(|s.done|)]
    ensures DonesOk(t)
  {
    forall k | t.got <= k < |t.done|
      ensures DoneAt(t, k)
    {
      if k < |s.done| {
        assert DoneAt(s, k);
        SlotsDiffer(k, |s.done|, s.q.num);
      }
    }
  }

  /** Unread heads keep their slot and stage. */
  lemma KeepPendings(s: Sys, t: Sys)
    requires PendingsOk(s) && t.q.num == s.q.num && t.q.ring == s.q.ring && t.heads == s.heads && |s.taken| <= |t.taken|
    requires forall h :: h in s.stage && s.stage[h].Pending? && s.stage[h].k >= |t.taken| ==>
               h in t.stage && t.stage[h] == s.stage[h]
    ensures PendingsOk(t)
  {
    forall k | |t.taken| <= k < |t.heads| ensures PendingAt(t, k) { assert PendingAt(s, k); }
  }

  lemma KeepDones(s: Sys, t: Sys)
    requires DonesOk(s) && t.q.num == s.q.num && t.used == s.used && t.done == s.done && s.got <= t.got
    requires forall h :: h in s.stage && s.stage[h].Done? && s.stage[h].k >= t.got ==>
               h in t.stage && t.stage[h] == s.stage[h]
    ensures DonesOk(t)
  {
    forall k | t.got <= k < |t.done| ensures DoneAt(t, k) { assert DoneAt(s, k); }
  }

  /** What an addition has to do to the shared state to keep the invariant. */
  lemma AddKeepsShared(s: Sys, t: Sys, h: nat)
    requires Shared(s) && |s.heads| < |s.taken| + s.q.num && s.q.availIdx % s.q.num == Slot(|s.heads|, s.q.num)
    requires AddsHead(s.q, t.q, h)
    requires t == s.(q := t.q, heads := s.heads + [h], stage := s.stage[h := Pending(|s.heads|)],
                     kicked := if t.q.numAdded == 0 then |s.heads| + 1 else s.kicked)
    ensures Shared(t)
  {
    AddKeepsCounts(s, t, h);
    PublishKeepsPendings(s, t, h);
    KeepDones(s, t);
    AddKeepsStages(s, t, h);
  }

  /** What an addition does to the queue, as far as the device is concerned. */
  ghost predicate AddsHead(q: Queue, r: Queue, h: nat) {
    && 0 < q.num == r.num && h !in q.chains && |q.ring| == q.num && r.ring == q.ring[q.availIdx % q.num := h]
    && r.availIdx == (q.availIdx + 1) % U16 && r.lastUsed == q.lastUsed
    && r.chains.Keys == q.chains.Keys + {h} && |r.chains| == |q.chains| + 1
    && (r.numAdded == 0 || r.numAdded == q.numAdded + 1)
  }

  lemma AddKeepsCounts(s: Sys, t: Sys, h: nat)
    requires Indices(s) && Counts(s)
    requires t.q.availIdx == (s.q.availIdx + 1) % U16 && t.q.lastUsed == s.q.lastUsed
    requires |t.q.chains| == |s.q.chains| + 1
    requires t.kicked <= |s.heads| + 1 && |s.heads| + 1 - t.kicked == t.q.numAdded
    requires t == s.(q := t.q, heads := s.heads + [h], stage := t.stage, kicked := t.kicked)
    ensures Indices(t) && Counts(t)
  {
    IncIndex(|s.heads|);
    assert t.heads[..|s.taken|] == s.heads[..|s.taken|];
  }

  lemma AddSharedState(s: Sys, step: Step)
    requires SysInv(s) && step.DriverAdd? && Enabled(s, step)
    ensures Shared(Next(s, step))
  {
    AddFacts(s.q, step.buf, step.token, step.table, step.needed, step.notifyOk);
    NextSlot(s);
    AddKeepsShared(s, Next(s, step), s.q.free[0]);
  }

  lemma NextSlot(s: Sys)
    requires SysInv(s) && |s.q.free| > 0
    ensures |s.heads| < |s.taken| + s.q.num && s.q.availIdx % s.q.num == Slot(|s.heads|, s.q.num)
  {
    RingHasRoom(s);
    SlotOf(|s.heads|, s.q.num);
  }

  lemma AddKeepsSys(s: Sys, step: Step)
    requires SysInv(s) && step.DriverAdd? && Enabled(s, step)
    ensures SysInv(Next(s, step))
  {
    AddKeepsInv(s.q, step.buf, step.token, step.table, step.needed, step.notifyOk);
    AddSharedState(s, step);
  }

  lemma AttachFacts(q: Queue, buf: seq<Piece>, token: Token, table: Option<nat>)
    requires Inv(q) && |buf| > 0 && Used(buf, table) <= |q.free|
    ensures var r, h := Attach(q, buf, token, table), q.free[0];
            && h !in q.chains && r.chains.Keys == q.chains.Keys + {h} && |r.chains| == |q.chains| + 1
  {
    AttachKeepsPartition(q, buf, token, table);
    var r, h := Attach(q, buf, token, table), q.free[0];
    OneMore(q.chains, h, r.chains[h]);
  }

  lemma AddFacts(q: Queue, buf: seq<Piece>, token: Token, table: Option<nat>, needed: bool, ok: bool)
    requires Inv(q) && |buf| > 0 && Used(buf, table) <= |q.free|
    ensures AddsHead(q, Add(q, buf, token, table, needed, ok), q.free[0])
  {
    AttachFacts(q, buf, token, table);
  }

  lemma AddKeepsStages(s: Sys, t: Sys, h: nat)
    requires StagesOk(s) && h !in s.stage && h !in s.inflight && |s.taken| <= |s.heads|
    requires t.heads == s.heads + [h] && t.stage == s.stage[h := Pending(|s.heads|)]
    requires t.taken == s.taken && t.done == s.done && t.got == s.got && t.inflight == s.inflight
    ensures StagesOk(t)
  {
    forall g | g in t.stage ensures StageOk(t, g) { if g != h { assert StageOk(s, g); } }
  }

  lemma TakeKeepsStages(s: Sys, t: Sys, h: nat)
    requires StagesOk(s) && |s.taken| < |s.heads| && h in s.stage && s.stage[h] == Pending(|s.taken|)
    requires t.stage == s.stage[h := Taken] && t.inflight == s.inflight + {h} && t.taken == s.taken + [h]
    requires t.heads == s.heads && t.done == s.done && t.got == s.got
    ensures StagesOk(t)
  {
    assert StageOk(s, h);
    forall g | g in t.stage ensures StageOk(t, g) { assert StageOk(s, g); }
  }

  lemma TakeKeepsCounts(s: Sys, t: Sys, h: nat)
    requires Indices(s) && Counts(s) && |s.taken| < |s.heads| && h == s.heads[|s.taken|] && h !in s.inflight
    requires t == s.(devAvail := t.devAvail, taken := s.taken + [h], inflight := s.inflight + {h}, stage := t.stage)
    requires t.devAvail == (s.devAvail + 1) % U16
    ensures Indices(t) && Counts(t) && t.taken == s.heads[..|s.taken| + 1]
  {
    var r := |s.taken|;
    IncIndex(r);
    assert s.heads[..r + 1] == s.heads[..r] + [s.heads[r]];
  }

  lemma TakeKeepsShared(s: Sys, t: Sys, h: nat)
    requires Shared(s) && |s.taken| < |s.heads| && h == s.heads[|s.taken|]
    requires t == s.(devAvail := t.devAvail, taken := s.taken + [h], inflight := s.inflight + {h},
                     stage := s.stage[h := Taken])
    requires t.devAvail == (s.devAvail + 1) % U16
    ensures Shared(t) && t.taken == s.heads[..|s.taken| + 1]
  {
    assert PendingAt(s, |s.taken|);
    assert StageOk(s, h);
    TakeKeepsCounts(s, t, h);
    TakeKeepsStages(s, t, h);
    KeepPendings(s, t);
    KeepDones(s, t);
  }

  lemma TakeKeepsSys(s: Sys)
    requires SysInv(s) && Enabled(s, DeviceTake)
    ensures SysInv(Next(s, DeviceTake))
    ensures |s.taken| < |s.heads| && Next(s, DeviceTake).taken == s.heads[..|s.taken| + 1]
  {
    SlotOf(|s.taken|, s.q.num);
    assert PendingAt(s, |s.taken|);
    TakeKeepsShared(s, Next(s, DeviceTake), s.heads[|s.taken|]);
  }

  lemma PushKeepsStages(s: Sys, t: Sys, h: nat)
    requires StagesOk(s) && h in s.stage && s.stage[h] == Taken && s.got <= |s.done|
    requires t.stage == s.stage[h := Done(|s.done|)] && t.inflight == s.inflight - {h} && t.done == s.done + [h]
    requires t.heads == s.heads && t.taken == s.taken && t.got == s.got
    ensures StagesOk(t)
  {
    forall g | g in t.stage ensures StageOk(t, g) { assert StageOk(s, g); }
  }

  lemma PushKeepsSys(s: Sys, h: nat)
    requires SysInv(s) && Enabled(s, DevicePush(h))
    ensures SysInv(Next(s, DevicePush(h)))
  {
    var t := Next(s, DevicePush(h));
    RingHasRoom(s);
    assert StageOk(s, h);
    assert s.inflight != {};
    SlotOf(|s.done|, s.q.num);
    IncIndex(|s.done|);
    PushKeepsStages(s, t, h);
    PushKeepsDones(s, t, h);
    KeepPendings(s, t);
  }

  /** With a device that follows the protocol, a used buffer is always taken back: the id is that
      of an outstanding buffer, the queue is not broken by it, and buffers come back in used order. */
  lemma GetTakesUsed(s: Sys)
    requires SysInv(s) && !s.q.broken
    ensures var id := s.used[s.q.lastUsed % s.q.num];
            var r := Get(s.q, s.usedIdx, id);
            && !r.0.broken
            && (r.1.Some? <==> s.got < |s.done|)
            && (s.got < |s.done| ==> id == s.done[s.got] && id in s.q.chains && s.stage[id] == Done(s.got) &&
                                     r.1.value == s.q.chains[id].token)
  {
    RingHasRoom(s);
    IndexDistance(s.got, |s.done|);
    if s.got < |s.done| {
      SlotOf(s.got, s.q.num);
      assert DoneAt(s, s.got);
    }
  }

  lemma GetKeepsStages(s: Sys, t: Sys, id: nat)
    requires StagesOk(s) && s.got < |s.done| && id in s.stage && s.stage[id] == Done(s.got)
    requires t.stage == s.stage - {id} && t.got == s.got + 1
    requires t.heads == s.heads && t.taken == s.taken && t.done == s.done && t.inflight == s.inflight
    ensures StagesOk(t)
  {
    forall g | g in t.stage ensures StageOk(t, g) { assert StageOk(s, g) && StageOk(s, id); }
  }

  lemma OneLess<T>(m: map<nat, T>, id: nat)
    requires id in m
    ensures |m - {id}| == |m| - 1 && (m - {id}).Keys == m.Keys - {id}
  {
    assert m.Keys == (m - {id}).Keys + {id};
  }

  lemma OneMore<T>(m: map<nat, T>, id: nat, v: T)
    requires id !in m
    ensures |m[id := v]| == |m| + 1 && m[id := v].Keys == m.Keys + {id}
  {
    assert m[id := v].Keys == m.Keys + {id};
  }

  lemma GetKeepsCounts(s: Sys, t: Sys)
    requires Indices(s) && Counts(s) && s.got < |s.done| && |t.q.chains| == |s.q.chains| - 1
    requires t.q.availIdx == s.q.availIdx && t.q.numAdded == s.q.numAdded && t.q.lastUsed == (s.q.lastUsed + 1) % U16
    requires t == s.(q := t.q, got := s.got + 1, stage := t.stage)
    ensures Indices(t) && Counts(t)
  {
    IncIndex(s.got);
  }

  lemma GetKeepsShared(s: Sys, t: Sys, id: nat)
    requires Shared(s) && s.got < |s.done| && id in s.stage && s.stage[id] == Done(s.got)
    requires t.q.num == s.q.num && t.q.ring == s.q.ring && t.q.availIdx == s.q.availIdx && t.q.numAdded == s.q.numAdded
    requires t.q.lastUsed == (s.q.lastUsed + 1) % U16 && t.q.chains == s.q.chains - {id}
    requires t == s.(q := t.q, got := s.got + 1, stage := s.stage - {id})
    ensures Shared(t)
  {
    OneLess(s.q.chains, id);
    assert StageOk(s, id);
    GetKeepsCounts(s, t);
    GetKeepsStages(s, t, id);
    KeepPendings(s, t);
    KeepDones(s, t);
  }

  lemma GetKeepsSys(s: Sys)
    requires SysInv(s)
    ensures SysInv(Next(s, DriverGet))
  {
    var t := Next(s, DriverGet);
    var id := s.used[s.q.lastUsed % s.q.num];
    GetKeepsInv(s.q, s.usedIdx, id);
    if !s.q.broken { GetTakesUsed(s); }
    if t.got > s.got {
      GetKeepsShared(s, t, id);
    } else {
      KeepStages(s, t);
      KeepPendings(s, t);
      KeepDones(s, t);
    }
  }

  lemma KeepStages(s: Sys, t: Sys)
    requires StagesOk(s) && t == s.(q := t.q, kicked := t.kicked)
    ensures StagesOk(t)
  {
    forall g | g in t.stage ensures StageOk(t, g) { assert StageOk(s, g); }
  }

  lemma KickKeepsSys(s: Sys, step: Step)
    requires SysInv(s) && step.DriverKick?
    ensures SysInv(Next(s, step))
  {
    var t := Next(s, step);
    SamePartition(s.q, t.q);
    KeepStages(s, t);
    KeepPendings(s, t);
    KeepDones(s, t);
  }

  lemma NextKeepsSys(s: Sys, step: Step)
    requires SysInv(s) && Enabled(s, step)
    ensures SysInv(Next(s, step))
  {
    match step
    case DriverAdd(_, _, _, _, _) => AddKeepsSys(s, step);
    case DriverGet => GetKeepsSys(s);
    case DriverKick(_, _) => KickKeepsSys(s, step);
    case DeviceTake => TakeKeepsSys(s);
    case DevicePush(h) => PushKeepsSys(s, h);
  }

  // ---------------------------------------------------------------- runs

  ghost predicate Legal(s: Sys, steps: seq<Step>)
    requires SysInv(s)
    decreases |steps|
  {
    steps == [] || (Enabled(s, steps[0]) && (NextKeepsSys(s, steps[0]); Legal(Next(s, steps[0]), steps[1..])))
  }

  ghost function Run(s: Sys, steps: seq<Step>): (t: Sys)
    requires SysInv(s) && Legal(s, steps)
    ensures SysInv(t)
    decreases |steps|
  {
    if steps == [] then s else NextKeepsSys(s, steps[0]); Run(Next(s, steps[0]), steps[1..])
  }

  /** A new queue and a device that has seen nothing yet. */
  ghost function Boot(num: nat, noInterrupt: bool): (s: Sys)
    requires IsPow2(num) && num <= 32768
    ensures SysInv(s)
  {
    FreshInv(num, noInterrupt);
    Sys(Fresh(num, noInterrupt), seq(num, _ => 0), 0, 0, [], [], [], 0, 0, map[], {})
  }

  /** A new queue takes any buffer of 1 to `num` pieces. */
  lemma BootAccepts(num: nat, noInterrupt: bool, step: Step)
    requires IsPow2(num) && num <= 32768 && step.DriverAdd? && 0 < |step.buf| <= num
    ensures Enabled(Boot(num, noInterrupt), step)
  {
  }

  /** One step leads from `s` to `t`. */
  ghost predicate Steps(s: Sys, step: Step, t: Sys) {
    Inv(s.q) && |s.used| == s.q.num && Enabled(s, step) && t == Next(s, step)
  }

  lemma StepKeeps(s: Sys, step: Step, t: Sys)
    requires SysInv(s) && Steps(s, step, t)
    ensures SysInv(t)
  {
    NextKeepsSys(s, step);
  }

  /** Neither side has anything left to read. */
  ghost predicate RingsIdle(s: Sys) {
    |s.taken| == |s.heads| && s.got == |s.done|
  }

  lemma AddGoes(s: Sys, add: Step) returns (t: Sys)
    requires SysInv(s) && !s.q.broken && RingsIdle(s) && add.DriverAdd? && (add.needed ==> add.notifyOk)
    requires 0 < |add.buf| && (if add.table.Some? then 1 else |add.buf|) <= |s.q.free|
    ensures Steps(s, add, t) && SysInv(t) && !t.q.broken
    ensures var h := s.q.free[0];
            && h !in s.q.chains && t.heads == s.heads + [h] && t.taken == s.taken && t.done == s.done && t.got == s.got
            && h in t.q.chains && t.q.chains[h].token == add.token && t.q.chains - {h} == s.q.chains
  {
    t := Next(s, add);
    AddedChain(s.q, add.buf, add.token, add.table, add.needed, add.notifyOk);
    StepKeeps(s, add, t);
  }

  lemma AddedChain(q: Queue, buf: seq<Piece>, token: Token, table: Option<nat>, needed: bool, ok: bool)
    requires Inv(q) && |buf| > 0 && Used(buf, table) <= |q.free| && !q.broken && (needed ==> ok)
    ensures var r, h := Add(q, buf, token, table, needed, ok), q.free[0];
            && !r.broken && h !in q.chains && h in r.chains && r.chains[h].token == token && r.chains - {h} == q.chains
  {
    AttachKeepsPartition(q, buf, token, table);
  }

  lemma TakeGoes(s: Sys, h: nat) returns (t: Sys)
    requires SysInv(s) && |s.heads| == |s.taken| + 1 && s.heads[|s.taken|] == h
    ensures Steps(s, DeviceTake, t) && SysInv(t) && t == TakeHead(s, h)
  {
    IndexDistance(|s.taken|, |s.heads|);
    SlotOf(|s.taken|, s.q.num);
    assert PendingAt(s, |s.taken|);
    t := Next(s, DeviceTake);
    StepKeeps(s, DeviceTake, t);
  }

  lemma PushGoes(s: Sys, h: nat) returns (t: Sys)
    requires SysInv(s) && h in s.stage && s.stage[h] == Taken
    ensures Steps(s, DevicePush(h), t) && SysInv(t)
    ensures t.q == s.q && t.heads == s.heads && t.taken == s.taken && t.done == s.done + [h] && t.got == s.got
  {
    t := Next(s, DevicePush(h));
    StepKeeps(s, DevicePush(h), t);
  }

  lemma GetGoes(s: Sys, h: nat) returns (t: Sys)
    requires SysInv(s) && !s.q.broken && s.got < |s.done| && s.done[s.got] == h
    ensures Steps(s, DriverGet, t) && h in s.q.chains && t.q.chains == s.q.chains - {h}
    ensures t.got == s.got + 1 && t.heads == s.heads && t.taken == s.taken && t.done == s.done
    ensures Get(s.q, s.usedIdx, s.used[s.q.lastUsed % s.q.num]).1 == Some(s.q.chains[h].token)
  {
    GetTakesUsed(s);
    t := Next(s, DriverGet);
  }

  /** Over idle rings a buffer goes all the way round: added, taken by the device, used, and taken back
      with its token. */
  lemma BufferComesBack(s: Sys, add: Step) returns (h: nat, added: Sys, taken: Sys, used: Sys, back: Sys)
    requires SysInv(s) && !s.q.broken && RingsIdle(s) && add.DriverAdd? && (add.needed ==> add.notifyOk)
    requires 0 < |add.buf| && (if add.table.Some? then 1 else |add.buf|) <= |s.q.free|
    ensures Steps(s, add, added) && Steps(added, DeviceTake, taken) && taken.taken == s.taken + [h]
    ensures Steps(taken, DevicePush(h), used) && Steps(used, DriverGet, back)
    ensures Get(used.q, used.usedIdx, used.used[used.q.lastUsed % used.q.num]).1 == Some(add.token)
    ensures back.q.chains == s.q.chains && RingsIdle(back)
  {
    h := s.q.free[0];
    added := AddGoes(s, add);
    taken := TakeGoes(added, h);
    used, back := UseGoes(taken, h);
  }

  lemma UseGoes(s: Sys, h: nat) returns (used: Sys, back: Sys)
    requires SysInv(s) && !s.q.broken && h in s.stage && s.stage[h] == Taken && s.got == |s.done|
    ensures Steps(s, DevicePush(h), used) && Steps(used, DriverGet, back) && h in s.q.chains
    ensures Get(used.q, used.usedIdx, used.used[used.q.lastUsed % used.q.num]).1 == Some(s.q.chains[h].token)
    ensures back.q.chains == s.q.chains - {h} && back.got == |back.done|
    ensures back.heads == s.heads && back.taken == s.taken
  {
    used := PushGoes(s, h);
    back := GetGoes(used, h);
  }

  /** In every interleaving the device reads the published heads in order, each exactly once, and
      every unread head is still in its slot, however often the 16-bit indices have wrapped. */
  lemma DeviceReadsInOrder(num: nat, noInterrupt: bool, steps: seq<Step>)
    requires IsPow2(num) && num <= 32768
    requires Legal(Boot(num, noInterrupt), steps)
    ensures
      var t := Run(Boot(num, noInterrupt), steps);
      && t.taken <= t.heads
      && (forall k :: |t.taken| <= k < |t.heads| && t.q.num > 0 && |t.q.ring| == t.q.num ==>
            t.q.ring[Slot(k, t.q.num)] == t.heads[k])
      && t.q.availIdx == |t.heads| % U16
  {
    var t := Run(Boot(num, noInterrupt), steps);
    forall k | |t.taken| <= k < |t.heads| ensures t.q.ring[Slot(k, t.q.num)] == t.heads[k] { assert PendingAt(t, k); }
  }

  /** The 16-bit difference of the two driver indices counts the outstanding buffers, and a delayed
      enable reports work exactly when more than three quarters of them are used and unread. */
  lemma DelayedEnableExactly(s: Sys)
    requires SysInv(s)
    ensures (s.q.availIdx + U16 - s.q.lastUsed) % U16 == |s.q.chains| <= 32768
    ensures DelayedBusy(s.q, s.usedIdx) <==> |s.done| - s.got > 3 * |s.q.chains| / 4
  {
    OutstandingDistance(s);
    DelayedBusyOf(s.q, s.usedIdx, |s.q.chains|, |s.done| - s.got);
  }

  lemma DelayedBusyOf(q: Queue, usedIdx: nat, n: nat, m: nat)
    requires q.lastUsed < U16 && (q.availIdx + U16 - q.lastUsed) % U16 == n <= 32768
    requires (usedIdx + U16 - q.lastUsed) % U16 == m
    ensures DelayedBusy(q, usedIdx) <==> m > 3 * n / 4
  {
    ThreeQuarters(n);
  }

  lemma OutstandingDistance(s: Sys)
    requires SysInv(s)
    ensures (s.q.availIdx + U16 - s.q.lastUsed) % U16 == |s.q.chains| <= 32768
    ensures (s.usedIdx + U16 - s.q.lastUsed) % U16 == |s.done| - s.got
    ensures s.q.lastUsed == s.got % U16 && |s.heads| <= s.got + 32768
  {
    RingHasRoom(s);
    DistancesOf(s);
  }

  lemma DistancesOf(s: Sys)
    requires Indices(s) && Counts(s) && |s.heads| <= s.got + 32768
    ensures (s.q.availIdx + U16 - s.q.lastUsed) % U16 == |s.q.chains|
    ensures (s.usedIdx + U16 - s.q.lastUsed) % U16 == |s.done| - s.got
  {
    IndexDistance(s.got, |s.heads|);
    IndexDistance(s.got, |s.done|);
  }

  lemma ThreeQuarters(n: nat)
    requires n <= 32768
    ensures n * 3 / 4 % U16 == 3 * n / 4
  {
  }

  /** After a delayed enable, a device that moves its used position from `a` to `b` asks for an
      interrupt exactly when it passes three quarters of the outstanding buffers. */
  lemma DelayedEventFires(s: Sys, a: nat, b: nat)
    requires SysInv(s) && |s.done| <= a <= b <= |s.heads|
    ensures NeedEvent(DelayedEvent(s.q), b % U16, a % U16) <==> a <= s.got + 3 * |s.q.chains| / 4 < b
  {
    DelayedEventIs(s);
    WindowHits(a, b, s.got, 3 * |s.q.chains| / 4);
  }

  lemma DelayedEventIs(s: Sys)
    requires SysInv(s)
    ensures DelayedEvent(s.q) == (s.got + 3 * |s.q.chains| / 4) % U16 && |s.heads| <= s.got + 32768
  {
    OutstandingDistance(s);
    DelayedEventOf(s.q, s.got, |s.q.chains|);
  }

  lemma DelayedEventOf(q: Queue, got: nat, n: nat)
    requires q.lastUsed == got % U16 && (q.availIdx + U16 - q.lastUsed) % U16 == n <= 32768
    ensures DelayedEvent(q) == (got + 3 * n / 4) % U16
  {
    ThreeQuarters(n);
    SumIndex(got, 3 * n / 4);
  }

  lemma WindowHits(a: nat, b: nat, got: nat, bufs: nat)
    requires got <= a <= b < got + U16 && bufs < U16
    ensures NeedEvent((got + bufs) % U16, b % U16, a % U16) <==> a <= got + bufs < b
  {
    EventWindow(a, b, (got + bufs) % U16);
    forall k | a <= k < b ensures k % U16 == (got + bufs) % U16 <==> k == got + bufs { OnlyIndex(got, bufs, k); }
  }

  lemma SumIndex(a: nat, d: nat)
    ensures (a % U16 + d) % U16 == (a + d) % U16
  {
  }

  /** (u16)(avail.idx - num_added) is the index at the last kick, and with event indices a kick is
      needed exactly when the device's event index is among those published since. */
  lemma KickExactly(s: Sys, availEvent: nat)
    requires SysInv(s) && availEvent < U16
    ensures KickedIdx(s.q) == s.kicked % U16
    ensures KickNeeded(s.q, true, availEvent, false) <==>
            exists k :: s.kicked <= k < |s.heads| && k % U16 == availEvent
  {
    KickedIndex(s.kicked, |s.heads|);
    EventWindow(s.kicked, |s.heads|, availEvent);
  }

  lemma KickedIndex(a: nat, b: nat)
    requires a <= b < a + U16
    ensures (b % U16 + U16 - (b - a) % U16) % U16 == a % U16
  {
  }

  /** vring_need_event on the 16-bit images of a window: is some position of it the event's? */
  lemma EventWindow(a: nat, b: nat, event: nat)
    requires a <= b < a + U16 && event < U16
    ensures NeedEvent(event, b % U16, a % U16) <==> exists k :: a <= k < b && k % U16 == event
  {
    var d := (event + U16 - a % U16) % U16;
    IndexDistance(a, b);
    assert (a + d) % U16 == event;
    assert NeedEvent(event, b % U16, a % U16) <==> d < b - a by { NeedEventDistance(a, b, d); }
    if d < b - a { assert a <= a + d < b; }
    forall k | a <= k < b && k % U16 == event ensures k == a + d { OnlyIndex(a, d, k); }
  }

  lemma NeedEventDistance(a: nat, b: nat, d: nat)
    requires a <= b < a + U16 && d < U16
    ensures NeedEvent((a + d) % U16, b % U16, a % U16) <==> d < b - a
  {
    var n := b - a;
    IndexDistance(a, b);
    var x := (b % U16 + 2 * U16 - (a + d) % U16 - 1) % U16;
    assert x == (n + 2 * U16 - d - 1) % U16;
  }

  lemma OnlyIndex(a: nat, d: nat, k: nat)
    requires d < U16 && a <= k < a + U16
    ensures k % U16 == (a + d) % U16 <==> k == a + d
  {
    if k <= a + d { IndexDistance(k, a + d); } else { IndexDistance(a + d, k); }
  }
}
