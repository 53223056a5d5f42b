/**
 The channel's code refines the ring protocol: each call, with the engine standing still, is a run of
 protocol steps, so everything proved about runs holds of the channel.
 */
module DmaRefinement {
  import opened Wrappers
  import opened DmaCopy
  import opened DmaRing
  import opened DmaChannel

  // ---------------------------------------------------------------- runs

  ghost predicate Can(s: State, step: Step) {
    |s.ring| == N && |s.tx| == N && Enabled(s, step)
  }

  /** `steps` lead from `s` to `t`. */
  ghost predicate Leads(s: State, steps: seq<Step>, t: State)
    decreases |steps|
  {
    if steps == [] then t == s else Can(s, steps[0]) && Leads(Next(s, steps[0]), steps[1..], t)
  }

  ghost predicate Reaches(s: State, t: State) {
    exists steps :: Leads(s, steps, t)
  }

  /** Such steps are a legal run of the protocol, and keep its invariant. */
  lemma {:induction false} LeadsIsRun(s: State, steps: seq<Step>, t: State)
    requires Inv(s) && Leads(s, steps, t)
    ensures Legal(s, steps) && Run(s, steps) == t && Inv(t)
    decreases |steps|
  {
    if steps != [] {
      NextKeeps(s, steps[0]);
      LeadsIsRun(Next(s, steps[0]), steps[1..], t);
    }
  }

  lemma ReachesKeeps(s: State, t: State)
    requires Inv(s) && Reaches(s, t)
    ensures Inv(t)
  {
    var steps :| Leads(s, steps, t);
    LeadsIsRun(s, steps, t);
  }

  lemma {:induction false} LeadsOn(s: State, a: seq<Step>, t: State, b: seq<Step>, u: State)
    requires Leads(s, a, t) && Leads(t, b, u)
    ensures Leads(s, a + b, u)
    decreases |a|
  {
    if a == [] {
      assert a + b == b;
    } else {
      LeadsOn(Next(s, a[0]), a[1..], t, b, u);
      assert (a + b)[0] == a[0] && (a + b)[1..] == a[1..] + b;
    }
  }

  lemma ReachesOn(s: State, t: State, u: State)
    requires Reaches(s, t) && Reaches(t, u)
    ensures Reaches(s, u)
  {
    var a :| Leads(s, a, t);
    var b :| Leads(t, b, u);
    LeadsOn(s, a, t, b, u);
  }

  lemma OneStep(s: State, step: Step)
    requires Can(s, step)
    ensures Reaches(s, Next(s, step))
  {
    var t := Next(s, step);
    assert [step][1..] == [];
    assert Leads(t, [], t);
    assert Leads(s, [step], t);
  }

  lemma NoStep(s: State)
    ensures Reaches(s, s)
  {
    assert Leads(s, [], s);
  }

  // ---------------------------------------------------------------- the cleanup

  ghost predicate SlotShows(ring: seq<Desc>, c: seq<Cell>, i: nat)
    requires i < |ring| == |c|
  {
    c[i].valid == ring[i].valid && Means(ring[i], c[i].chunk)
  }

  ghost predicate Means(d: Desc, c: Chunk) {
    Decode(d) == c
  }

  /** `c` is the ring of descriptors as the engine understands it. */
  ghost predicate Shows(ring: seq<Desc>, c: seq<Cell>) {
    |ring| == |c| == N && forall i {:trigger SlotShows(ring, c, i)} :: 0 <= i < N ==> SlotShows(ring, c, i)
  }

  lemma IdxSucc(k: nat)
    ensures Idx(k + 1) == Succ(Idx(k))
  {
    IdxNext(k);
  }

  /** What a sweep leaves of the protocol state. */
  ghost predicate Cleaned(s: State, t: State, r: Swept) {
    && t == s.(cl := Resting, tail := t.tail, local := t.tail, done := t.done,
               tx := r.tx, ran := r.calls, completed := r.cookie)
    && Idx(t.tail) == r.end
  }

  /** The turn of the cleanup loop for a slot that is written back. */
  lemma PassSlotSteps(s: State) returns (t: State)
    requires Can(s, CleanCheck)
    ensures Reaches(s, t)
    ensures var x := s.tx[Idx(s.local)];
            t == s.(local := s.local + 1, done := t.done, tx := s.tx[Idx(s.local) := Finished(x)],
                    ran := s.ran + Calls(x), completed := CookieAfter(x, s.completed))
  {
    var x := s.tx[Idx(s.local)];
    var a := Next(s, CleanCheck);
    OneStep(s, CleanCheck);
    var b := Next(a, CleanCookie);
    OneStep(a, CleanCookie);
    ReachesOn(s, a, b);
    t := b;
    if x.cookie != 0 {
      t := Next(b, CleanCall);
      OneStep(b, CleanCall);
      ReachesOn(s, b, t);
    } else {
      assert s.tx[Idx(s.local) := Finished(x)] == s.tx;
    }
  }

  lemma {:induction false} SweepSteps(s: State, ring: seq<Desc>) returns (t: State)
    requires s.cl.Scanning? && Shows(ring, s.ring) && |s.tx| == N && s.local <= s.cached < s.local + N
    ensures Reaches(s, t)
    ensures Cleaned(s, t, Sweep(ring, s.tx, Idx(s.local), Idx(s.cached), s.ran, s.completed))
    decreases s.cached - s.local
  {
    assert SlotShows(ring, s.ring, Idx(s.local));
    if Idx(s.local) == Idx(s.cached) || ring[Idx(s.local)].valid {
      t := Next(s, CleanStop);
      OneStep(s, CleanStop);
    } else {
      var a := PassSlotSteps(s);
      IdxSucc(s.local);
      t := SweepSteps(a, ring);
      ReachesOn(s, a, t);
    }
  }

  /** A cleanup that nobody interferes with ends where the engine is. */
  lemma CleanupCatchesUp(s: State)
    requires Inv(s) && s.cl.Resting? && (s.sub.Idle? || s.sub.Prepared?)
    requires Idx(s.tail) == Idx(s.head) || s.ring[Idx(s.tail)].valid
    ensures s.tail == s.hw
  {
    if s.tail < s.hw {
      assert ValidAt(s.ring, |s.log|, s.tail + N);
      IdxWrap(s.tail, s.tail + N);
      IdxDiffer(s.tail, s.head);
    }
  }

  /** A whole cleanup, from rest to rest. */
  lemma CleanupSteps(s: State, ring: seq<Desc>) returns (t: State)
    requires Inv(s) && s.cl.Resting? && (s.sub.Idle? || s.sub.Prepared?) && Shows(ring, s.ring)
    ensures Reaches(s, t) && Inv(t) && t.tail == s.hw
    ensures Cleaned(s.(cached := s.head), t, Sweep(ring, s.tx, Idx(s.tail), Idx(s.head), s.ran, s.completed))
  {
    var a := Next(s, CleanStart);
    OneStep(s, CleanStart);
    t := SweepSteps(a, ring);
    ReachesOn(s, a, t);
    ReachesKeeps(s, t);
    SweepStops(ring, s.tx, Idx(s.tail), Idx(s.head), s.ran, s.completed);
    assert SlotShows(ring, s.ring, Idx(t.tail));
    CleanupCatchesUp(t);
  }

  // ---------------------------------------------------------------- programming a request

  /** The ring after the descriptors of a request are written; the last one is not yet valid. */
  ghost function WriteRing(ring: seq<Cell>, head: nat, rest: seq<Chunk>): (r: seq<Cell>)
    requires |ring| == N && rest != []
    ensures |r| == N
    decreases |rest|
  {
    if |rest| == 1 then ring[Idx(head) := Cell(false, rest[0])]
    else WriteRing(ring[Idx(head) := Cell(true, rest[0])], head + 1, rest[1..])
  }

  lemma {:induction false} WriteRingAt(ring: seq<Cell>, head: nat, rest: seq<Chunk>, k: nat)
    requires |ring| == N && 0 < |rest| < N && k < N
    ensures WriteRing(ring, head, rest)[Idx(head + k)] ==
            if k < |rest| then Cell(k < |rest| - 1, rest[k]) else ring[Idx(head + k)]
    decreases |rest|
  {
    if k > 0 { IdxDiffer(head, head + k); }
    if |rest| > 1 {
      var r := ring[Idx(head) := Cell(true, rest[0])];
      if k == 0 {
        WriteRingAt(r, head + 1, rest[1..], N - 1);
        IdxWrap(head, head + 1 + (N - 1));
      } else {
        WriteRingAt(r, head + 1, rest[1..], k - 1);
        assert head + 1 + (k - 1) == head + k;
      }
    }
  }

  lemma {:induction false} WriteSteps(s: State) returns (t: State)
    requires |s.ring| == N && |s.tx| == N && s.sub.Programming? && s.sub.rest != []
    ensures Reaches(s, t)
    ensures var rest := s.sub.rest;
            t == s.(ring := WriteRing(s.ring, s.head, rest), head := s.head + |rest| - 1,
                    sub := Prepared(s.sub.req, rest[|rest| - 1]), log := t.log)
    decreases |s.sub.rest|
  {
    var rest := s.sub.rest;
    var a := Next(s, WriteDesc);
    OneStep(s, WriteDesc);
    if |rest| == 1 {
      t := a;
    } else {
      var b := Next(a, AdvanceHead);
      OneStep(a, AdvanceHead);
      t := WriteSteps(b);
      ReachesOn(s, a, b);
      ReachesOn(s, b, t);
    }
  }

  lemma IdxShift(h: nat, k: nat)
    ensures Idx(Idx(h) + k) == Idx(h + k)
  {
    IdxIsRemainder(h);
    IdxIsRemainder(h + k);
    IdxIsRemainder(Idx(h) + k);
  }

  lemma SameIdx(h: nat, k: nat, x: nat, y: nat)
    requires x == Idx(h) + k && y == h + k
    ensures Idx(x) == Idx(y)
  {
    IdxShift(h, k);
  }

  /** The slots that the programming loop writes are those of the protocol. */
  lemma RingsAgree(ring: seq<Desc>, ring0: seq<Desc>, c0: seq<Cell>, head: nat, cs: seq<Chunk>)
    requires 0 < |cs| && Shows(ring0, c0) && Progress(ring, ring0, Idx(head), cs, true, |cs|)
    ensures Shows(ring, WriteRing(c0, head, cs))
  {
    var c := WriteRing(c0, head, cs);
    forall i | 0 <= i < N ensures SlotShows(ring, c, i) {
      var p := PositionOf(head, i);
      SlotAgrees(ring, ring0, c0, head, cs, p - head);
    }
  }

  lemma SlotAgrees(ring: seq<Desc>, ring0: seq<Desc>, c0: seq<Cell>, head: nat, cs: seq<Chunk>, k: nat)
    requires 0 < |cs| && Shows(ring0, c0) && Progress(ring, ring0, Idx(head), cs, true, |cs|) && k < N
    ensures SlotShows(ring, WriteRing(c0, head, cs), Idx(head + k))
  {
    IdxShift(head, k);
    WriteRingAt(c0, head, cs, k);
    if k < |cs| {
      assert Programmed(ring, Idx(head), cs, true, k);
    } else {
      assert Untouched(ring, ring0, Idx(head), k);
      assert SlotShows(ring0, c0, Idx(head + k));
    }
  }

  /** Looking for room, with or without a cleanup. */
  lemma RoomSteps(s: State, ring: seq<Desc>, required: int) returns (t: State)
    requires Inv(s) && s.cl.Resting? && s.sub.Idle? && Shows(ring, s.ring)
    ensures Reaches(s, t) && (RingCount(Idx(s.head), Idx(t.tail)) >= required <==> s.head - s.hw + required <= N - 1)
    ensures
      var r := Room(ring, s.tx, Idx(s.tail), Idx(s.head), s.ran, s.completed, required);
      && t == s.(cached := t.cached, tail := t.tail, local := t.local, done := t.done, tx := r.tx, ran := r.calls,
                 completed := r.cookie)
      && Idx(t.tail) == r.end
  {
    RingCountExact(s.head, s.tail);
    if RingCount(Idx(s.head), Idx(s.tail)) >= required {
      t := s;
      NoStep(s);
    } else {
      t := CleanupSteps(s, ring);
      RingCountExact(s.head, t.tail);
    }
  }

  /** Programming a request for which there is room. */
  lemma PrepareSteps(s: State, req: Chunk) returns (t: State)
    requires Can(s, Prepare(req))
    ensures Reaches(s, t)
    ensures var cs := Chunks(req.src, req.dst, req.len);
            t == s.(ring := WriteRing(s.ring, s.head, cs), head := s.head + |cs| - 1,
                    sub := Prepared(req, cs[|cs| - 1]), log := t.log)
  {
    var a := Next(s, Prepare(req));
    OneStep(s, Prepare(req));
    t := WriteSteps(a);
    ReachesOn(s, a, t);
  }

  /** The same, as it shows on the ring and the head of the channel. */
  lemma ProgramSteps(s: State, req: Chunk, ring: seq<Desc>, ring0: seq<Desc>) returns (t: State)
    requires Can(s, Prepare(req)) && Shows(ring0, s.ring)
    requires var cs := Chunks(req.src, req.dst, req.len); Progress(ring, ring0, Idx(s.head), cs, true, |cs|)
    ensures Reaches(s, t) && Shows(ring, t.ring) && t.sub.Prepared? && t.sub.req == req
    ensures t == s.(ring := t.ring, head := t.head, sub := t.sub, log := t.log)
    ensures Idx(t.head) == Idx(Idx(s.head) + |Chunks(req.src, req.dst, req.len)| - 1)
  {
    var cs := Chunks(req.src, req.dst, req.len);
    t := PrepareSteps(s, req);
    RingsAgree(ring, ring0, s.ring, s.head, cs);
    SameIdx(s.head, |cs| - 1, Idx(s.head) + |cs| - 1, s.head + |cs| - 1);
  }

  // ---------------------------------------------------------------- the channel's calls

  /** The channel holds the protocol state, with no cleanup under way. */
  ghost predicate Mirrors(ch: Channel, s: State)
    reads ch, ch.descRing, ch.txArray
  {
    && ch.Valid() && s.cl.Resting? && Shows(ch.descRing[..], s.ring) && s.tx == ch.txArray[..]
    && ch.head == Idx(s.head) && ch.lastTail == Idx(s.tail)
    && ch.cookie == s.cookie && ch.completed == s.completed && ch.ran == s.ran
  }

  lemma BlankMeans(d: Desc)
    requires d == Desc(false, false, 0, 0, 0, 0)
    ensures Means(d, Chunk(0, 0, 0))
  {
    DecodeWords(d, 0, 0);
  }

  lemma BlankRing(ring: seq<Desc>, c: seq<Cell>)
    requires |ring| == |c| == N && forall i :: 0 <= i < N ==> ring[i] == Desc(false, false, 0, 0, 0, 0)
    requires forall i :: 0 <= i < N ==> c[i] == Cell(false, Chunk(0, 0, 0))
    ensures Shows(ring, c)
  {
    forall i | 0 <= i < N ensures SlotShows(ring, c, i) { BlankSlot(ring, c, i); }
  }

  lemma BlankSlot(ring: seq<Desc>, c: seq<Cell>, i: nat)
    requires i < |ring| == |c| && ring[i] == Desc(false, false, 0, 0, 0, 0) && c[i] == Cell(false, Chunk(0, 0, 0))
    ensures SlotShows(ring, c, i)
  {
    BlankMeans(ring[i]);
  }

  /** plx_dma_chan_init */
  method Create() returns (ch: Channel)
    ensures fresh(ch) && fresh(ch.descRing) && fresh(ch.txArray) && Mirrors(ch, Boot())
  {
    ch := new Channel();
    BlankRing(ch.descRing[..], Boot().ring);
    assert ch.txArray[..] == Boot().tx;
  }

  /** plx_dma_cleanup completes everything that the engine has finished. */
  method CallCleanup(ch: Channel, ghost s: State) returns (ghost t: State)
    requires Inv(s) && Mirrors(ch, s) && (s.sub.Idle? || s.sub.Prepared?)
    modifies ch`lastTail, ch`completed, ch`ran, ch.txArray
    ensures Mirrors(ch, t) && Reaches(s, t) && Keeps(s, t) && t.sub == s.sub && t.tail == s.hw
  {
    t := CleanupSteps(s, ch.descRing[..]);
    ch.Cleanup();
  }

  /** Neither transactions nor the engine have moved. */
  ghost predicate Keeps(s: State, t: State) {
    t.subs == s.subs && t.hw == s.hw
  }

  /** plx_dma_prep_memcpy_lock with flags. It succeeds exactly when the request fits beside what the
      engine has not finished. */
  method CallPrepare(ch: Channel, req: Chunk, ghost s: State) returns (ok: bool, ghost t: State)
    requires Inv(s) && Mirrors(ch, s) && s.sub.Idle? && Addressable(req)
    modifies ch`head, ch`lastTail, ch`completed, ch`ran, ch.txArray, ch.descRing
    ensures Mirrors(ch, t) && Reaches(s, t) && Keeps(s, t)
    ensures ok <==> s.head - s.hw + |Chunks(req.src, req.dst, req.len)| <= N - 1
    ensures if ok then t.sub.Prepared? && t.sub.req == req else t.sub.Idle?
  {
    ghost var cs, ring0 := Chunks(req.src, req.dst, req.len), ch.descRing[..];
    t := RoomSteps(s, ring0, |cs|);
    ok := ch.ProgMemcpyDesc(req.src, req.dst, req.len, true);
    if ok {
      ghost var a := t;
      t := ProgramSteps(a, req, ch.descRing[..], ring0);
      ReachesOn(s, a, t);
    }
  }

  /** The client's callback, between preparation and submission. */
  method CallSetCallback(ch: Channel, cb: Option<nat>, ghost s: State) returns (ghost t: State)
    requires Inv(s) && Mirrors(ch, s) && s.sub.Prepared?
    modifies ch.txArray
    ensures Mirrors(ch, t) && Reaches(s, t) && Can(s, SetCallback(cb)) && t == Next(s, SetCallback(cb))
  {
    t := Next(s, SetCallback(cb));
    OneStep(s, SetCallback(cb));
    ch.txArray[ch.head] := ch.txArray[ch.head].(callback := cb);
  }

  lemma SubmitSteps(s: State) returns (t: State)
    requires |s.ring| == N && |s.tx| == N && s.sub.Prepared?
    ensures Reaches(s, t)
    ensures var h, c := Idx(s.head), NextCookie(s.cookie);
            t == s.(cookie := c, tx := s.tx[h := s.tx[h].(cookie := c)], ring := s.ring[h := s.ring[h].(valid := true)],
                    head := s.head + 1, sub := Idle, log := t.log,
                    subs := s.subs + [Sub(s.sub.req, s.tx[h].callback, s.head)])
  {
    var a := Next(s, SetCookie);
    OneStep(s, SetCookie);
    var b := Next(a, SetValid);
    OneStep(a, SetValid);
    t := Next(b, Release);
    OneStep(b, Release);
    ReachesOn(s, a, b);
    ReachesOn(s, b, t);
  }

  method CallSubmit(ch: Channel, ghost s: State) returns (c: nat, ghost t: State)
    requires Inv(s) && Mirrors(ch, s) && s.sub.Prepared?
    modifies ch`cookie, ch`head, ch.txArray, ch.descRing
    ensures Mirrors(ch, t) && Reaches(s, t) && t.sub.Idle? && c == t.cookie && t.hw == s.hw
    ensures t.subs == s.subs + [Sub(s.sub.req, s.tx[Idx(s.head)].callback, s.head)]
  {
    t := SubmitSteps(s);
    ghost var ring0 := ch.descRing[..];
    c := ch.Submit(true);
    IdxSucc(s.head);
    CellValid(ring0, s.ring, Idx(s.head), true);
  }

  lemma CellValid(ring: seq<Desc>, c: seq<Cell>, i: nat, v: bool)
    requires Shows(ring, c) && i < N
    ensures Shows(ring[i := ring[i].(valid := v)], c[i := c[i].(valid := v)])
  {
    var r, d := ring[i := ring[i].(valid := v)], c[i := c[i].(valid := v)];
    forall j | 0 <= j < N ensures SlotShows(r, d, j) { assert SlotShows(ring, c, j); }
  }

  /** The engine writes back the descriptor it has just executed. */
  method EngineWriteBack(ch: Channel, i: nat, ghost s: State) returns (ghost t: State)
    requires Inv(s) && Mirrors(ch, s) && i == Idx(s.hw) && ch.descRing[i].valid
    modifies ch.descRing
    ensures Mirrors(ch, t) && Reaches(s, t) && Can(s, WriteBack) && t == Next(s, WriteBack)
  {
    CellValid(ch.descRing[..], s.ring, i, false);
    assert SlotShows(ch.descRing[..], s.ring, i);
    t := Next(s, WriteBack);
    OneStep(s, WriteBack);
    ghost var ring0 := ch.descRing[..];
    ch.descRing[i] := ch.descRing[i].(valid := false);
    assert ch.descRing[..] == ring0[i := ring0[i].(valid := false)];
  }

  /** After it the status test says exactly which transactions the engine has finished. */
  lemma StatusAfterCleanup(s: State, n: nat)
    requires Inv(s) && s.cl.Resting? && s.tail == s.hw && n < |s.subs| <= n + MAX_COOKIE
    ensures IsComplete(CookieOf(n + 1), s.completed, s.cookie) <==> s.subs[n].pos < s.hw
  {
    StatusExactly(s, n);
    assert BehindAt(s.subs, s.local, s.done, n);
  }

  lemma StatusSteps(s: State, ring: seq<Desc>, c: nat) returns (t: State)
    requires Inv(s) && s.cl.Resting? && (s.sub.Idle? || s.sub.Prepared?) && Shows(ring, s.ring)
    ensures Reaches(s, t)
    ensures
      var r := if IsComplete(c, s.completed, s.cookie) then Swept(Idx(s.tail), s.ran, s.completed, s.tx)
               else Sweep(ring, s.tx, Idx(s.tail), Idx(s.head), s.ran, s.completed);
      && t == s.(cached := t.cached, tail := t.tail, local := t.local, done := t.done, tx := r.tx, ran := r.calls,
                 completed := r.cookie)
      && Idx(t.tail) == r.end
    ensures forall n :: 0 <= n < |s.subs| && c == CookieOf(n + 1) && |s.subs| <= n + MAX_COOKIE ==>
              (IsComplete(c, t.completed, t.cookie) <==> s.subs[n].pos < s.hw)
  {
    if IsComplete(c, s.completed, s.cookie) {
      t := s;
      NoStep(s);
      forall n | 0 <= n < |s.subs| && c == CookieOf(n + 1) ensures s.subs[n].pos < s.hw {
        StatusMeansWrittenBack(s, n, |s.subs|);
      }
    } else {
      t := CleanupSteps(s, ring);
      forall n | 0 <= n < |s.subs| && c == CookieOf(n + 1) && |s.subs| <= n + MAX_COOKIE
        ensures IsComplete(c, t.completed, t.cookie) <==> s.subs[n].pos < s.hw
      {
        StatusAfterCleanup(t, n);
      }
    }
  }

  /** plx_dma_is_tx_complete; its answer is exact: has the engine finished the transaction? */
  method CallTxStatus(ch: Channel, c: nat, ghost s: State) returns (complete: bool, ghost t: State)
    requires Inv(s) && Mirrors(ch, s) && (s.sub.Idle? || s.sub.Prepared?)
    modifies ch`lastTail, ch`completed, ch`ran, ch.txArray
    ensures Mirrors(ch, t) && Reaches(s, t) && Keeps(s, t) && t.sub == s.sub
    ensures forall n :: 0 <= n < |s.subs| && c == CookieOf(n + 1) && |s.subs| <= n + MAX_COOKIE ==>
              (complete <==> s.subs[n].pos < s.hw)
  {
    t := StatusSteps(s, ch.descRing[..], c);
    complete := ch.IsTxComplete(c);
  }

  // ---------------------------------------------------------------- any use of a channel

  /** Whatever calls led to this state: each callback of a completed transaction has run once and in
      submission order, and a cookie counts as complete only after write-back. */
  ghost predicate Safe(ch: Channel, s: State)
    reads ch
  {
    && s.done <= |s.subs| && ch.ran == Callbacks(s.subs[..s.done])
    && ch.completed == CookieOf(s.done) && ch.cookie == CookieOf(|s.subs|)
    && forall n :: 0 <= n < |s.subs| && IsComplete(CookieOf(n + 1), ch.completed, ch.cookie) ==> s.subs[n].pos < s.hw
  }

  lemma ChannelIsSafe(ch: Channel, s: State)
    requires Mirrors(ch, s) && Reaches(Boot(), s)
    ensures Inv(s) && Safe(ch, s)
  {
    var steps :| Leads(Boot(), steps, s);
    LeadsIsRun(Boot(), steps, s);
    CallbacksExactlyOnce(steps);
  }

  /** What clients and the engine do with a channel. */
  datatype Call =
    | Clean
    | PrepareMemcpy(req: Chunk)
    | AssignCallback(cb: Option<nat>)
    | SubmitTx
    | AskStatus(cookie: nat)
    | EngineTurn

  /** What a call with answer `ok` does. A client cannot get past the prepare lock while a transaction is
      open, and has no transaction to work on otherwise; an engine without a valid descriptor waits. */
  ghost predicate Effect(call: Call, ok: bool, s: State, t: State)
    requires |s.ring| == N && |s.tx| == N
  {
    match call
    case Clean => ok && Keeps(s, t) && t.sub == s.sub && t.tail == s.hw
    case PrepareMemcpy(req) =>
      && Keeps(s, t)
      && (ok <==> s.sub.Idle? && s.head - s.hw + |Chunks(req.src, req.dst, req.len)| <= N - 1)
      && (if ok then t.sub.Prepared? && t.sub.req == req else t.sub == s.sub)
    case AssignCallback(cb) =>
      (ok <==> s.sub.Prepared?) && t == if ok then Next(s, SetCallback(cb)) else s
    case SubmitTx =>
      && (ok <==> s.sub.Prepared?)
      && if !ok then t == s
         else t.sub.Idle? && t.hw == s.hw && t.subs == s.subs + [Sub(s.sub.req, s.tx[Idx(s.head)].callback, s.head)]
    case AskStatus(c) =>
      && Keeps(s, t) && t.sub == s.sub
      && forall n :: 0 <= n < |s.subs| && c == CookieOf(n + 1) && |s.subs| <= n + MAX_COOKIE ==>
           (ok <==> s.subs[n].pos < s.hw)
    case EngineTurn =>
      (ok <==> Enabled(s, WriteBack)) && t == if ok then Next(s, WriteBack) else s
  }

  ghost predicate Open(s: State, open: bool) {
    if open then s.sub.Prepared? else s.sub.Idle?
  }

  method ClientCall(ch: Channel, call: Call, open0: bool, ghost s: State) returns (ok: bool, open: bool, ghost t: State)
    requires Inv(s) && Mirrors(ch, s) && Open(s, open0)
    requires !call.EngineTurn? && (call.PrepareMemcpy? ==> Addressable(call.req))
    modifies ch, ch.descRing, ch.txArray
    ensures Mirrors(ch, t) && Reaches(s, t) && Open(t, open) && t.hw == s.hw && Effect(call, ok, s, t)
  {
    ok, open, t := false, open0, s;
    NoStep(s);
    match call {
      case Clean =>
        t := CallCleanup(ch, s);
        ok := true;
      case PrepareMemcpy(req) =>
        if !open0 {
          ok, t := CallPrepare(ch, req, s);
          open := ok;
        }
      case AssignCallback(cb) =>
        ok := open0;
        if open0 {
          t := CallSetCallback(ch, cb, s);
        }
      case SubmitTx =>
        ok, open := open0, false;
        if open0 {
          var _, u := CallSubmit(ch, s);
          t := u;
        }
      case AskStatus(c) =>
        ok, t := CallTxStatus(ch, c, s);
    }
  }

  method EngineCall(ch: Channel, engine0: nat, ghost s: State) returns (ok: bool, engine: nat, ghost t: State)
    requires Inv(s) && Mirrors(ch, s) && engine0 == Idx(s.hw)
    modifies ch.descRing
    ensures Mirrors(ch, t) && Reaches(s, t) && t.sub == s.sub && engine == Idx(t.hw) && Effect(EngineTurn, ok, s, t)
  {
    ok, engine, t := ch.descRing[engine0].valid, engine0, s;
    NoStep(s);
    assert SlotShows(ch.descRing[..], s.ring, engine0);
    if ok {
      t := EngineWriteBack(ch, engine0, s);
      RingIncIsNext(s.hw);
      engine := RingInc(engine0);
    }
  }

  method OneCall(ch: Channel, call: Call, open0: bool, engine0: nat, ghost s: State)
    returns (ok: bool, open: bool, engine: nat, ghost t: State)
    requires Reaches(Boot(), s) && Mirrors(ch, s) && Open(s, open0) && engine0 == Idx(s.hw)
    requires call.PrepareMemcpy? ==> Addressable(call.req)
    modifies ch, ch.descRing, ch.txArray
    ensures Reaches(Boot(), t) && Mirrors(ch, t) && Open(t, open) && engine == Idx(t.hw) && Happens(call, ok, s, t)
  {
    open, engine := open0, engine0;
    ReachesKeeps(Boot(), s);
    if call.EngineTurn? {
      ok, engine, t := EngineCall(ch, engine, s);
    } else {
      ok, open, t := ClientCall(ch, call, open, s);
    }
    ReachesOn(Boot(), s, t);
  }

  ghost predicate Happens(call: Call, ok: bool, s: State, t: State) {
    |s.ring| == N && |s.tx| == N && Reaches(s, t) && Effect(call, ok, s, t)
  }

  ghost predicate CallAt(trace: seq<State>, calls: seq<Call>, results: seq<bool>, i: nat)
    requires i < |calls| == |results| && |trace| == |calls| + 1
  {
    Happens(calls[i], results[i], trace[i], trace[i + 1])
  }

  /** One call after another, from a new channel on. */
  ghost predicate IsTrace(trace: seq<State>, calls: seq<Call>, results: seq<bool>) {
    && |trace| == |calls| + 1 && |results| == |calls| && trace[0] == Boot()
    && forall i {:trigger CallAt(trace, calls, results, i)} :: 0 <= i < |calls| ==> CallAt(trace, calls, results, i)
  }

  lemma LongerTrace(trace: seq<State>, calls: seq<Call>, results: seq<bool>, call: Call, ok: bool, t: State)
    requires IsTrace(trace, calls, results) && Happens(call, ok, trace[|calls|], t)
    ensures IsTrace(trace + [t], calls + [call], results + [ok])
  {
    forall i | 0 <= i <= |calls| ensures CallAt(trace + [t], calls + [call], results + [ok], i) {
      if i < |calls| { assert CallAt(trace, calls, results, i); }
    }
  }

  /** The channel is where a trace of these calls and answers ends, and is safe there. */
  ghost predicate WasUsed(ch: Channel, calls: seq<Call>, results: seq<bool>)
    reads ch, ch.descRing, ch.txArray
  {
    exists trace :: IsTrace(trace, calls, results) && Mirrors(ch, trace[|calls|]) && Safe(ch, trace[|calls|])
  }

  /** Any sequence of calls and write-backs on a new channel: every call has its effect, and what they
      lead to is safe. */
  method UseChannel(calls: seq<Call>) returns (ch: Channel, results: seq<bool>)
    requires forall i :: 0 <= i < |calls| && calls[i].PrepareMemcpy? ==> Addressable(calls[i].req)
    ensures WasUsed(ch, calls, results)
  {
    ch := Create();
    ghost var s := Boot();
    NoStep(s);
    var open, engine: nat := false, 0;
    results := [];
    ghost var trace := [s];
    for i := 0 to |calls|
      invariant fresh(ch) && fresh(ch.descRing) && fresh(ch.txArray)
      invariant Reaches(Boot(), s) && Mirrors(ch, s) && Open(s, open) && engine == Idx(s.hw)
      invariant IsTrace(trace, calls[..i], results) && trace[i] == s
    {
      ghost var t;
      var ok;
      ok, open, engine, t := OneCall(ch, calls[i], open, engine, s);
      LongerTrace(trace, calls[..i], results, calls[i], ok, t);
      assert calls[..i + 1] == calls[..i] + [calls[i]];
      results, trace, s := results + [ok], trace + [t], t;
    }
    assert calls[..|calls|] == calls;
    ChannelIsSafe(ch, s);
    assert IsTrace(trace, calls, results);
  }
}
