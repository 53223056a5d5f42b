/**
 The DMA descriptor ring as a protocol of three parties: a submitter that holds the prepare lock
 from prepare to submit, the engine that executes valid descriptors and writes them back, and a
 cleanup that completes written-back transactions. Every shared access is a step of its own, and
 every transaction is prepared with nonzero flags, as all callers in the driver do.

 Positions count programmed descriptors without wrapping; the driver's indices are their
 remainders modulo the ring size.
 */
module DmaRing {
  import opened Bits
  import opened DmaCopy
  import opened Wrappers

  const N: nat := 2048
  const MAX_COOKIE: nat := 0x7fff_ffff

  /** A ring slot: its valid bit, and the copy that its words stand for. For a request with 48-bit
      addresses those words decode to what was encoded (DmaCopy.DescriptorRoundTrip). */
  datatype Cell = Cell(valid: bool, chunk: Chunk)

  /** One slot of tx_array; callbacks are identified by numbers. */
  datatype Tx = Tx(cookie: nat, callback: Option<nat>)

  /** A submitted transaction; its last descriptor has position `pos`. */
  datatype Sub = Sub(req: Chunk, callback: Option<nat>, pos: nat)

  /** A programmed descriptor; `txn` is the serial number of the transaction it ends. */
  datatype Entry = Entry(chunk: Chunk, txn: Option<nat>)

  datatype Submitter =
    | Idle
    | Programming(req: Chunk, rest: seq<Chunk>)  // still to be written
    | Written(req: Chunk, rest: seq<Chunk>)      // one written and valid, head not yet advanced
    | Prepared(req: Chunk, last: Chunk)          // the last one written but not valid
    | CookieSet(last: Chunk)
    | Validated

  datatype Cleaner = Resting | Scanning | Found | Calling

  /** `head`, `tail` and `hw` are the positions of the submitter, of the published tail and of the
      engine; `local` and `cached` the cleanup's own tail and copy of the head. The rest of the
      second line is history: descriptors made valid, transactions submitted, chunks executed,
      transactions completed and callbacks run. */
  datatype State = State(
    ring: seq<Cell>, tx: seq<Tx>, head: nat, tail: nat, hw: nat, local: nat, cached: nat,
    cookie: nat, completed: nat, sub: Submitter, cl: Cleaner,
    log: seq<Entry>, subs: seq<Sub>, executed: seq<Chunk>, done: nat, ran: seq<nat>)

  // ---------------------------------------------------------------- index arithmetic

  function Idx(k: nat): (i: nat)
    ensures i < N
    decreases k
  {
    if k < N then k else Idx(k - N)
  }

  lemma {:induction false} IdxIsRemainder(k: nat)
    ensures Idx(k) == k % N
    decreases k
  {
    if k >= N { IdxIsRemainder(k - N); }
  }

  /** plx_dma_ring_inc */
  function RingInc(val: nat): nat {
    And(val + 1, N - 1)
  }

  /** plx_dma_ring_count: free slots between head and tail, one kept empty. */
  function RingCount(head: nat, tail: nat): int {
    (if head >= tail then tail + (N - head) else tail - head) - 1
  }

  lemma RingIncIsNext(k: nat)
    ensures RingInc(Idx(k)) == Idx(k + 1)
  {
    assert Pow2(11) == N;
    AndLowMask(Idx(k) + 1, 11);
    IdxNext(k);
  }

  lemma IdxNext(k: nat)
    ensures Idx(k + 1) == (Idx(k) + 1) % N
  {
    IdxIsRemainder(k);
    IdxIsRemainder(k + 1);
  }

  lemma IdxWrap(h: nat, k: nat)
    requires k == h + N
    ensures Idx(k) == Idx(h)
  {
  }

  /** The count is exact: what is neither in use nor the one slot kept empty. */
  lemma RingCountExact(head: nat, tail: nat)
    requires tail <= head < tail + N
    ensures RingCount(Idx(head), Idx(tail)) == N - 1 - (head - tail)
  {
    IdxIsRemainder(head);
    IdxIsRemainder(tail);
  }

  lemma IdxDiffer(a: nat, b: nat)
    requires a < b < a + N
    ensures Idx(a) != Idx(b)
  {
    IdxIsRemainder(a);
    IdxIsRemainder(b);
  }

  // ---------------------------------------------------------------- cookies

  /** The cookie of the `n`-th submission; the channel starts at 1 and wraps to 1. */
  function CookieOf(n: nat): nat {
    if n < MAX_COOKIE then n + 1 else CookieOf(n - MAX_COOKIE)
  }

  lemma {:induction false} CookieIsRemainder(n: nat)
    ensures CookieOf(n) == n % MAX_COOKIE + 1
    decreases n
  {
    if n >= MAX_COOKIE { CookieIsRemainder(n - MAX_COOKIE); }
  }

  function NextCookie(c: nat): nat {
    if c + 1 > MAX_COOKIE then 1 else c + 1
  }

  lemma NextCookieOf(n: nat)
    ensures NextCookie(CookieOf(n)) == CookieOf(n + 1) && CookieOf(n) != 0
  {
    CookieIsRemainder(n);
    CookieIsRemainder(n + 1);
  }

  // ---------------------------------------------------------------- steps

  datatype Step =
    | Prepare(req: Chunk) | WriteDesc | AdvanceHead | SetCallback(cb: Option<nat>) | SetCookie | SetValid | Release
    | WriteBack
    | CleanStart | CleanCheck | CleanStop | CleanCookie | CleanCall

  ghost predicate Addressable(c: Chunk) {
    c.src < U48 && c.dst < U48 && c.src + c.len <= U48 && c.dst + c.len <= U48
  }

  ghost predicate Enabled(s: State, step: Step)
    requires |s.ring| == N && |s.tx| == N
  {
    match step
    case Prepare(req) =>
      && s.sub.Idle? && Addressable(req)
      && RingCount(Idx(s.head), Idx(s.tail)) >= |Chunks(req.src, req.dst, req.len)|
    case WriteDesc => s.sub.Programming? && s.sub.rest != []
    case AdvanceHead => s.sub.Written?
    case SetCallback(_) => s.sub.Prepared?
    case SetCookie => s.sub.Prepared?
    case SetValid => s.sub.CookieSet?
    case Release => s.sub.Validated?
    case WriteBack => s.ring[Idx(s.hw)].valid
    case CleanStart => s.cl.Resting?
    case CleanCheck => s.cl.Scanning? && Idx(s.local) != Idx(s.cached) && !s.ring[Idx(s.local)].valid
    case CleanStop => s.cl.Scanning? && (Idx(s.local) == Idx(s.cached) || s.ring[Idx(s.local)].valid)
    case CleanCookie => s.cl.Found?
    case CleanCall => s.cl.Calling?
  }

  ghost function Next(s: State, step: Step): State
    requires |s.ring| == N && |s.tx| == N && Enabled(s, step)
  {
    var h, l := Idx(s.head), Idx(s.local);
    match step
    case Prepare(req) => s.(sub := Programming(req, Chunks(req.src, req.dst, req.len)))
    case WriteDesc =>
      var c := s.sub.rest[0];
      if |s.sub.rest| > 1 then
        s.(ring := s.ring[h := Cell(true, c)],
           sub := Written(s.sub.req, s.sub.rest[1..]), log := s.log + [Entry(c, None)])
      else
        s.(ring := s.ring[h := Cell(false, c)], sub := Prepared(s.sub.req, c))
    case AdvanceHead => s.(head := s.head + 1, sub := Programming(s.sub.req, s.sub.rest))
    case SetCallback(cb) => s.(tx := s.tx[h := s.tx[h].(callback := cb)])
    case SetCookie =>
      var c := NextCookie(s.cookie);
      s.(cookie := c, tx := s.tx[h := s.tx[h].(cookie := c)], sub := CookieSet(s.sub.last),
         subs := s.subs + [Sub(s.sub.req, s.tx[h].callback, s.head)])
    case SetValid =>
      s.(ring := s.ring[h := s.ring[h].(valid := true)], sub := Validated,
         log := s.log + [Entry(s.sub.last, Some(if s.subs == [] then 0 else |s.subs| - 1))])
    case Release => s.(head := s.head + 1, sub := Idle)
    case WriteBack =>
      s.(ring := s.ring[Idx(s.hw) := s.ring[Idx(s.hw)].(valid := false)],
         executed := s.executed + [s.ring[Idx(s.hw)].chunk], hw := s.hw + 1)
    case CleanStart => s.(cl := Scanning, cached := s.head, local := s.tail)
    case CleanCheck => s.(cl := Found)
    case CleanStop => s.(cl := Resting, tail := s.local)
    case CleanCookie =>
      if s.tx[l].cookie != 0 then
        s.(completed := s.tx[l].cookie, tx := s.tx[l := s.tx[l].(cookie := 0)], cl := Calling)
      else s.(local := s.local + 1, cl := Scanning)
    case CleanCall =>
      s.(ran := s.ran + (if s.tx[l].callback.Some? then [s.tx[l].callback.value] else []),
         tx := s.tx[l := s.tx[l].(callback := None)],
         local := s.local + 1, done := s.done + 1, cl := Scanning)
  }

  // ---------------------------------------------------------------- invariant

  /** Slots that the submitter has reserved from the head on. */
  function Reserved(sub: Submitter): nat {
    match sub
    case Idle => 0
    case Programming(_, rest) => |rest|
    case Written(_, rest) => 1 + |rest|
    case _ => 1
  }

  /** At most N - 1 slots are in use or reserved, and the parties are in order. */
  ghost predicate Positions(s: State) {
    && |s.ring| == N && |s.tx| == N
    && s.tail <= s.local <= s.cached <= s.head && s.local <= s.hw <= |s.log|
    && |s.log| == s.head + (if s.sub.Written? || s.sub.Validated? then 1 else 0)
    && s.head + Reserved(s.sub) - s.tail <= N - 1
    && (s.sub.Programming? || s.sub.Written? ==> s.sub.rest != [])
    && (s.cl.Resting? ==> s.local == s.tail)
    && (s.cl.Found? || s.cl.Calling? ==> s.local < s.cached && s.local < s.hw)
  }

  /** The valid descriptors are exactly those not yet written back: positions [hw, n). */
  ghost predicate ValidAt(ring: seq<Cell>, n: nat, k: nat)
    requires |ring| == N
  {
    ring[Idx(k)].valid <==> k < n
  }

  ghost predicate ValidBits(ring: seq<Cell>, hw: nat, n: nat) {
    |ring| == N && forall k :: hw <= k < hw + N ==> ValidAt(ring, n, k)
  }

  /** What the engine will find in them. */
  ghost predicate ContentAt(ring: seq<Cell>, log: seq<Entry>, k: nat)
    requires |ring| == N && k < |log|
  {
    ring[Idx(k)].chunk == log[k].chunk
  }

  ghost predicate Contents(ring: seq<Cell>, hw: nat, log: seq<Entry>) {
    |ring| == N && forall k :: hw <= k < |log| ==> ContentAt(ring, log, k)
  }

  /** The last descriptor of a prepared transaction waits in the head slot. */
  ghost predicate LastWritten(ring: seq<Cell>, head: nat, sub: Submitter)
    requires |ring| == N
  {
    sub.Prepared? || sub.CookieSet? ==> ring[Idx(head)].chunk == sub.last
  }

  /** The transaction in the head slot of tx_array: none, allocated, or carrying its cookie. */
  datatype Open = Closed | Allocated | Submitted

  function OpenOf(sub: Submitter): Open {
    match sub
    case Prepared(_, _) => Allocated
    case CookieSet(_) => Submitted
    case Validated => Submitted
    case _ => Closed
  }

  /** What tx_array holds at position `k` of the window that starts at the cleanup's tail. */
  ghost predicate TxAt(tx: seq<Tx>, local: nat, calling: bool, head: nat, open: Open,
                       log: seq<Entry>, subs: seq<Sub>, k: nat)
    requires |tx| == N && local <= k && head <= |log|
  {
    var t := tx[Idx(k)];
    if k < head then
      match log[k].txn
      case None => t == Tx(0, None)
      case Some(n) => n < |subs| && t == Tx(if k == local && calling then 0 else CookieOf(n + 1), subs[n].callback)
    else if k == head then
      match open
      case Allocated => t.cookie == 0
      case Submitted => subs != [] && t == Tx(CookieOf(|subs|), subs[|subs| - 1].callback)
      case Closed => t == Tx(0, None)
    else t == Tx(0, None)
  }

  ghost predicate TxOk(tx: seq<Tx>, local: nat, calling: bool, head: nat, open: Open, log: seq<Entry>, subs: seq<Sub>) {
    && |tx| == N && head <= |log|
    && forall k :: local <= k < local + N ==> TxAt(tx, local, calling, head, open, log, subs, k)
  }

  ghost predicate SubAt(subs: seq<Sub>, log: seq<Entry>, bound: nat, n: nat)
    requires n < |subs|
  {
    && subs[n].pos < bound
    && (subs[n].pos < |log| ==> log[subs[n].pos].txn == Some(n))
  }

  ghost predicate EntryAt(subs: seq<Sub>, log: seq<Entry>, k: nat)
    requires k < |log|
  {
    log[k].txn.Some? ==> log[k].txn.value < |subs| && subs[log[k].txn.value].pos == k
  }

  /** Transactions end where they say, in submission order, all below `bound`. */
  ghost predicate SubsOk(subs: seq<Sub>, log: seq<Entry>, bound: nat) {
    && (forall n :: 0 <= n < |subs| ==> SubAt(subs, log, bound, n))
    && (forall k :: 0 <= k < |log| ==> EntryAt(subs, log, k))
    && (forall m, n :: 0 <= m < n < |subs| ==> subs[m].pos < subs[n].pos)
  }

  /** Positions below which all submitted transactions end. */
  function SubBound(s: State): nat {
    if s.sub.CookieSet? || s.sub.Validated? then s.head + 1 else s.head
  }

  /** The open transaction, once it has its cookie, is the last one and ends at the head. */
  ghost predicate OpenOk(s: State) {
    s.sub.CookieSet? || s.sub.Validated? ==> s.subs != [] && s.subs[|s.subs| - 1].pos == s.head
  }

  ghost function Callbacks(subs: seq<Sub>): seq<nat> {
    if subs == [] then []
    else Callbacks(subs[..|subs| - 1]) +
         (if subs[|subs| - 1].callback.Some? then [subs[|subs| - 1].callback.value] else [])
  }

  ghost predicate BehindAt(subs: seq<Sub>, local: nat, done: nat, n: nat)
    requires n < |subs|
  {
    subs[n].pos < local <==> n < done
  }

  ghost predicate BehindOk(subs: seq<Sub>, local: nat, done: nat) {
    done <= |subs| && forall n :: 0 <= n < |subs| ==> BehindAt(subs, local, done, n)
  }

  /** The first `done` transactions are those behind the cleanup, and exactly their callbacks have
      run, in order; the completed cookie is that of the last of them. */
  ghost predicate DoneOk(s: State) {
    && BehindOk(s.subs, s.local, s.done)
    && s.ran == Callbacks(s.subs[..s.done])
    && s.completed == CookieOf(Completed(s))
    && (s.cl.Calling? ==> s.local < |s.log| && s.log[s.local].txn == Some(s.done))
  }

  function Reqs(subs: seq<Sub>): (r: seq<Chunk>)
    ensures |r| == |subs| && forall i :: 0 <= i < |r| ==> r[i] == subs[i].req
  {
    seq(|subs|, i requires 0 <= i < |subs| => subs[i].req)
  }

  function LogChunks(log: seq<Entry>): (r: seq<Chunk>)
    ensures |r| == |log| && forall i :: 0 <= i < |r| ==> r[i] == log[i].chunk
  {
    seq(|log|, i requires 0 <= i < |log| => log[i].chunk)
  }

  /** Descriptors of the current request that are not in the log yet. */
  function Pending(sub: Submitter): seq<Chunk> {
    match sub
    case Programming(_, rest) => rest
    case Written(_, rest) => rest
    case Prepared(_, last) => [last]
    case CookieSet(last) => [last]
    case _ => []
  }

  /** Submitted requests and the one in preparation. */
  function AllReqs(subs: seq<Sub>, sub: Submitter): seq<Chunk> {
    if sub.Programming? || sub.Written? || sub.Prepared? then Reqs(subs) + [sub.req] else Reqs(subs)
  }

  /** The log is what splitting the requests gives. */
  ghost predicate SplitOk(log: seq<Entry>, subs: seq<Sub>, sub: Submitter) {
    LogChunks(log) + Pending(sub) == AllChunks(AllReqs(subs, sub))
  }

  ghost predicate EndAt(subs: seq<Sub>, n: nat)
    requires n < |subs|
  {
    |AllChunks(Reqs(subs[..n + 1]))| == subs[n].pos + 1
  }

  ghost predicate EndsOk(subs: seq<Sub>) {
    forall n :: 0 <= n < |subs| ==> EndAt(subs, n)
  }

  ghost predicate ExecutedOk(executed: seq<Chunk>, log: seq<Entry>, hw: nat) {
    hw <= |log| && executed == LogChunks(log)[..hw]
  }

  ghost predicate RingInv(s: State) {
    && Positions(s) && ValidBits(s.ring, s.hw, |s.log|) && Contents(s.ring, s.hw, s.log)
    && LastWritten(s.ring, s.head, s.sub) && ExecutedOk(s.executed, s.log, s.hw)
  }

  ghost predicate TxInv(s: State) {
    TxOk(s.tx, s.local, s.cl.Calling?, s.head, OpenOf(s.sub), s.log, s.subs)
  }

  ghost predicate SubsInv(s: State) {
    && SubsOk(s.subs, s.log, SubBound(s)) && OpenOk(s) && s.cookie == CookieOf(|s.subs|)
    && DoneOk(s)
  }

  ghost predicate HistoryInv(s: State) {
    SplitOk(s.log, s.subs, s.sub) && EndsOk(s.subs)
  }

  ghost predicate Inv(s: State) {
    RingInv(s) && TxInv(s) && SubsInv(s) && HistoryInv(s)
  }

  lemma WriteSplit(log: seq<Entry>, subs: seq<Sub>, req: Chunk, rest: seq<Chunk>)
    requires rest != [] && SplitOk(log, subs, Programming(req, rest))
    ensures SplitOk(log + [Entry(rest[0], None)], subs, Written(req, rest[1..]))
  {
    assert LogChunks(log + [Entry(rest[0], None)]) + rest[1..] == LogChunks(log) + rest;
  }

  lemma SubmitSplit(log: seq<Entry>, subs: seq<Sub>, req: Chunk, last: Chunk, x: Sub)
    requires SplitOk(log, subs, Prepared(req, last)) && EndsOk(subs) && x.req == req && x.pos == |log|
    ensures SplitOk(log, subs + [x], CookieSet(last)) && EndsOk(subs + [x])
  {
    assert Reqs(subs + [x]) == Reqs(subs) + [req];
    EndsGrow(subs, x);
  }

  lemma ValidSplit(log: seq<Entry>, subs: seq<Sub>, last: Chunk, e: Entry)
    requires SplitOk(log, subs, CookieSet(last)) && e.chunk == last
    ensures SplitOk(log + [e], subs, Validated)
  {
    assert LogChunks(log + [e]) + [] == LogChunks(log) + [last];
  }

  // ---------------------------------------------------------------- what a step leaves alone

  lemma RingKept(s: State, t: State)
    requires RingInv(s) && Positions(t) && t.ring == s.ring && t.hw == s.hw &&
             t.log == s.log && t.executed == s.executed
    requires t.sub.Prepared? || t.sub.CookieSet? ==> t.head == s.head && t.sub == s.sub
    ensures RingInv(t)
  {
  }

  lemma TxKept(s: State, t: State)
    requires TxInv(s) && t.tx == s.tx && t.local == s.local && t.cl.Calling? == s.cl.Calling?
    requires t.head == s.head && OpenOf(t.sub) == OpenOf(s.sub) && t.log == s.log && t.subs == s.subs
    ensures TxInv(t)
  {
  }

  lemma SubsKept(s: State, t: State)
    requires SubsInv(s) && t.subs == s.subs && t.log == s.log && t.head == s.head && t.sub == s.sub
    requires t.cookie == s.cookie && t.local == s.local && t.done == s.done && t.ran == s.ran
    requires t.completed == s.completed && t.cl.Calling? == s.cl.Calling?
    ensures SubsInv(t)
  {
  }

  lemma HistoryKept(s: State, t: State)
    requires HistoryInv(s) && t.log == s.log && t.subs == s.subs
    requires Pending(t.sub) == Pending(s.sub) && AllReqs(t.subs, t.sub) == AllReqs(s.subs, s.sub)
    ensures HistoryInv(t)
  {
  }

  // ---------------------------------------------------------------- submitter steps

  lemma AllChunksSnoc(reqs: seq<Chunk>, r: Chunk)
    ensures AllChunks(reqs + [r]) == AllChunks(reqs) + Chunks(r.src, r.dst, r.len)
  {
    assert (reqs + [r])[..|reqs|] == reqs;
  }

  lemma PrepareKeeps(s: State, req: Chunk)
    requires Inv(s) && Enabled(s, Prepare(req))
    ensures Inv(Next(s, Prepare(req)))
  {
    var t := Next(s, Prepare(req));
    RingCountExact(s.head, s.tail);
    RingKept(s, t);
    TxKept(s, t);
    PrepareHistory(s, req);
  }

  lemma PrepareHistory(s: State, req: Chunk)
    requires |s.ring| == |s.tx| == N && HistoryInv(s) && Enabled(s, Prepare(req))
    ensures HistoryInv(Next(s, Prepare(req)))
  {
    AllChunksSnoc(Reqs(s.subs), req);
    assert LogChunks(s.log) + [] == LogChunks(s.log);
  }

  /** The slot about to be written is not valid, no transaction is pending on it, and its
      callback has run: the driver's "Descriptor in USE" branch is unreachable. */
  lemma SlotIsFree(s: State)
    requires Inv(s) && s.sub.Programming?
    ensures !s.ring[Idx(s.head)].valid && s.tx[Idx(s.head)] == Tx(0, None)
    ensures forall n :: 0 <= n < |s.subs| && Idx(s.subs[n].pos) == Idx(s.head) ==> n < s.done && s.subs[n].pos < s.hw
    ensures Enabled(s, WriteDesc)
  {
    assert TxAt(s.tx, s.local, s.cl.Calling?, s.head, Closed, s.log, s.subs, s.head);
    assert ValidAt(s.ring, |s.log|, s.head);
    forall n | 0 <= n < |s.subs| && Idx(s.subs[n].pos) == Idx(s.head) ensures n < s.done && s.subs[n].pos < s.hw {
      assert SubAt(s.subs, s.log, s.head, n) && BehindAt(s.subs, s.local, s.done, n);
      if s.subs[n].pos + N > s.head { IdxDiffer(s.subs[n].pos, s.head); }
    }
  }

  /** Writing the slot at position `n` changes no other position of the engine's window. */
  lemma WriteSlot(ring: seq<Cell>, hw: nat, log: seq<Entry>, n: nat, d: Cell)
    requires ValidBits(ring, hw, |log|) && Contents(ring, hw, log) && n == |log| < hw + N && hw <= |log|
    ensures var r := ring[Idx(n) := d];
            && (d.valid ==> ValidBits(r, hw, |log| + 1)) && (!d.valid ==> ValidBits(r, hw, |log|))
            && Contents(r, hw, log)
            && (d.valid ==> forall e: Entry :: d.chunk == e.chunk ==> Contents(r, hw, log + [e]))
  {
    var r := ring[Idx(n) := d];
    forall k | hw <= k < hw + N
      ensures k != n ==> r[Idx(k)] == ring[Idx(k)]
      ensures k != n ==> ValidAt(r, |log|, k) && ValidAt(r, |log| + 1, k)
    {
      assert ValidAt(ring, |log|, k);
      if k < n { IdxDiffer(k, n); } else if k > n { IdxDiffer(n, k); }
    }
    forall k | hw <= k < |log| ensures ContentAt(r, log, k) { assert ContentAt(ring, log, k); }
    if d.valid {
      forall e: Entry | d.chunk == e.chunk
        ensures Contents(r, hw, log + [e])
      {
        forall k | hw <= k < |log + [e]| ensures ContentAt(r, log + [e], k) {
          if k < n { assert ContentAt(r, log, k); }
        }
      }
    }
  }

  lemma TxLogGrows(tx: seq<Tx>, local: nat, calling: bool, head: nat, open: Open,
                   log: seq<Entry>, subs: seq<Sub>, e: Entry)
    requires TxOk(tx, local, calling, head, open, log, subs)
    ensures TxOk(tx, local, calling, head, open, log + [e], subs)
  {
    forall k | local <= k < local + N
      ensures TxAt(tx, local, calling, head, open, log + [e], subs, k)
    {
      assert TxAt(tx, local, calling, head, open, log, subs, k);
    }
  }

  /** The head moves past a slot whose tx_array entry already says what the log says. */
  lemma TxAdvance(tx: seq<Tx>, local: nat, calling: bool, head: nat, open: Open, log: seq<Entry>, subs: seq<Sub>)
    requires TxOk(tx, local, calling, head, open, log, subs) && head < |log| && local <= head < local + N - 1
    requires (open == Closed && log[head].txn == None) ||
             (open == Submitted && subs != [] && log[head].txn == Some(|subs| - 1) && !(calling && local == head))
    ensures TxOk(tx, local, calling, head + 1, Closed, log, subs)
  {
    var head' := head + 1;
    forall k | local <= k < local + N
      ensures TxAt(tx, local, calling, head', Closed, log, subs, k)
    {
      assert TxAt(tx, local, calling, head, open, log, subs, k);
    }
  }

  lemma TxWriteHead(tx: seq<Tx>, local: nat, calling: bool, head: nat, log: seq<Entry>, subs: seq<Sub>, t: Tx)
    requires TxOk(tx, local, calling, head, Allocated, log, subs) && local <= head < local + N && t.cookie == 0
    ensures TxOk(tx[Idx(head) := t], local, calling, head, Allocated, log, subs)
  {
    var r := tx[Idx(head) := t];
    forall k | local <= k < local + N
      ensures TxAt(r, local, calling, head, Allocated, log, subs, k)
    {
      assert TxAt(tx, local, calling, head, Allocated, log, subs, k);
      if k < head { IdxDiffer(k, head); } else if k > head { IdxDiffer(head, k); }
    }
  }

  lemma TxSubmit(tx: seq<Tx>, local: nat, calling: bool, head: nat, log: seq<Entry>, subs: seq<Sub>, req: Chunk)
    requires TxOk(tx, local, calling, head, Allocated, log, subs) && local <= head < local + N
    ensures var cb := tx[Idx(head)].callback;
            TxOk(tx[Idx(head) := Tx(CookieOf(|subs| + 1), cb)], local, calling, head, Submitted,
                 log, subs + [Sub(req, cb, head)])
  {
    var cb := tx[Idx(head)].callback;
    var r, subs' := tx[Idx(head) := Tx(CookieOf(|subs| + 1), cb)], subs + [Sub(req, cb, head)];
    forall k | local <= k < local + N
      ensures TxAt(r, local, calling, head, Submitted, log, subs', k)
    {
      assert TxAt(tx, local, calling, head, Allocated, log, subs, k);
      if k < head { IdxDiffer(k, head); } else if k > head { IdxDiffer(head, k); }
    }
  }

  lemma TxOpen(tx: seq<Tx>, local: nat, calling: bool, head: nat, log: seq<Entry>, subs: seq<Sub>)
    requires TxOk(tx, local, calling, head, Closed, log, subs)
    ensures TxOk(tx, local, calling, head, Allocated, log, subs)
  {
    forall k | local <= k < local + N
      ensures TxAt(tx, local, calling, head, Allocated, log, subs, k)
    {
      assert TxAt(tx, local, calling, head, Closed, log, subs, k);
    }
  }

  lemma SubsLogGrows(subs: seq<Sub>, log: seq<Entry>, bound: nat, e: Entry)
    requires SubsOk(subs, log, bound)
    requires match e.txn
             case None => bound <= |log|
             case Some(n) => n + 1 == |subs| && subs[n].pos == |log|
    ensures SubsOk(subs, log + [e], bound)
  {
    var log' := log + [e];
    forall n | 0 <= n < |subs| ensures SubAt(subs, log', bound, n) { assert SubAt(subs, log, bound, n); }
    forall k | 0 <= k < |log'| ensures EntryAt(subs, log', k) { if k < |log| { assert EntryAt(subs, log, k); } }
  }

  lemma SubsBoundGrows(subs: seq<Sub>, log: seq<Entry>, bound: nat, b: nat)
    requires SubsOk(subs, log, bound) && bound <= b
    ensures SubsOk(subs, log, b)
  {
    forall n | 0 <= n < |subs| ensures SubAt(subs, log, b, n) { assert SubAt(subs, log, bound, n); }
  }

  lemma SubsGrow(subs: seq<Sub>, log: seq<Entry>, head: nat, x: Sub)
    requires SubsOk(subs, log, head) && x.pos == head == |log|
    ensures SubsOk(subs + [x], log, head + 1)
  {
    var subs' := subs + [x];
    var b := head + 1;
    forall n | 0 <= n < |subs'| ensures SubAt(subs', log, b, n) { if n < |subs| { assert SubAt(subs, log, head, n); } }
    forall k | 0 <= k < |log| ensures EntryAt(subs', log, k) { assert EntryAt(subs, log, k); }
    forall m, n | 0 <= m < n < |subs'| ensures subs'[m].pos < subs'[n].pos { assert SubAt(subs, log, head, m); }
  }

  lemma WriteMoreKeeps(s: State)
    requires Inv(s) && Enabled(s, WriteDesc) && |s.sub.rest| > 1
    ensures Inv(Next(s, WriteDesc))
  {
    var t, c := Next(s, WriteDesc), s.sub.rest[0];
    assert RingInv(t) by { WriteMoreRing(s); }
    assert TxInv(t) by { TxLogGrows(s.tx, s.local, s.cl.Calling?, s.head, Closed, s.log, s.subs, Entry(c, None)); }
    assert SubsInv(t) by { WriteMoreSubs(s); }
    assert HistoryInv(t) by { WriteSplit(s.log, s.subs, s.sub.req, s.sub.rest); }
  }

  lemma WriteMoreRing(s: State)
    requires RingInv(s) && Enabled(s, WriteDesc) && |s.sub.rest| > 1
    ensures RingInv(Next(s, WriteDesc))
  {
    var t, c := Next(s, WriteDesc), s.sub.rest[0];
    WriteSlot(s.ring, s.hw, s.log, s.head, Cell(true, c));
    assert LogChunks(t.log)[..s.hw] == LogChunks(s.log)[..s.hw];
  }

  lemma WriteMoreSubs(s: State)
    requires RingInv(s) && SubsInv(s) && Enabled(s, WriteDesc) && |s.sub.rest| > 1
    ensures SubsInv(Next(s, WriteDesc))
  {
    SubsLogGrows(s.subs, s.log, s.head, Entry(s.sub.rest[0], None));
  }

  lemma WriteLastKeeps(s: State)
    requires Inv(s) && Enabled(s, WriteDesc) && |s.sub.rest| == 1
    ensures Inv(Next(s, WriteDesc))
  {
    var t, c := Next(s, WriteDesc), s.sub.rest[0];
    WriteSlot(s.ring, s.hw, s.log, s.head, Cell(false, c));
    TxOpen(s.tx, s.local, s.cl.Calling?, s.head, s.log, s.subs);
    assert Pending(t.sub) == Pending(s.sub);
  }

  lemma AdvanceKeeps(s: State)
    requires Inv(s) && Enabled(s, AdvanceHead)
    ensures Inv(Next(s, AdvanceHead))
  {
    var t := Next(s, AdvanceHead);
    RingKept(s, t);
    AdvanceTx(s);
    AdvanceSubs(s);
    HistoryKept(s, t);
  }

  lemma AdvanceTx(s: State)
    requires RingInv(s) && TxInv(s) && SubsInv(s) && Enabled(s, AdvanceHead)
    ensures TxInv(Next(s, AdvanceHead))
  {
    PlainEntry(s.subs, s.log, s.head);
    TxAdvance(s.tx, s.local, s.cl.Calling?, s.head, Closed, s.log, s.subs);
  }

  lemma AdvanceSubs(s: State)
    requires RingInv(s) && SubsInv(s) && Enabled(s, AdvanceHead)
    ensures SubsInv(Next(s, AdvanceHead))
  {
    SubsBoundGrows(s.subs, s.log, s.head, s.head + 1);
  }

  lemma PlainEntry(subs: seq<Sub>, log: seq<Entry>, head: nat)
    requires SubsOk(subs, log, head) && head < |log|
    ensures log[head].txn == None
  {
    assert EntryAt(subs, log, head);
    var n := if log[head].txn.Some? then log[head].txn.value else 0;
    assert n < |subs| ==> SubAt(subs, log, head, n);
  }

  lemma SetCallbackKeeps(s: State, cb: Option<nat>)
    requires Inv(s) && Enabled(s, SetCallback(cb))
    ensures Inv(Next(s, SetCallback(cb)))
  {
    assert TxAt(s.tx, s.local, s.cl.Calling?, s.head, Allocated, s.log, s.subs, s.head);
    TxWriteHead(s.tx, s.local, s.cl.Calling?, s.head, s.log, s.subs, s.tx[Idx(s.head)].(callback := cb));
  }

  lemma SetCookieKeeps(s: State)
    requires Inv(s) && Enabled(s, SetCookie)
    ensures Inv(Next(s, SetCookie))
  {
    var t := Next(s, SetCookie);
    assert RingInv(t);
    assert TxInv(t) by { SetCookieTx(s); }
    assert SubsInv(t) by { SetCookieSubs(s); }
    assert HistoryInv(t) by { SubmitSplit(s.log, s.subs, s.sub.req, s.sub.last, t.subs[|s.subs|]); }
  }

  lemma SetCookieTx(s: State)
    requires Inv(s) && Enabled(s, SetCookie)
    ensures TxInv(Next(s, SetCookie))
  {
    NextCookieOf(|s.subs|);
    TxSubmit(s.tx, s.local, s.cl.Calling?, s.head, s.log, s.subs, s.sub.req);
  }

  lemma SetCookieSubs(s: State)
    requires RingInv(s) && SubsInv(s) && Enabled(s, SetCookie)
    ensures SubsInv(Next(s, SetCookie))
  {
    var x := Sub(s.sub.req, s.tx[Idx(s.head)].callback, s.head);
    SubsGrow(s.subs, s.log, s.head, x);
    SetCookieDone(s, Next(s, SetCookie), x);
  }

  lemma SetCookieDone(s: State, t: State, x: Sub)
    requires DoneOk(s) && s.cookie == CookieOf(|s.subs|) && s.local <= x.pos
    requires t == s.(cookie := NextCookie(s.cookie), tx := t.tx, sub := t.sub, subs := s.subs + [x])
    ensures DoneOk(t) && t.cookie == CookieOf(|t.subs|)
  {
    NextCookieOf(|s.subs|);
    BehindGrow(s.subs, x, s.local, s.done);
  }

  lemma BehindGrow(subs: seq<Sub>, x: Sub, local: nat, done: nat)
    requires BehindOk(subs, local, done) && local <= x.pos
    ensures BehindOk(subs + [x], local, done) && (subs + [x])[..done] == subs[..done]
  {
    forall n | 0 <= n < |subs + [x]|
      ensures BehindAt(subs + [x], local, done, n)
    {
      if n < |subs| { assert BehindAt(subs, local, done, n); }
    }
  }

  lemma EndsGrow(subs: seq<Sub>, x: Sub)
    requires EndsOk(subs) && |AllChunks(Reqs(subs + [x]))| == x.pos + 1
    ensures EndsOk(subs + [x])
  {
    forall n | 0 <= n < |subs + [x]|
      ensures EndAt(subs + [x], n)
    {
      if n < |subs| {
        assert EndAt(subs, n);
        assert (subs + [x])[..n + 1] == subs[..n + 1];
      } else {
        assert (subs + [x])[..n + 1] == subs + [x];
      }
    }
  }

  lemma SetValidKeeps(s: State)
    requires Inv(s) && Enabled(s, SetValid)
    ensures Inv(Next(s, SetValid))
  {
    var t := Next(s, SetValid);
    assert RingInv(t) by { SetValidRing(s); }
    assert TxInv(t) by { TxLogGrows(s.tx, s.local, s.cl.Calling?, s.head, Submitted, s.log, s.subs, t.log[s.head]); }
    assert SubsInv(t) by { SetValidSubs(s); }
    assert HistoryInv(t) by { ValidSplit(s.log, s.subs, s.sub.last, t.log[s.head]); }
  }

  lemma SetValidRing(s: State)
    requires RingInv(s) && Enabled(s, SetValid)
    ensures RingInv(Next(s, SetValid))
  {
    var t := Next(s, SetValid);
    WriteSlot(s.ring, s.hw, s.log, s.head, s.ring[Idx(s.head)].(valid := true));
    assert LogChunks(t.log)[..s.hw] == LogChunks(s.log)[..s.hw];
  }

  lemma SetValidSubs(s: State)
    requires RingInv(s) && SubsInv(s) && Enabled(s, SetValid)
    ensures SubsInv(Next(s, SetValid))
  {
    SubsLogGrows(s.subs, s.log, s.head + 1, Entry(s.sub.last, Some(|s.subs| - 1)));
  }

  lemma ReleaseKeeps(s: State)
    requires Inv(s) && Enabled(s, Release)
    ensures Inv(Next(s, Release))
  {
    var t := Next(s, Release);
    RingKept(s, t);
    ReleaseTx(s);
    ReleaseSubs(s);
    HistoryKept(s, t);
  }

  lemma ReleaseTx(s: State)
    requires RingInv(s) && TxInv(s) && SubsInv(s) && Enabled(s, Release)
    ensures TxInv(Next(s, Release))
  {
    assert SubAt(s.subs, s.log, s.head + 1, |s.subs| - 1);
    TxAdvance(s.tx, s.local, s.cl.Calling?, s.head, Submitted, s.log, s.subs);
  }

  lemma ReleaseSubs(s: State)
    requires RingInv(s) && SubsInv(s) && Enabled(s, Release)
    ensures SubsInv(Next(s, Release))
  {
  }

  // ---------------------------------------------------------------- the engine

  lemma WriteBackSlot(ring: seq<Cell>, hw: nat, log: seq<Entry>)
    requires ValidBits(ring, hw, |log|) && Contents(ring, hw, log) && ring[Idx(hw)].valid && |log| < hw + N
    ensures var r := ring[Idx(hw) := ring[Idx(hw)].(valid := false)];
            && hw < |log| && ring[Idx(hw)].chunk == log[hw].chunk
            && ValidBits(r, hw + 1, |log|) && Contents(r, hw + 1, log)
  {
    var r, hw' := ring[Idx(hw) := ring[Idx(hw)].(valid := false)], hw + 1;
    assert ValidAt(ring, |log|, hw) && ContentAt(ring, log, hw);
    forall k | hw' <= k < hw' + N
      ensures ValidAt(r, |log|, k)
    {
      if k < hw + N {
        assert ValidAt(ring, |log|, k);
        IdxDiffer(hw, k);
        assert r[Idx(k)] == ring[Idx(k)];
      } else {
        IdxWrap(hw, k);
      }
    }
    forall k | hw' <= k < |log|
      ensures ContentAt(r, log, k)
    {
      assert ContentAt(ring, log, k);
    }
  }

  lemma WriteBackKeeps(s: State)
    requires Inv(s) && Enabled(s, WriteBack)
    ensures Inv(Next(s, WriteBack))
  {
    var t := Next(s, WriteBack);
    WriteBackRing(s);
    TxKept(s, t);
    SubsKept(s, t);
    HistoryKept(s, t);
  }

  lemma WriteBackRing(s: State)
    requires RingInv(s) && Enabled(s, WriteBack)
    ensures RingInv(Next(s, WriteBack))
  {
    var t := Next(s, WriteBack);
    WriteBackSlot(s.ring, s.hw, s.log);
    assert LogChunks(s.log)[..s.hw + 1] == LogChunks(s.log)[..s.hw] + [s.log[s.hw].chunk];
    if s.sub.Prepared? || s.sub.CookieSet? { assert t.ring[Idx(s.head)].chunk == s.ring[Idx(s.head)].chunk; }
  }

  // ---------------------------------------------------------------- the cleanup

  lemma CleanStartKeeps(s: State)
    requires Inv(s) && Enabled(s, CleanStart)
    ensures Inv(Next(s, CleanStart))
  {
    var t := Next(s, CleanStart);
    RingKept(s, t);
    TxKept(s, t);
    SubsKept(s, t);
    HistoryKept(s, t);
  }

  lemma CleanCheckKeeps(s: State)
    requires Inv(s) && Enabled(s, CleanCheck)
    ensures Inv(Next(s, CleanCheck))
  {
    var t := Next(s, CleanCheck);
    assert s.hw <= s.local ==> ValidAt(s.ring, |s.log|, s.local);
    RingKept(s, t);
    TxKept(s, t);
    SubsKept(s, t);
    HistoryKept(s, t);
  }

  lemma CleanStopKeeps(s: State)
    requires Inv(s) && Enabled(s, CleanStop)
    ensures Inv(Next(s, CleanStop))
  {
    var t := Next(s, CleanStop);
    RingKept(s, t);
    TxKept(s, t);
    SubsKept(s, t);
    HistoryKept(s, t);
  }

  /** The cleanup's slot: an entry without a transaction is blank; otherwise it is the next one due. */
  lemma CleanSlot(s: State)
    requires RingInv(s) && TxInv(s) && SubsInv(s) && s.cl.Found?
    ensures s.local < |s.log|
    ensures s.log[s.local].txn == None ==> s.tx[Idx(s.local)] == Tx(0, None)
    ensures s.log[s.local].txn.Some? ==>
              && s.log[s.local].txn.value == s.done < |s.subs| && s.subs[s.done].pos == s.local
              && s.tx[Idx(s.local)] == Tx(CookieOf(s.done + 1), s.subs[s.done].callback)
  {
    assert TxAt(s.tx, s.local, false, s.head, OpenOf(s.sub), s.log, s.subs, s.local);
    assert EntryAt(s.subs, s.log, s.local);
    if s.log[s.local].txn.Some? {
      var n := s.log[s.local].txn.value;
      assert BehindAt(s.subs, s.local, s.done, n);
      assert BehindAt(s.subs, s.local, s.done, s.done);
    }
  }

  /** The window moves on by one when the slot it leaves is blank. */
  lemma TxPass(tx: seq<Tx>, local: nat, head: nat, open: Open, log: seq<Entry>, subs: seq<Sub>)
    requires TxOk(tx, local, false, head, open, log, subs) && local < head < local + N && tx[Idx(local)] == Tx(0, None)
    ensures TxOk(tx, local + 1, false, head, open, log, subs)
  {
    var local' := local + 1;
    forall k | local' <= k < local' + N
      ensures TxAt(tx, local', false, head, open, log, subs, k)
    {
      if k < local + N { assert TxAt(tx, local, false, head, open, log, subs, k); } else { IdxWrap(local, k); }
    }
  }

  lemma PassKeeps(s: State)
    requires Inv(s) && s.cl.Found? && s.tx[Idx(s.local)].cookie == 0
    ensures Inv(Next(s, CleanCookie))
  {
    var t := Next(s, CleanCookie);
    PassSlot(s);
    RingKept(s, t);
    TxPass(s.tx, s.local, s.head, OpenOf(s.sub), s.log, s.subs);
    PassSubs(s);
    HistoryKept(s, t);
  }

  lemma PassSlot(s: State)
    requires RingInv(s) && TxInv(s) && SubsInv(s) && s.cl.Found? && s.tx[Idx(s.local)].cookie == 0
    ensures s.local < |s.log| && s.log[s.local].txn == None && s.tx[Idx(s.local)] == Tx(0, None)
  {
    CleanSlot(s);
    NextCookieOf(s.done + 1);
  }

  lemma PassSubs(s: State)
    requires |s.ring| == |s.tx| == N && SubsInv(s) && s.cl.Found? && s.tx[Idx(s.local)].cookie == 0
    requires s.local < |s.log| && s.log[s.local].txn == None
    ensures SubsInv(Next(s, CleanCookie))
  {
    BehindPass(s.subs, s.log, SubBound(s), s.local, s.done);
  }

  lemma BehindPass(subs: seq<Sub>, log: seq<Entry>, bound: nat, local: nat, done: nat)
    requires BehindOk(subs, local, done) && SubsOk(subs, log, bound) && local < |log| && log[local].txn == None
    ensures BehindOk(subs, local + 1, done)
  {
    var l := local + 1;
    forall n | 0 <= n < |subs|
      ensures BehindAt(subs, l, done, n)
    {
      assert BehindAt(subs, local, done, n) && SubAt(subs, log, bound, n);
    }
  }

  lemma TxTake(tx: seq<Tx>, local: nat, head: nat, open: Open, log: seq<Entry>, subs: seq<Sub>)
    requires TxOk(tx, local, false, head, open, log, subs) && local < head < local + N && log[local].txn.Some?
    ensures TxOk(tx[Idx(local) := tx[Idx(local)].(cookie := 0)], local, true, head, open, log, subs)
  {
    var r := tx[Idx(local) := tx[Idx(local)].(cookie := 0)];
    forall k | local <= k < local + N
      ensures TxAt(r, local, true, head, open, log, subs, k)
    {
      assert TxAt(tx, local, false, head, open, log, subs, k);
      if k > local { IdxDiffer(local, k); }
    }
  }

  lemma CompleteKeeps(s: State)
    requires Inv(s) && s.cl.Found? && s.tx[Idx(s.local)].cookie != 0
    ensures Inv(Next(s, CleanCookie))
  {
    var t := Next(s, CleanCookie);
    CleanSlot(s);
    RingKept(s, t);
    TxTake(s.tx, s.local, s.head, OpenOf(s.sub), s.log, s.subs);
    CompleteSubs(s);
    HistoryKept(s, t);
  }

  lemma CompleteSubs(s: State)
    requires RingInv(s) && TxInv(s) && SubsInv(s) && s.cl.Found? && s.tx[Idx(s.local)].cookie != 0
    ensures SubsInv(Next(s, CleanCookie))
  {
    CleanSlot(s);
  }

  lemma TxFinish(tx: seq<Tx>, local: nat, head: nat, open: Open, log: seq<Entry>, subs: seq<Sub>)
    requires TxOk(tx, local, true, head, open, log, subs) && local < head < local + N && log[local].txn.Some?
    ensures TxOk(tx[Idx(local) := tx[Idx(local)].(callback := None)], local + 1, false, head, open, log, subs)
  {
    var r, local' := tx[Idx(local) := tx[Idx(local)].(callback := None)], local + 1;
    assert TxAt(tx, local, true, head, open, log, subs, local);
    forall k | local' <= k < local' + N
      ensures TxAt(r, local', false, head, open, log, subs, k)
    {
      if k < local + N {
        assert TxAt(tx, local, true, head, open, log, subs, k);
        IdxDiffer(local, k);
      } else {
        IdxWrap(local, k);
      }
    }
  }

  lemma CallKeeps(s: State)
    requires Inv(s) && Enabled(s, CleanCall)
    ensures Inv(Next(s, CleanCall))
  {
    var t := Next(s, CleanCall);
    RingKept(s, t);
    TxFinish(s.tx, s.local, s.head, OpenOf(s.sub), s.log, s.subs);
    CallSubs(s);
    HistoryKept(s, t);
  }

  lemma CallSubs(s: State)
    requires RingInv(s) && TxInv(s) && SubsInv(s) && Enabled(s, CleanCall)
    ensures SubsInv(Next(s, CleanCall))
  {
    assert TxAt(s.tx, s.local, true, s.head, OpenOf(s.sub), s.log, s.subs, s.local);
    assert EntryAt(s.subs, s.log, s.local);
    BehindNext(s.subs, s.local, s.done);
    assert s.subs[..s.done + 1][..s.done] == s.subs[..s.done];
  }

  lemma BehindNext(subs: seq<Sub>, local: nat, done: nat)
    requires BehindOk(subs, local, done) && done < |subs| && subs[done].pos == local
    requires forall m, n :: 0 <= m < n < |subs| ==> subs[m].pos < subs[n].pos
    ensures BehindOk(subs, local + 1, done + 1)
  {
    var l, d := local + 1, done + 1;
    forall n | 0 <= n < |subs|
      ensures BehindAt(subs, l, d, n)
    {
      assert BehindAt(subs, local, done, n);
    }
  }

  // ---------------------------------------------------------------- runs

  lemma NextKeeps(s: State, step: Step)
    requires Inv(s) && Enabled(s, step)
    ensures Inv(Next(s, step))
  {
    match step
    case Prepare(req) => PrepareKeeps(s, req);
    case WriteDesc => if |s.sub.rest| > 1 { WriteMoreKeeps(s); } else { WriteLastKeeps(s); }
    case AdvanceHead => AdvanceKeeps(s);
    case SetCallback(cb) => SetCallbackKeeps(s, cb);
    case SetCookie => SetCookieKeeps(s);
    case SetValid => SetValidKeeps(s);
    case Release => ReleaseKeeps(s);
    case WriteBack => WriteBackKeeps(s);
    case CleanStart => CleanStartKeeps(s);
    case CleanCheck => CleanCheckKeeps(s);
    case CleanStop => CleanStopKeeps(s);
    case CleanCookie => if s.tx[Idx(s.local)].cookie != 0 { CompleteKeeps(s); } else { PassKeeps(s); }
    case CleanCall => CallKeeps(s);
  }

  ghost predicate Legal(s: State, steps: seq<Step>)
    requires Inv(s)
    decreases |steps|
  {
    steps == [] || (Enabled(s, steps[0]) && (NextKeeps(s, steps[0]); Legal(Next(s, steps[0]), steps[1..])))
  }

  ghost function Run(s: State, steps: seq<Step>): (t: State)
    requires Inv(s) && Legal(s, steps)
    ensures Inv(t)
    decreases |steps|
  {
    if steps == [] then s else NextKeeps(s, steps[0]); Run(Next(s, steps[0]), steps[1..])
  }

  /** A zeroed ring and a channel at the smallest cookie. */
  ghost function Boot(): (s: State)
    ensures Inv(s)
  {
    var s := State(seq(N, _ => Cell(false, Chunk(0, 0, 0))), seq(N, _ => Tx(0, None)), 0, 0, 0, 0, 0, 1, 1,
                   Idle, Resting, [], [], [], 0, []);
    assert LogChunks(s.log) + [] == [];
    assert Reqs(s.subs) == [];
    s
  }

  lemma {:induction false} PositionsSpread(subs: seq<Sub>, local: nat, done: nat, n: nat)
    requires BehindOk(subs, local, done) && done <= n < |subs|
    requires forall i, j :: 0 <= i < j < |subs| ==> subs[i].pos < subs[j].pos
    ensures subs[n].pos >= local + (n - done)
    decreases n
  {
    if n == done { assert BehindAt(subs, local, done, n); } else { PositionsSpread(subs, local, done, n - 1); }
  }

  /** Transactions that have given their cookie to the channel as the completed one. */
  function Completed(s: State): nat {
    s.done + if s.cl.Calling? then 1 else 0
  }

  /** Fewer transactions are under way than there are slots. */
  lemma UnderWay(s: State)
    requires RingInv(s) && SubsInv(s)
    ensures s.done <= Completed(s) <= |s.subs| <= s.done + N
  {
    if s.cl.Calling? { assert EntryAt(s.subs, s.log, s.local); }
    if |s.subs| > s.done {
      PositionsSpread(s.subs, s.local, s.done, |s.subs| - 1);
      assert SubAt(s.subs, s.log, SubBound(s), |s.subs| - 1);
    }
  }

  /** The `n`-th transaction, and so every descriptor before its end, has been written back. */
  lemma CompletedAreWrittenBack(s: State, n: nat)
    requires RingInv(s) && SubsInv(s) && n < |s.subs| && n < Completed(s)
    ensures s.subs[n].pos < s.hw
  {
    if n < s.done {
      assert BehindAt(s.subs, s.local, s.done, n);
    } else {
      assert EntryAt(s.subs, s.log, s.local);
    }
  }

  /** dma_async_is_complete of the Linux DMA engine: which cookies count as complete when `last` is
      the completed one and `used` the last one given out. */
  predicate IsComplete(cookie: nat, last: nat, used: nat) {
    if last <= used then cookie <= last || cookie > used else cookie <= last && cookie > used
  }

  /** For the cookies of the last MAX_COOKIE submissions the test compares submissions, wherever the
      cookies wrap. */
  lemma IsCompleteExactly(a: nat, d: nat, u: nat)
    requires d <= u < d + MAX_COOKIE && a <= u < a + MAX_COOKIE
    ensures IsComplete(CookieOf(a), CookieOf(d), CookieOf(u)) <==> a <= d
  {
    CookieIsRemainder(a);
    CookieIsRemainder(d);
    CookieIsRemainder(u);
  }

  /** plx_dma_cookie_status is exact: it answers whether a transaction has been completed. */
  lemma StatusExactly(s: State, n: nat)
    requires Inv(s) && n < |s.subs| <= n + MAX_COOKIE
    ensures IsComplete(CookieOf(n + 1), s.completed, s.cookie) <==> n < Completed(s)
  {
    UnderWay(s);
    IsCompleteExactly(n + 1, Completed(s), |s.subs|);
  }

  /** It reads the two cookies without a lock, the last one given out first, and may be old: there
      were `used` submissions then. Its yes is still right. */
  lemma StatusMeansWrittenBack(s: State, n: nat, used: nat)
    requires Inv(s) && n < used <= |s.subs| && IsComplete(CookieOf(n + 1), s.completed, CookieOf(used))
    ensures s.subs[n].pos < s.hw
  {
    UnderWay(s);
    if n >= Completed(s) {
      IsCompleteExactly(n + 1, Completed(s), used);
    }
    CompletedAreWrittenBack(s, n);
  }

  /** A submitted transaction's cookie is the completed one only after its last descriptor has been
      written back. */
  lemma CompletedMeansWrittenBack(s: State, n: nat)
    requires Inv(s) && n < |s.subs| && s.completed == CookieOf(n + 1)
    ensures s.subs[n].pos < s.hw
  {
    StatusMeansWrittenBack(s, n, |s.subs|);
  }

  lemma {:induction false} SubmissionsStay(s: State, steps: seq<Step>)
    requires Inv(s) && Legal(s, steps)
    ensures s.subs <= Run(s, steps).subs
    decreases |steps|
  {
    if steps != [] {
      NextKeeps(s, steps[0]);
      SubmissionStays(s, steps[0]);
      SubmissionsStay(Next(s, steps[0]), steps[1..]);
    }
  }

  lemma SubmissionStays(s: State, step: Step)
    requires |s.ring| == N && |s.tx| == N && Enabled(s, step)
    ensures s.subs <= Next(s, step).subs
  {
  }

  /** In every interleaving: a transaction that was submitted before the first of the two reads, and
      that the test then calls complete, has been written back, whatever happened between the reads. */
  lemma StatusIsSafe(before: seq<Step>, between: seq<Step>, n: nat)
    requires Legal(Boot(), before) && Legal(Run(Boot(), before), between) && n < |Run(Boot(), before).subs|
    requires IsComplete(CookieOf(n + 1), Run(Run(Boot(), before), between).completed, Run(Boot(), before).cookie)
    ensures var s := Run(Boot(), before);
            var t := Run(s, between);
            s.subs <= t.subs && t.subs[n].pos < t.hw
  {
    var s := Run(Boot(), before);
    SubmissionsStay(s, between);
    StatusMeansWrittenBack(Run(s, between), n, |s.subs|);
  }

  /** In every interleaving, each callback of a completed transaction has run exactly once, in
      submission order, and no other callback has run. */
  lemma CallbacksExactlyOnce(steps: seq<Step>)
    requires Legal(Boot(), steps)
    ensures var t := Run(Boot(), steps);
            && t.done <= |t.subs| && t.ran == Callbacks(t.subs[..t.done]) && t.completed == CookieOf(Completed(t))
            && (forall n :: 0 <= n < |t.subs| ==> (n < t.done <==> t.subs[n].pos < t.local))
            && (forall n :: 0 <= n < |t.subs| && IsComplete(CookieOf(n + 1), t.completed, t.cookie) ==>
                  t.subs[n].pos < t.hw)
  {
    var t := Run(Boot(), steps);
    forall n | 0 <= n < |t.subs| ensures n < t.done <==> t.subs[n].pos < t.local {
      assert BehindAt(t.subs, t.local, t.done, n);
    }
    forall n | 0 <= n < |t.subs| && IsComplete(CookieOf(n + 1), t.completed, t.cookie)
      ensures t.subs[n].pos < t.hw
    {
      StatusMeansWrittenBack(t, n, |t.subs|);
    }
  }

  lemma PositionOf(from: nat, i: nat) returns (k: nat)
    requires i < N
    ensures from <= k < from + N && Idx(k) == i
  {
    k := if i >= Idx(from) then from + (i - Idx(from)) else from + (i + N - Idx(from));
    IdxIsRemainder(from);
    IdxIsRemainder(k);
  }

  /** Every valid slot is in use between tail and head, or is the one being published; at most
      2047 slots are in use. */
  lemma ValidSlotsAreInUse(s: State, i: nat) returns (k: nat)
    requires Inv(s) && i < N && s.ring[i].valid
    ensures Idx(k) == i && s.tail <= k <= s.head && k < |s.log|
    ensures k == s.head ==> s.sub.Written? || s.sub.Validated?
    ensures s.head + Reserved(s.sub) - s.tail <= 2047
  {
    k := PositionOf(s.hw, i);
    assert ValidAt(s.ring, |s.log|, k);
  }

  lemma {:induction false} AllChunksPrefix(reqs: seq<Chunk>, n: nat)
    requires n <= |reqs|
    ensures AllChunks(reqs[..n]) <= AllChunks(reqs)
    decreases |reqs|
  {
    if n < |reqs| {
      AllChunksPrefix(reqs[..|reqs| - 1], n);
      assert reqs[..|reqs| - 1][..n] == reqs[..n];
    } else {
      assert reqs[..n] == reqs;
    }
  }

  /** What the engine has executed up to the end of a submitted transaction are the descriptors of
      all requests up to it, in submission order. */
  lemma ExecutedIs(s: State, n: nat)
    requires Inv(s) && n < |s.subs| && s.subs[n].pos < s.hw
    ensures |s.executed| > s.subs[n].pos && s.executed[..s.subs[n].pos + 1] == AllChunks(Reqs(s.subs[..n + 1]))
  {
    var reqs, all := Reqs(s.subs[..n + 1]), AllReqs(s.subs, s.sub);
    assert all[..n + 1] == reqs;
    AllChunksPrefix(all, n + 1);
    assert EndAt(s.subs, n);
  }

  /** For requests between disjoint ranges, that is the memcpy of each request. */
  lemma EngineDoesMemcpys(s: State, n: nat, m: Memory)
    requires Inv(s) && n < |s.subs| && s.subs[n].pos < s.hw
    requires forall i :: 0 <= i <= n ==> Disjoint(s.subs[i].req)
    ensures |s.executed| > s.subs[n].pos
    ensures SameMemory(Exec(m, s.executed[..s.subs[n].pos + 1]), Memcpys(m, Reqs(s.subs[..n + 1])))
  {
    ExecutedIs(s, n);
    RequestsAreMemcpys(m, Reqs(s.subs[..n + 1]));
  }
}
