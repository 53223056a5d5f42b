/**
 The split virtqueue as its driver sees it: a stack of free descriptors, disjoint chains of
 descriptors that belong to outstanding buffers, and the two ring positions.
 */
module VirtqueueSpec {
  import opened Bits
  import opened Wrappers

  type Token = int

  /** One contiguous piece of a buffer; `write` means that the device may write it. */
  datatype Piece = Piece(addr: nat, len: nat, write: bool)

  /** An outstanding buffer. `table` is the address of its indirect descriptor table, if it has
      one; `serial` counts the buffers added before it. */
  datatype Chain = Chain(ids: seq<nat>, token: Token, buf: seq<Piece>, table: Option<nat>, serial: nat)

  /** Where a descriptor is: counted from the bottom of the free stack, or from the head of a chain. */
  datatype Place = InFree(pos: nat) | InChain(head: nat, pos: nat)

  datatype Queue = Queue(num: nat, free: seq<nat>, chains: map<nat, Chain>, place: seq<Place>,
                         ring: seq<nat>, availIdx: nat, lastUsed: nat, numAdded: nat,
                         broken: bool, noInterrupt: bool, usedEvent: nat, serial: nat)

  // ---------------------------------------------------------------- the partition

  ghost predicate FreeAt(q: Queue, i: nat)
    requires i < |q.free| && |q.place| == q.num
  {
    q.free[i] < q.num && q.place[q.free[i]] == InFree(|q.free| - 1 - i)
  }

  ghost predicate ChainAt(q: Queue, h: nat, i: nat)
    requires h in q.chains && i < |q.chains[h].ids| && |q.place| == q.num
  {
    q.chains[h].ids[i] < q.num && q.place[q.chains[h].ids[i]] == InChain(h, i)
  }

  ghost predicate PlaceOk(q: Queue, d: nat)
    requires d < q.num == |q.place|
  {
    match q.place[d]
    case InFree(p) => p < |q.free| && q.free[|q.free| - 1 - p] == d
    case InChain(h, p) => h in q.chains && p < |q.chains[h].ids| && q.chains[h].ids[p] == d
  }

  ghost predicate ChainShape(h: nat, c: Chain) {
    && |c.ids| > 0 && c.ids[0] == h && |c.buf| > 0
    && |c.ids| == if c.table.Some? then 1 else |c.buf|
  }

  /** Every descriptor has exactly one place: in the free stack or in one chain. */
  ghost predicate Partitioned(q: Queue) {
    && |q.place| == q.num
    && (forall d :: 0 <= d < q.num ==> PlaceOk(q, d))
    && (forall i :: 0 <= i < |q.free| ==> FreeAt(q, i))
    && (forall h :: h in q.chains ==> ChainShape(h, q.chains[h]))
    && (forall h, i :: h in q.chains && 0 <= i < |q.chains[h].ids| ==> ChainAt(q, h, i))
  }

  ghost predicate RingsOk(q: Queue) {
    && IsPow2(q.num) && 0 < q.num <= 32768
    && |q.ring| == q.num && q.availIdx < U16 && q.lastUsed < U16 && q.usedEvent < U16
    && q.numAdded < U16
    && forall h :: h in q.chains ==> q.chains[h].serial < q.serial
  }

  ghost predicate Inv(q: Queue) {
    Partitioned(q) && RingsOk(q)
  }

  /** Between operations the forced kick leaves room for at least one more addition. */
  ghost predicate Settled(q: Queue) {
    q.numAdded < U16 - 1
  }

  lemma PlacesOf(q: Queue)
    requires Partitioned(q)
    ensures forall i :: 0 <= i < |q.free| ==> q.free[i] < q.num && q.place[q.free[i]] == InFree(|q.free| - 1 - i)
    ensures forall h, i :: h in q.chains && 0 <= i < |q.chains[h].ids| ==>
              q.chains[h].ids[i] < q.num && q.place[q.chains[h].ids[i]] == InChain(h, i)
    ensures forall h :: h in q.chains ==> h < q.num && q.place[h] == InChain(h, 0)
  {
    forall i | 0 <= i < |q.free|
      ensures q.free[i] < q.num && q.place[q.free[i]] == InFree(|q.free| - 1 - i)
    {
      assert FreeAt(q, i);
    }
    forall h, i | h in q.chains && 0 <= i < |q.chains[h].ids|
      ensures q.chains[h].ids[i] < q.num && q.place[q.chains[h].ids[i]] == InChain(h, i)
    {
      assert ChainAt(q, h, i);
    }
    forall h | h in q.chains
      ensures h < q.num && q.place[h] == InChain(h, 0)
    {
      assert ChainShape(h, q.chains[h]);
      assert ChainAt(q, h, 0);
    }
  }

  /** The plain reading of the invariant: the free stack and the chains are free of repetitions,
      pairwise disjoint, and together hold every descriptor; only the first descriptor of a chain
      holds a token. */
  lemma PartitionMeaning(q: Queue)
    requires Partitioned(q)
    ensures forall i, j :: 0 <= i < j < |q.free| ==> q.free[i] != q.free[j]
    ensures forall h, i, j :: h in q.chains && 0 <= i < j < |q.chains[h].ids| ==>
               q.chains[h].ids[i] != q.chains[h].ids[j]
    ensures forall h, g, d :: h in q.chains && g in q.chains && h != g && d in q.chains[h].ids ==> d !in q.chains[g].ids
    ensures forall h, d :: h in q.chains && d in q.chains[h].ids ==> d !in q.free && (d in q.chains ==> d == h)
    ensures forall d :: d in q.free ==> d !in q.chains
    ensures forall d: nat :: d < q.num <==> d in q.free || exists h :: h in q.chains && d in q.chains[h].ids
  {
    PlacesOf(q);
    forall d: nat
      ensures d < q.num <==> d in q.free || exists h :: h in q.chains && d in q.chains[h].ids
    {
      if d < q.num { assert PlaceOk(q, d); }
    }
  }

  // ---------------------------------------------------------------- steps

  /** vca_vring_new_virtqueue over zeroed ring memory. */
  function Fresh(num: nat, noInterrupt: bool): Queue {
    Queue(num, seq(num, i => i), map[], seq(num, d requires 0 <= d < num => InFree(num - 1 - d)),
          seq(num, _ => 0), 0, 0, 0, false, noInterrupt, 0, 0)
  }

  lemma FreshInv(num: nat, noInterrupt: bool)
    requires IsPow2(num) && num <= 32768
    ensures Inv(Fresh(num, noInterrupt))
  {
    var q := Fresh(num, noInterrupt);
    forall d | 0 <= d < num ensures PlaceOk(q, d) && FreeAt(q, d) {}
  }

  lemma Pow2Divides(num: nat)
    requires IsPow2(num) && num <= 32768
    ensures U16 % num == 0
  {
    var k: nat :| num == Pow2(k);
    assert Pow2(15) == 32768 && Pow2(16) == U16;
    if k > 16 { Pow2Monotone(16, k); }
    Pow2Add(16 - k, k);
    UniqueMod(U16, num, Pow2(16 - k), 0);
  }

  function Used(buf: seq<Piece>, table: Option<nat>): nat {
    if table.Some? then 1 else |buf|
  }

  /** virtqueue_add after its checks: take descriptors off the free stack and publish their head. */
  function Attach(q: Queue, buf: seq<Piece>, token: Token, table: Option<nat>): Queue
    requires Inv(q) && |buf| > 0 && Used(buf, table) <= |q.free|
  {
    var k, h := Used(buf, table), q.free[0];
    q.(free := q.free[k..],
       chains := q.chains[h := Chain(q.free[..k], token, buf, table, q.serial)],
       place := seq(q.num, d requires 0 <= d < q.num =>
         match q.place[d]
         case InFree(p) => if p + k >= |q.free| > p then InChain(h, |q.free| - 1 - p) else q.place[d]
         case InChain(_, _) => q.place[d]),
       ring := q.ring[q.availIdx % q.num := h],
       availIdx := (q.availIdx + 1) % U16,
       numAdded := q.numAdded + 1,
       serial := q.serial + 1)
  }

  /** detach_buf: push a whole chain back on the free stack. */
  function Detach(q: Queue, h: nat): Queue
    requires Partitioned(q) && h in q.chains
  {
    var ids := q.chains[h].ids;
    q.(free := ids + q.free,
       chains := q.chains - {h},
       place := seq(q.num, d requires 0 <= d < q.num =>
         match q.place[d]
         case InFree(_) => q.place[d]
         case InChain(g, p) => if g == h && p < |ids| then InFree(|q.free| + |ids| - 1 - p) else q.place[d]))
  }

  /** vca_virtqueue_get_buf, for any used index and any id that the device put in the used ring. */
  function Get(q: Queue, usedIdx: nat, id: nat): (r: (Queue, Option<Token>))
    requires Inv(q)
  {
    if q.broken || usedIdx == q.lastUsed then (q, None)
    else if id !in q.chains then (q.(broken := true), None)
    else
      var last := (q.lastUsed + 1) % U16;
      (Detach(q, id).(lastUsed := last, usedEvent := if q.noInterrupt then q.usedEvent else last),
       Some(q.chains[id].token))
  }

  /** vca_virtqueue_detach_unused_buf: the outstanding head with the lowest number. */
  ghost predicate IsLowest(q: Queue, h: nat) {
    h in q.chains && forall g :: g in q.chains ==> h <= g
  }

  function DetachUnused(q: Queue, h: nat): Queue
    requires Partitioned(q) && h in q.chains
  {
    Detach(q, h).(availIdx := (q.availIdx + U16 - 1) % U16)
  }

  /** vring_need_event: does the step from `old` to `new_` pass `event`, in 16-bit arithmetic? */
  function NeedEvent(event: nat, new_: nat, old_: nat): bool {
    (new_ + 2 * U16 - event - 1) % U16 < (new_ + U16 - old_) % U16
  }

  /** The index that the driver had published at its last kick. */
  function KickedIdx(q: Queue): nat {
    (q.availIdx + U16 - q.numAdded % U16) % U16
  }

  /** vca_virtqueue_enable_cb_delayed: three quarters of the distance between the two indices. */
  function DelayedBufs(q: Queue): nat
    requires q.lastUsed < U16
  {
    (q.availIdx + U16 - q.lastUsed) % U16 * 3 / 4 % U16
  }

  function DelayedEvent(q: Queue): nat
    requires q.lastUsed < U16
  {
    (q.lastUsed + DelayedBufs(q)) % U16
  }

  function DelayedBusy(q: Queue, usedIdx: nat): bool
    requires q.lastUsed < U16
  {
    (usedIdx + U16 - q.lastUsed) % U16 > DelayedBufs(q)
  }

  function KickNeeded(q: Queue, event: bool, availEvent: nat, noNotify: bool): bool {
    if event then NeedEvent(availEvent, q.availIdx, KickedIdx(q)) else !noNotify
  }

  /** vca_virtqueue_kick: a failed notification breaks the queue. */
  function Kick(q: Queue, needed: bool, notifyOk: bool): Queue {
    q.(numAdded := 0, broken := q.broken || (needed && !notifyOk))
  }

  /** virtqueue_add uses an indirect table when it can and the allocation succeeds. */
  function ChosenTable(q: Queue, indirect: bool, n: nat, alloc: Option<nat>): Option<nat> {
    if indirect && n > 1 && |q.free| > 0 then alloc else None
  }

  /** The whole of virtqueue_add on success, with the forced kick after 65535 additions. */
  function Add(q: Queue, buf: seq<Piece>, token: Token, table: Option<nat>, needed: bool, notifyOk: bool): Queue
    requires Inv(q) && |buf| > 0 && Used(buf, table) <= |q.free|
  {
    var r := Attach(q, buf, token, table);
    if r.numAdded == U16 - 1 then Kick(r, needed, notifyOk) else r
  }

  // ---------------------------------------------------------------- every step keeps the partition

  lemma AttachKeepsPartition(q: Queue, buf: seq<Piece>, token: Token, table: Option<nat>)
    requires Inv(q) && |buf| > 0 && Used(buf, table) <= |q.free|
    ensures Partitioned(Attach(q, buf, token, table))
    ensures q.free[0] !in q.chains && q.free[0] < q.num
  {
    var k, h, r := Used(buf, table), q.free[0], Attach(q, buf, token, table);
    assert FreeAt(q, 0);
    assert h !in q.chains by { PlacesOf(q); }
    forall d | 0 <= d < r.num
      ensures PlaceOk(r, d)
    {
      assert PlaceOk(q, d);
    }
    forall i | 0 <= i < |r.free| ensures FreeAt(r, i) { assert FreeAt(q, i + k); }
    forall g, i | g in r.chains && 0 <= i < |r.chains[g].ids|
      ensures ChainAt(r, g, i)
    {
      if g == h { assert FreeAt(q, i); } else { assert ChainAt(q, g, i); }
    }
  }

  lemma DetachKeepsPartition(q: Queue, h: nat)
    requires Partitioned(q) && h in q.chains
    ensures Partitioned(Detach(q, h))
  {
    var ids, r := q.chains[h].ids, Detach(q, h);
    forall d | 0 <= d < r.num
      ensures PlaceOk(r, d)
    {
      assert PlaceOk(q, d);
    }
    forall i | 0 <= i < |r.free|
      ensures FreeAt(r, i)
    {
      if i < |ids| { assert ChainAt(q, h, i); } else { assert FreeAt(q, i - |ids|); }
    }
    forall g, i | g in r.chains && 0 <= i < |r.chains[g].ids| ensures ChainAt(r, g, i) { assert ChainAt(q, g, i); }
  }

  lemma AddKeepsInv(q: Queue, buf: seq<Piece>, token: Token, table: Option<nat>, needed: bool, notifyOk: bool)
    requires Inv(q) && Settled(q) && |buf| > 0 && Used(buf, table) <= |q.free|
    ensures Inv(Attach(q, buf, token, table))
    ensures var r := Add(q, buf, token, table, needed, notifyOk); Inv(r) && Settled(r)
  {
    AttachKeepsPartition(q, buf, token, table);
    SamePartition(Attach(q, buf, token, table), Add(q, buf, token, table, needed, notifyOk));
  }

  lemma SamePartition(q: Queue, r: Queue)
    requires Partitioned(q) && r.num == q.num && r.free == q.free && r.chains == q.chains && r.place == q.place
    ensures Partitioned(r)
  {
    forall d | 0 <= d < r.num ensures PlaceOk(r, d) { assert PlaceOk(q, d); }
    forall i | 0 <= i < |r.free| ensures FreeAt(r, i) { assert FreeAt(q, i); }
    forall h, i | h in r.chains && 0 <= i < |r.chains[h].ids| ensures ChainAt(r, h, i) { assert ChainAt(q, h, i); }
  }

  /** Whatever the device wrote to the used ring, the driver's state stays well-formed. */
  lemma GetKeepsInv(q: Queue, usedIdx: nat, id: nat)
    requires Inv(q)
    ensures Inv(Get(q, usedIdx, id).0) && (Settled(q) ==> Settled(Get(q, usedIdx, id).0))
  {
    var r := Get(q, usedIdx, id).0;
    if !q.broken && usedIdx != q.lastUsed && id in q.chains {
      DetachKeepsPartition(q, id);
      SamePartition(Detach(q, id), r);
    } else {
      SamePartition(q, r);
    }
  }

  /** Whatever the device wrote, the driver hands out only the token of an outstanding buffer and
      frees exactly its chain, none of it free already and none of it in use by another buffer;
      otherwise nothing is freed, and a bad id breaks the queue. */
  lemma GetIsSafe(q: Queue, usedIdx: nat, id: nat)
    requires Inv(q)
    ensures
      var (r, t) := Get(q, usedIdx, id);
      && (t.Some? <==> !q.broken && usedIdx != q.lastUsed && id in q.chains)
      && (t.Some? ==> && t.value == q.chains[id].token && r.chains == q.chains - {id}
                      && (forall d: nat :: d in r.free <==> d in q.free || d in q.chains[id].ids)
                      && (forall d: nat :: d in q.chains[id].ids ==> d !in q.free)
                      && (forall g, d :: g in r.chains && d in r.chains[g].ids ==> d !in r.free)
                      && |r.free| == |q.free| + |q.chains[id].ids|)
      && (t.None? ==> r.free == q.free && r.chains == q.chains && r.lastUsed == q.lastUsed)
      && (r.broken <==> q.broken || (usedIdx != q.lastUsed && id !in q.chains))
  {
    GetKeepsInv(q, usedIdx, id);
    PartitionMeaning(q);
    PartitionMeaning(Get(q, usedIdx, id).0);
  }

  // ---------------------------------------------------------------- counting

  function Elements(s: seq<nat>): set<nat> {
    set x | x in s
  }

  lemma {:induction false} DistinctCount(s: seq<nat>)
    requires forall i, j :: 0 <= i < j < |s| ==> s[i] != s[j]
    ensures |Elements(s)| == |s|
    decreases |s|
  {
    if s != [] {
      DistinctCount(s[1..]);
      assert Elements(s) == Elements(s[1..]) + {s[0]};
    }
  }

  lemma {:induction false} BoundedCount(s: set<nat>, n: nat)
    requires forall x :: x in s ==> x < n
    ensures |s| <= n
    decreases n
  {
    if n > 0 {
      BoundedCount(s - {n - 1}, n - 1);
    } else {
      assert s == {};
    }
  }

  lemma {:induction false} RangeCount(s: set<nat>, n: nat)
    requires forall x: nat :: x in s <==> x < n
    ensures |s| == n
    decreases n
  {
    if n > 0 {
      RangeCount(s - {n - 1}, n - 1);
    } else {
      assert s == {};
    }
  }

  lemma DistinctFit(s: seq<nat>, n: nat)
    requires forall i, j :: 0 <= i < j < |s| ==> s[i] != s[j]
    requires forall i :: 0 <= i < |s| ==> s[i] < n
    ensures |s| <= n
  {
    DistinctCount(s);
    BoundedCount(Elements(s), n);
  }

  /** Outstanding buffers and free descriptors together never exceed the queue size. */
  lemma OutstandingFits(q: Queue)
    requires Partitioned(q)
    ensures |q.chains| + |q.free| <= q.num
  {
    PlacesOf(q);
    DistinctCount(q.free);
    var f, k := Elements(q.free), q.chains.Keys;
    assert f !! k;
    BoundedCount(f + k, q.num);
  }

  /** With nothing outstanding, every descriptor is free. */
  lemma AllFree(q: Queue)
    requires Partitioned(q) && q.chains == map[]
    ensures |q.free| == q.num
  {
    PartitionMeaning(q);
    DistinctCount(q.free);
    RangeCount(Elements(q.free), q.num);
  }
}
