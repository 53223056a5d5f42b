/**
 The driver side of a split virtqueue, in place: an in-array linked free list, descriptor chains
 encoded by flags, a token table, and the available and used rings.
 */
module Virtqueue {
  import opened Bits
  import opened VirtqueueSpec
  import opened Wrappers

  type u16 = x: nat | x < 0x1_0000

  datatype Flags = Flags(next: bool, write: bool, indirect: bool)

  datatype Desc = Desc(addr: nat, len: nat, flags: Flags, next: nat)

  /** One entry of a scatter list. */
  datatype Sg = Sg(addr: nat, len: nat)

  datatype UsedElem = UsedElem(id: nat, len: nat)

  datatype Rc = Added | Broken | NoSpace | MapFailed

  /** Memory that the device writes: the driver assumes nothing about its contents. */
  class UsedRing {
    var noNotify: bool
    var idx: u16
    var availEvent: u16
    const ring: array<UsedElem>

    constructor (num: nat)
      ensures fresh(ring) && ring.Length == num
    {
      ring := new UsedElem[num](_ => UsedElem(0, 0));
      noNotify, idx, availEvent := false, 0, 0;
    }
  }

  // ---------------------------------------------------------------- representation

  /** The pieces from position `from` on are the scatter list `sgs`. */
  ghost predicate ListedAt(pieces: seq<Piece>, from: nat, sgs: seq<Sg>, write: bool) {
    && from + |sgs| <= |pieces|
    && forall n {:trigger sgs[n]} :: 0 <= n < |sgs| ==> pieces[from + n] == Piece(sgs[n].addr, sgs[n].len, write)
  }

  function Pieces(outs: seq<Sg>, ins: seq<Sg>): (p: seq<Piece>)
    ensures |p| == |outs| + |ins|
    ensures ListedAt(p, 0, outs, false) && ListedAt(p, |outs|, ins, true)
  {
    seq(|outs|, i requires 0 <= i < |outs| => Piece(outs[i].addr, outs[i].len, false)) +
    seq(|ins|, i requires 0 <= i < |ins| => Piece(ins[i].addr, ins[i].len, true))
  }

  /** The descriptor for piece `p`; `more` says that the chain goes on. */
  predicate DescOf(d: Desc, p: Piece, more: bool) {
    d.addr == p.addr && d.len == p.len && d.flags == Flags(more, p.write, false)
  }

  ghost predicate TableRep(t: seq<Desc>, buf: seq<Piece>) {
    && |t| == |buf|
    && forall i :: 0 <= i < |t| ==> DescOf(t[i], buf[i], i < |t| - 1) && t[i].next == i + 1
  }

  ghost predicate LinkRep(desc: seq<Desc>, c: Chain, i: nat)
    requires i < |c.ids| == |c.buf|
  {
    && c.ids[i] < |desc| && DescOf(desc[c.ids[i]], c.buf[i], i < |c.ids| - 1)
    && (i < |c.ids| - 1 ==> desc[c.ids[i]].next == c.ids[i + 1])
  }

  ghost predicate ChainRep(desc: seq<Desc>, tables: map<nat, seq<Desc>>, h: nat, c: Chain) {
    && ChainShape(h, c)
    && match c.table
       case None => forall i :: 0 <= i < |c.ids| ==> LinkRep(desc, c, i)
       case Some(a) =>
         && h < |desc| && desc[h].flags == Flags(false, false, true)
         && desc[h].addr == a && desc[h].len == 16 * |c.buf|
         && a in tables && TableRep(tables[a], c.buf)
  }

  ghost predicate FreeLink(desc: seq<Desc>, free: seq<nat>, i: nat)
    requires i + 1 < |free|
  {
    free[i] < |desc| && desc[free[i]].next == free[i + 1]
  }

  ghost predicate FreeRep(desc: seq<Desc>, head: nat, free: seq<nat>) {
    && (|free| > 0 ==> head == free[0])
    && forall i :: 0 <= i < |free| - 1 ==> FreeLink(desc, free, i)
  }

  ghost predicate DataRep(data: seq<Option<Token>>, q: Queue) {
    && |data| == q.num
    && forall d :: 0 <= d < |data| ==> data[d] == if d in q.chains then Some(q.chains[d].token) else None
  }

  ghost predicate OwnsTable(owner: map<nat, nat>, h: nat, c: Chain) {
    c.table.Some? ==> c.table.value in owner && owner[c.table.value] == h
  }

  ghost predicate TableOwned(owner: map<nat, nat>, a: nat, q: Queue)
    requires a in owner
  {
    owner[a] in q.chains && q.chains[owner[a]].table == Some(a)
  }

  /** The allocated indirect tables are exactly those of the outstanding buffers, one each. */
  ghost predicate TablesRep(tables: map<nat, seq<Desc>>, owner: map<nat, nat>, q: Queue) {
    && owner.Keys == tables.Keys
    && (forall a :: a in owner ==> TableOwned(owner, a, q))
    && (forall h :: h in q.chains ==> OwnsTable(owner, h, q.chains[h]))
  }

  ghost predicate DescRep(desc: seq<Desc>, tables: map<nat, seq<Desc>>, head: nat, q: Queue) {
    && |desc| == q.num
    && FreeRep(desc, head, q.free)
    && forall h :: h in q.chains ==> ChainRep(desc, tables, h, q.chains[h])
  }

  // ---------------------------------------------------------------- what the device reads

  /** A device that follows NEXT flags from `i`, at most `n` descriptors. */
  function Follow(desc: seq<Desc>, i: nat, n: nat): seq<Piece>
    decreases n
  {
    if n == 0 || i >= |desc| then []
    else
      var d := desc[i];
      [Piece(d.addr, d.len, d.flags.write)] + if d.flags.next then Follow(desc, d.next, n - 1) else []
  }

  function DeviceReads(desc: seq<Desc>, tables: map<nat, seq<Desc>>, h: nat): seq<Piece> {
    if h < |desc| && desc[h].flags.indirect
    then if desc[h].addr in tables then Follow(tables[desc[h].addr], 0, desc[h].len / 16) else []
    else Follow(desc, h, |desc|)
  }

  lemma {:induction false} FollowChain(desc: seq<Desc>, c: Chain, i: nat, n: nat)
    requires |c.ids| == |c.buf| && i < |c.ids| && |c.ids| - i <= n
    requires forall k :: 0 <= k < |c.ids| ==> LinkRep(desc, c, k)
    ensures Follow(desc, c.ids[i], n) == c.buf[i..]
    decreases n
  {
    assert LinkRep(desc, c, i);
    if i < |c.ids| - 1 { FollowChain(desc, c, i + 1, n - 1); }
    assert c.buf[i..] == [c.buf[i]] + c.buf[i + 1..];
  }

  lemma {:induction false} FollowTable(t: seq<Desc>, buf: seq<Piece>, i: nat, n: nat)
    requires TableRep(t, buf) && i < |t| && |t| - i <= n
    ensures Follow(t, i, n) == buf[i..]
    decreases n
  {
    if i < |t| - 1 { FollowTable(t, buf, i + 1, n - 1); }
    assert buf[i..] == [buf[i]] + buf[i + 1..];
  }

  /** Following flags and links from the head of an outstanding buffer, directly or through its
      indirect table, the device reads exactly the pieces that were added, in order. */
  lemma DeviceReadsBuffer(desc: seq<Desc>, tables: map<nat, seq<Desc>>, head: nat, q: Queue, h: nat)
    requires Partitioned(q) && DescRep(desc, tables, head, q) && h in q.chains
    ensures DeviceReads(desc, tables, h) == q.chains[h].buf
  {
    var c := q.chains[h];
    assert ChainRep(desc, tables, h, c);
    if c.table.Some? {
      FollowTable(tables[c.table.value], c.buf, 0, |c.buf|);
      assert c.buf[0..] == c.buf;
    } else {
      assert LinkRep(desc, c, 0);
      ChainFits(q, h);
      FollowChain(desc, c, 0, |desc|);
      assert c.buf[0..] == c.buf;
    }
  }

  /** The same for a buffer that has just been attached. */
  lemma AttachedReads(desc: seq<Desc>, tables: map<nat, seq<Desc>>, head: nat, data: seq<Option<Token>>,
                      q: Queue, buf: seq<Piece>, token: Token, table: Option<nat>)
    requires Inv(q) && |buf| > 0 && Used(buf, table) <= |q.free|
    requires var r := Attach(q, buf, token, table); DescRep(desc, tables, head, r) && DataRep(data, r)
    ensures var h := q.free[0]; h < q.num == |data| && data[h] == Some(token) && DeviceReads(desc, tables, h) == buf
  {
    AttachKeepsPartition(q, buf, token, table);
    DeviceReadsBuffer(desc, tables, head, Attach(q, buf, token, table), q.free[0]);
  }

  /** A chain has at most as many descriptors as the queue. */
  lemma ChainFits(q: Queue, h: nat)
    requires Partitioned(q) && h in q.chains
    ensures |q.chains[h].ids| <= q.num
  {
    PlacesOf(q);
    var ids := q.chains[h].ids;
    DistinctFit(ids, q.num);
  }

  // ---------------------------------------------------------------- filling a chain

  /** `path` is a walk along the `next` links of `d`. */
  ghost predicate Walk(d: seq<Desc>, path: seq<nat>) {
    && (forall k :: 0 <= k < |path| ==> path[k] < |d|)
    && (forall j, k :: 0 <= j < k < |path| ==> path[j] != path[k])
    && (forall k :: 0 <= k < |path| - 1 ==> d[path[k]].next == path[k + 1])
  }

  /** The first `n` descriptors of the walk describe the first `n` pieces; `d` is otherwise `d0`. */
  ghost predicate Filled(d0: seq<Desc>, d: seq<Desc>, path: seq<nat>, pieces: seq<Piece>, n: nat, last: bool)
    requires n <= |path| == |pieces|
  {
    && |d| == |d0|
    && (forall k :: 0 <= k < n ==> path[k] < |d| && DescOf(d[path[k]], pieces[k], !(last && k == n - 1)))
    && (forall x :: 0 <= x < |d| ==> d[x].next == d0[x].next)
    && (forall x :: 0 <= x < |d| && x !in path[..n] ==> d[x] == d0[x])
  }

  lemma FillOne(d0: seq<Desc>, d: seq<Desc>, d1: seq<Desc>, path: seq<nat>, pieces: seq<Piece>, n: nat, i: nat)
    requires n < |path| == |pieces| && Walk(d0, path) && Filled(d0, d, path, pieces, n, false)
    requires i == path[n] < |d|
    requires d1 == d[i := Desc(pieces[n].addr, pieces[n].len, Flags(true, pieces[n].write, false), d[i].next)]
    ensures Filled(d0, d1, path, pieces, n + 1, false) && At(d0, path, n + 1, d1[i].next, i)
  {
    assert path[..n + 1] == path[..n] + [path[n]];
  }

  lemma FillLast(d0: seq<Desc>, d: seq<Desc>, path: seq<nat>, pieces: seq<Piece>)
    requires 0 < |path| == |pieces| && Walk(d0, path) && Filled(d0, d, path, pieces, |path|, false)
    ensures var x := path[|path| - 1];
            && x < |d|
            && Filled(d0, d[x := d[x].(flags := d[x].flags.(next := false))], path, pieces, |path|, true)
  {
  }

  /** Position of the walk after `n` descriptors. */
  ghost predicate At(d0: seq<Desc>, path: seq<nat>, n: nat, i: nat, prev: nat)
    requires n <= |path|
  {
    if n == 0 then |path| > 0 ==> i == path[0]
    else path[n - 1] < |d0| && i == d0[path[n - 1]].next && prev == path[n - 1]
  }

  /** One scatter-list loop of virtqueue_add, from position `from` of the walk on. */
  method FillLoop(desc: array<Desc>, start: nat, last: nat, sgs: seq<Sg>, write: bool,
                  ghost d0: seq<Desc>, ghost path: seq<nat>, ghost pieces: seq<Piece>, ghost from: nat)
    returns (i: nat, prev: nat)
    requires |path| == |pieces| && Walk(d0, path) && ListedAt(pieces, from, sgs, write)
    requires Filled(d0, desc[..], path, pieces, from, false) && At(d0, path, from, start, last)
    modifies desc
    ensures Filled(d0, desc[..], path, pieces, from + |sgs|, false)
    ensures At(d0, path, from + |sgs|, i, prev)
  {
    i, prev := start, last;
    var n := 0;
    ghost var k := from;
    while n < |sgs|
      invariant 0 <= n <= |sgs| && k == from + n
      invariant Filled(d0, desc[..], path, pieces, k, false) && At(d0, path, k, i, prev)
    {
      ghost var d := desc[..];
      assert i == path[k] && pieces[k] == Piece(sgs[n].addr, sgs[n].len, write);
      desc[i] := Desc(sgs[n].addr, sgs[n].len, Flags(true, write, false), desc[i].next);
      FillOne(d0, d, desc[..], path, pieces, k, i);
      prev := i;
      i := desc[i].next;
      n, k := n + 1, k + 1;
    }
  }

  /** The scatter-list loops of virtqueue_add and the end-of-chain flag, on either table. */
  method Fill(desc: array<Desc>, start: nat, outs: seq<Sg>, ins: seq<Sg>, ghost path: seq<nat>) returns (i: nat)
    requires 0 < |path| == |outs| + |ins| && path[0] == start && Walk(desc[..], path)
    modifies desc
    ensures Filled(old(desc[..]), desc[..], path, Pieces(outs, ins), |path|, true)
    ensures path[|path| - 1] < desc.Length && i == old(desc[..])[path[|path| - 1]].next
  {
    ghost var d0, pieces := desc[..], Pieces(outs, ins);
    var prev := 0;
    i, prev := FillLoop(desc, start, prev, outs, false, d0, path, pieces, 0);
    i, prev := FillLoop(desc, i, prev, ins, true, d0, path, pieces, |outs|);
    FillLast(d0, desc[..], path, pieces);
    desc[prev] := desc[prev].(flags := desc[prev].flags.(next := false));
  }

  // ---------------------------------------------------------------- representation of the steps

  lemma FreeWalk(desc: seq<Desc>, q: Queue, head: nat, k: nat)
    requires Partitioned(q) && |desc| == q.num && FreeRep(desc, head, q.free) && k <= |q.free|
    ensures Walk(desc, q.free[..k])
  {
    PlacesOf(q);
    forall i | 0 <= i < k - 1 ensures desc[q.free[i]].next == q.free[i + 1] { assert FreeLink(desc, q.free, i); }
  }

  lemma KeepChain(d0: seq<Desc>, d1: seq<Desc>, t0: map<nat, seq<Desc>>, t1: map<nat, seq<Desc>>, h: nat, c: Chain)
    requires ChainRep(d0, t0, h, c) && |d1| == |d0|
    requires forall x :: x in c.ids && x < |d0| ==> d1[x] == d0[x]
    requires c.table.Some? ==> c.table.value in t1 && t1[c.table.value] == t0[c.table.value]
    ensures ChainRep(d1, t1, h, c)
  {
    if c.table.None? {
      forall i | 0 <= i < |c.ids| ensures LinkRep(d1, c, i) { assert LinkRep(d0, c, i); }
    } else {
      assert c.ids[0] == h && h in c.ids;
    }
  }

  lemma AttachDirect(d0: seq<Desc>, d1: seq<Desc>, tables: map<nat, seq<Desc>>, head: nat, head1: nat,
                     q: Queue, buf: seq<Piece>, token: Token)
    requires Inv(q) && DescRep(d0, tables, head, q) && 0 < |buf| <= |q.free|
    requires Filled(d0, d1, q.free[..|buf|], buf, |buf|, true)
    requires q.free[|buf| - 1] < |d0| && head1 == d0[q.free[|buf| - 1]].next
    ensures DescRep(d1, tables, head1, Attach(q, buf, token, None))
  {
    var k, r := |buf|, Attach(q, buf, token, None);
    var path, h := q.free[..k], q.free[0];
    PlacesOf(q);
    forall i | 0 <= i < |r.free| - 1
      ensures FreeLink(d1, r.free, i)
    {
      assert FreeLink(d0, q.free, i + k);
    }
    if |r.free| > 0 { assert FreeLink(d0, q.free, k - 1); }
    forall g | g in r.chains
      ensures ChainRep(d1, tables, g, r.chains[g])
    {
      if g == h {
        forall i | 0 <= i < k
          ensures LinkRep(d1, r.chains[h], i)
        {
          if i < k - 1 { assert FreeLink(d0, q.free, i); }
        }
      } else {
        forall x | x in q.chains[g].ids && x < |d0|
          ensures x !in path
        {
        }
        KeepChain(d0, d1, tables, tables, g, q.chains[g]);
      }
    }
  }

  lemma AttachIndirect(d0: seq<Desc>, d1: seq<Desc>, t0: map<nat, seq<Desc>>, t: seq<Desc>, a: nat,
                       head: nat, q: Queue, buf: seq<Piece>, token: Token)
    requires Inv(q) && DescRep(d0, t0, head, q) && |buf| > 0 && |q.free| > 0 && a !in t0
    requires q.free[0] < |d0|
    requires d1 == d0[q.free[0] := Desc(a, 16 * |buf|, Flags(false, false, true), d0[q.free[0]].next)]
    requires TableRep(t, buf)
    ensures DescRep(d1, t0[a := t], d0[q.free[0]].next, Attach(q, buf, token, Some(a)))
  {
    var r, h := Attach(q, buf, token, Some(a)), q.free[0];
    PlacesOf(q);
    forall i | 0 <= i < |r.free| - 1
      ensures FreeLink(d1, r.free, i)
    {
      assert FreeLink(d0, q.free, i + 1);
    }
    if |r.free| > 0 { assert FreeLink(d0, q.free, 0); }
    forall g | g in r.chains
      ensures ChainRep(d1, t0[a := t], g, r.chains[g])
    {
      if g != h {
        assert ChainRep(d0, t0, g, q.chains[g]);
        KeepChain(d0, d1, t0, t0[a := t], g, q.chains[g]);
      }
    }
  }

  lemma AttachTables(tables: map<nat, seq<Desc>>, owner: map<nat, nat>, q: Queue, buf: seq<Piece>, token: Token,
                     table: Option<nat>, t: seq<Desc>)
    requires Inv(q) && TablesRep(tables, owner, q) && |buf| > 0 && Used(buf, table) <= |q.free|
    requires table.Some? ==> table.value !in tables
    ensures var r := Attach(q, buf, token, table);
            if table.Some? then TablesRep(tables[table.value := t], owner[table.value := q.free[0]], r)
            else TablesRep(tables, owner, r)
  {
    AttachKeepsPartition(q, buf, token, table);
    var r := Attach(q, buf, token, table);
    var owner' := if table.Some? then owner[table.value := q.free[0]] else owner;
    forall a | a in owner' ensures TableOwned(owner', a, r) { if a in owner { assert TableOwned(owner, a, q); } }
    forall h | h in r.chains
      ensures OwnsTable(owner', h, r.chains[h])
    {
      if h in q.chains { assert OwnsTable(owner, h, q.chains[h]); }
    }
  }

  lemma AttachData(data: seq<Option<Token>>, q: Queue, buf: seq<Piece>, token: Token, table: Option<nat>)
    requires Inv(q) && |buf| > 0 && Used(buf, table) <= |q.free| && DataRep(data, q)
    ensures var h := q.free[0]; h < q.num && DataRep(data[h := Some(token)], Attach(q, buf, token, table))
  {
    assert FreeAt(q, 0);
  }

  /** The head descriptor says whether the buffer has an indirect table, and where. */
  lemma HeadFlags(desc: seq<Desc>, tables: map<nat, seq<Desc>>, freeHead: nat, q: Queue, h: nat)
    requires Partitioned(q) && |desc| == q.num && DescRep(desc, tables, freeHead, q) && h in q.chains
    ensures var t := q.chains[h].table;
            h < q.num && (desc[h].flags.indirect <==> t.Some?) && (t.Some? ==> desc[h].addr == t.value)
  {
    var c := q.chains[h];
    PlacesOf(q);
    assert ChainRep(desc, tables, h, c);
    if c.table.None? { assert LinkRep(desc, c, 0); }
  }

  lemma DetachTables(tables: map<nat, seq<Desc>>, owner: map<nat, nat>, q: Queue, h: nat)
    requires Partitioned(q) && TablesRep(tables, owner, q) && h in q.chains
    ensures var r, t := Detach(q, h), q.chains[h].table;
            if t.Some? then TablesRep(tables - {t.value}, owner - {t.value}, r) else TablesRep(tables, owner, r)
  {
    var r, t := Detach(q, h), q.chains[h].table;
    var owner' := if t.Some? then owner - {t.value} else owner;
    forall a | a in owner'
      ensures TableOwned(owner', a, r)
    {
      assert TableOwned(owner, a, q);
      assert OwnsTable(owner, h, q.chains[h]);
    }
    forall g | g in r.chains
      ensures OwnsTable(owner', g, r.chains[g])
    {
      assert OwnsTable(owner, g, q.chains[g]) && OwnsTable(owner, h, q.chains[h]);
    }
  }

  lemma DetachRep(d0: seq<Desc>, d1: seq<Desc>, t0: map<nat, seq<Desc>>, t1: map<nat, seq<Desc>>,
                  head: nat, q: Queue, h: nat)
    requires Partitioned(q) && DescRep(d0, t0, head, q) && h in q.chains
    requires var ids := q.chains[h].ids;
             && |ids| > 0 && ids[|ids| - 1] < |d0|
             && d1 == d0[ids[|ids| - 1] := d0[ids[|ids| - 1]].(next := head)]
    requires forall g :: g in q.chains && g != h && q.chains[g].table.Some? ==>
               q.chains[g].table.value in t1 && q.chains[g].table.value in t0 &&
               t1[q.chains[g].table.value] == t0[q.chains[g].table.value]
    ensures DescRep(d1, t1, h, Detach(q, h))
  {
    var c, r := q.chains[h], Detach(q, h);
    var n := |c.ids|;
    PlacesOf(q);
    assert ChainRep(d0, t0, h, c);
    forall i | 0 <= i < |r.free| - 1
      ensures FreeLink(d1, r.free, i)
    {
      if i < n - 1 { assert LinkRep(d0, c, i); } else if i >= n { assert FreeLink(d0, q.free, i - n); }
    }
    forall g | g in r.chains
      ensures ChainRep(d1, t1, g, r.chains[g])
    {
      KeepChain(d0, d1, t0, t1, g, q.chains[g]);
    }
  }

  /** The first token in the table, if there is one. */
  ghost predicate FirstOf(data: seq<Option<Token>>, buf: Option<Token>) {
    if buf.None? then forall i :: 0 <= i < |data| ==> data[i] == None
    else exists i :: 0 <= i < |data| && data[i] == buf && forall j :: 0 <= j < i ==> data[j] == None
  }

  // ---------------------------------------------------------------- the queue

  class VirtQueue {
    const num: nat
    const indirect: bool
    const event: bool
    const dmaMap: bool
    const used: UsedRing
    const desc: array<Desc>
    const ring: array<nat>
    const data: array<Option<Token>>
    var availIdx: u16
    var availNoInterrupt: bool
    var usedEvent: u16
    var freeHead: nat
    var numFree: nat
    var numAdded: nat
    var lastUsed: u16
    var broken: bool
    var tables: map<nat, seq<Desc>>
    ghost var q: Queue
    ghost var owner: map<nat, nat>

    ghost predicate Scalars()
      reads this, ring
    {
      && q.num == num && numFree == |q.free|
      && ring[..] == q.ring && availIdx == q.availIdx && availNoInterrupt == q.noInterrupt
      && usedEvent == q.usedEvent && numAdded == q.numAdded && lastUsed == q.lastUsed && broken == q.broken
    }

    ghost predicate Layout()
      reads this
    {
      && IsPow2(num) && num <= 32768 && !(indirect && dmaMap)
      && desc.Length == num && ring.Length == num && data.Length == num && used.ring.Length == num
    }

    ghost predicate Coherent()
      reads this, desc, ring, data
    {
      && Layout() && Scalars() && Inv(q)
      && DescRep(desc[..], tables, freeHead, q)
      && DataRep(data[..], q)
      && TablesRep(tables, owner, q)
    }

    ghost predicate Valid()
      reads this, desc, ring, data
    {
      Coherent() && Settled(q)
    }

    /** vca_vring_new_virtqueue over zeroed ring memory, after its check of `num`. */
    constructor (num: nat, indirect: bool, event: bool, dmaMap: bool, callback: bool, used: UsedRing)
      requires IsPow2(num) && num <= 32768 && used.ring.Length == num && !(indirect && dmaMap)
      ensures Valid() && q == Fresh(num, !callback) && tables == map[]
      ensures fresh(desc) && fresh(ring) && fresh(data) && this.used == used && this.num == num
      ensures this.indirect == indirect && this.event == event && this.dmaMap == dmaMap
      ensures !broken && numFree == num && availNoInterrupt == !callback
      ensures availIdx == lastUsed == usedEvent == 0 && numAdded == freeHead == 0
      ensures forall k :: 0 <= k < num - 1 ==> desc[k].next == k + 1
    {
      this.num, this.indirect, this.event, this.dmaMap, this.used := num, indirect, event, dmaMap, used;
      desc := new Desc[num](_ => Desc(0, 0, Flags(false, false, false), 0));
      ring := new nat[num](_ => 0);
      data := new Option<Token>[num](_ => None);
      availIdx, availNoInterrupt, usedEvent, lastUsed := 0, !callback, 0, 0;
      freeHead, numFree, numAdded, broken, tables := 0, num, 0, false, map[];
      q, owner := Fresh(num, !callback), map[];
      new;
      FreshInv(num, !callback);
      var i := 0;
      while i < num - 1
        modifies desc, data
        invariant 0 <= i <= num - 1
        invariant forall k :: 0 <= k < i ==> desc[k].next == k + 1
        invariant forall k :: 0 <= k < num ==> data[k] == None
      {
        desc[i] := desc[i].(next := i + 1);
        data[i] := None;
        i := i + 1;
      }
      forall k | 0 <= k < num - 1 ensures FreeLink(desc[..], q.free, k) {}
    }

    /** The direct path: fill descriptors along the free list, then move its head. */
    method WriteDirect(outs: seq<Sg>, ins: seq<Sg>, ghost token: Token) returns (head: nat)
      requires Valid() && 0 < |outs| + |ins| <= numFree
      modifies desc, this`freeHead, this`numFree
      ensures head == q.free[0] && numFree == old(numFree) - |outs| - |ins|
      ensures DescRep(desc[..], tables, freeHead, Attach(q, Pieces(outs, ins), token, None))
    {
      ghost var d0, k := desc[..], |outs| + |ins|;
      head := freeHead;
      numFree := numFree - |outs| - |ins|;
      FreeWalk(d0, q, freeHead, k);
      freeHead := Fill(desc, head, outs, ins, q.free[..k]);
      AttachDirect(d0, desc[..], tables, head, freeHead, q, Pieces(outs, ins), token);
    }

    /** The indirect path: a table of its own, and one descriptor that points at it. */
    method WriteIndirect(outs: seq<Sg>, ins: seq<Sg>, a: nat, ghost token: Token) returns (head: nat)
      requires Valid() && 0 < |outs| + |ins| && 0 < numFree && a !in tables
      modifies desc, this`freeHead, this`numFree, this`tables
      ensures head == q.free[0] == old(freeHead) < num && numFree == old(numFree) - 1
      ensures desc[head] == Desc(a, 16 * (|outs| + |ins|), Flags(false, false, true), old(desc[..])[head].next)
      ensures a in tables && tables == old(tables)[a := tables[a]]
      ensures DescRep(desc[..], tables, freeHead, Attach(q, Pieces(outs, ins), token, Some(a)))
    {
      ghost var d0, pieces := desc[..], Pieces(outs, ins);
      head := freeHead;
      assert FreeAt(q, 0);
      desc[head] := Desc(a, (|outs| + |ins|) * 16, Flags(false, false, true), desc[head].next);
      numFree := numFree - 1;
      var table := NewTable(outs, ins);
      freeHead := desc[head].next;
      AttachIndirect(d0, desc[..], tables, table, a, head, q, pieces, token);
      tables := tables[a := table];
    }

    /** alloc_indirect and the scatter-list loops on the new table. */
    method NewTable(outs: seq<Sg>, ins: seq<Sg>) returns (t: seq<Desc>)
      requires 0 < |outs| + |ins|
      ensures TableRep(t, Pieces(outs, ins))
    {
      var n := |outs| + |ins|;
      var table := new Desc[n](i => Desc(0, 0, Flags(false, false, false), i + 1));
      ghost var path := seq(n, i => i);
      var _ := Fill(table, 0, outs, ins, path);
      t := table[..];
      assert forall i :: 0 <= i < n ==> path[i] == i;
    }

    /** Descriptors are written but nothing is published: the state that virtqueue_add passes through. */
    ghost predicate Written(r: Queue)
      reads this, desc, ring, data
    {
      && Layout() && Inv(q) && DataRep(data[..], q)
      && q.num == num && numFree == |r.free|
      && ring[..] == q.ring && availIdx == q.availIdx && availNoInterrupt == q.noInterrupt
      && usedEvent == q.usedEvent && numAdded == q.numAdded && lastUsed == q.lastUsed && broken == q.broken
      && DescRep(desc[..], tables, freeHead, r) && TablesRep(tables, owner, r)
    }

    method PlaceBuf(outs: seq<Sg>, ins: seq<Sg>, table: Option<nat>, ghost token: Token) returns (head: nat)
      requires Valid() && 0 < |outs| + |ins| && Used(Pieces(outs, ins), table) <= numFree
      requires table.Some? ==> table.value !in tables
      modifies this`freeHead, this`numFree, this`tables, this`owner, desc
      ensures head == q.free[0] && Written(Attach(q, Pieces(outs, ins), token, table))
      ensures if table.Some? then tables.Keys == old(tables).Keys + {table.value} else tables == old(tables)
    {
      if table.Some? {
        head := PlaceIndirect(outs, ins, table.value, token);
      } else {
        head := PlaceDirect(outs, ins, token);
      }
    }

    method PlaceIndirect(outs: seq<Sg>, ins: seq<Sg>, a: nat, ghost token: Token) returns (head: nat)
      requires Valid() && 0 < |outs| + |ins| && 0 < numFree && a !in tables
      modifies this`freeHead, this`numFree, this`tables, this`owner, desc
      ensures head == q.free[0] && Written(Attach(q, Pieces(outs, ins), token, Some(a)))
      ensures tables.Keys == old(tables).Keys + {a}
    {
      ghost var tables0 := tables;
      head := WriteIndirect(outs, ins, a, token);
      AttachTables(tables0, owner, q, Pieces(outs, ins), token, Some(a), tables[a]);
      owner := owner[a := head];
    }

    method PlaceDirect(outs: seq<Sg>, ins: seq<Sg>, ghost token: Token) returns (head: nat)
      requires Valid() && 0 < |outs| + |ins| <= numFree
      modifies this`freeHead, this`numFree, desc
      ensures head == q.free[0] && Written(Attach(q, Pieces(outs, ins), token, None))
    {
      head := WriteDirect(outs, ins, token);
      AttachTables(tables, owner, q, Pieces(outs, ins), token, None, []);
    }

    /** The end of virtqueue_add: token table, available ring, index. */
    method Publish(head: nat, token: Token, ghost pieces: seq<Piece>, ghost table: Option<nat>)
      requires |pieces| > 0 && Inv(q) && Settled(q) && Used(pieces, table) <= |q.free|
      requires head == q.free[0] && Written(Attach(q, pieces, token, table))
      modifies data, ring, this`availIdx, this`numAdded, this`q
      ensures Coherent() && q == Attach(old(q), pieces, token, table)
    {
      AddKeepsInv(q, pieces, token, table, false, false);
      AttachData(data[..], q, pieces, token, table);
      Store(head, token, Attach(q, pieces, token, table));
    }

    method Store(head: nat, token: Token, ghost r: Queue)
      requires Written(r) && Inv(r) && head < num && DataRep(data[..][head := Some(token)], r)
      requires r.num == q.num && r.ring == q.ring[q.availIdx % q.num := head] && r.availIdx == (q.availIdx + 1) % U16
      requires r.numAdded == q.numAdded + 1 && r.noInterrupt == q.noInterrupt && r.usedEvent == q.usedEvent
      requires r.lastUsed == q.lastUsed && r.broken == q.broken
      modifies data, ring, this`availIdx, this`numAdded, this`q
      ensures Coherent() && q == r
    {
      ghost var data0, ring0 := data[..], ring[..];
      data[head] := Some(token);
      var slot := Slot(availIdx);
      ring[slot] := head;
      assert data[..] == data0[head := Some(token)] && ring[..] == ring0[slot := head];
      availIdx := (availIdx + 1) % U16;
      numAdded := numAdded + 1;
      q := r;
    }

    /** `idx & (num - 1)` */
    method Slot(idx: u16) returns (slot: nat)
      requires IsPow2(num) && num <= 32768
      ensures slot == idx % num < num
    {
      MaskSplit(idx, num);
      slot := And(idx, num - 1);
    }

    /** virtqueue_add. `alloc` is what the allocation of an indirect table returns, `mapOk` whether
        the scatter lists could be mapped for DMA, `notifyOk` whether the device can be notified;
        `urged` says whether the device was notified because there was no space. */
    method AddBuf(outs: seq<Sg>, ins: seq<Sg>, token: Token, alloc: Option<nat>, mapOk: bool, notifyOk: bool)
      returns (rc: Rc, urged: bool)
      requires Valid() && 0 < |outs| + |ins| <= num
      requires alloc.Some? ==> alloc.value !in tables
      modifies this, desc, ring, data
      ensures Valid()
      ensures
        var table := ChosenTable(old(q), indirect, |outs| + |ins|, alloc);
        rc == if old(broken) then Broken
              else if |old(q).free| < Used(Pieces(outs, ins), table) then NoSpace
              else if dmaMap && !mapOk then MapFailed
              else Added
      ensures urged <==> rc == NoSpace && |outs| > 0
      ensures rc != Added ==> q == old(q) && tables == old(tables)
      ensures rc == Added ==>
        var table := ChosenTable(old(q), indirect, |outs| + |ins|, alloc);
        var attached := Attach(old(q), Pieces(outs, ins), token, table);
        && (if table.Some? then tables.Keys == old(tables).Keys + {table.value} else tables == old(tables))
        && q == Add(old(q), Pieces(outs, ins), token, table,
                    KickNeeded(attached, event, used.availEvent, used.noNotify), notifyOk)
      ensures
        var n := |outs| + |ins|;
        var indirectly := indirect && n > 1 && old(numFree) > 0 && alloc.Some?;
        var needs := if indirectly then 1 else n;
        && (rc == NoSpace <==> !old(broken) && old(numFree) < needs)
        && (rc == Added <==> !old(broken) && old(numFree) >= needs && (dmaMap ==> mapOk))
        && (rc == Added ==> numFree == old(numFree) - needs)
        && (rc == Added && indirectly ==> alloc.value in tables)
        && (rc == Added && !indirectly ==> tables == old(tables))
      ensures rc == Added ==> Announced(old(freeHead), old(availIdx), token, Pieces(outs, ins))
      ensures rc == Added ==> if old(numAdded) == 65534 then numAdded == 0 && (broken ==> !notifyOk)
                              else numAdded == old(numAdded) + 1 && !broken
    {
      urged := false;
      if broken {
        return Broken, false;
      }
      var n := |outs| + |ins|;
      var table := if indirect && n > 1 && numFree > 0 then alloc else None;
      var descsUsed := if table.Some? then 1 else n;
      if numFree < descsUsed {
        return NoSpace, |outs| > 0;
      }
      if dmaMap && !mapOk {
        return MapFailed, false;
      }
      AddChecked(outs, ins, token, table, notifyOk);
      rc := Added;
    }

    /** The available ring shows the device a head behind which it reads exactly these pieces. */
    ghost predicate Announced(head: nat, at: nat, token: Token, pieces: seq<Piece>)
      requires num > 0 && ring.Length == data.Length == num
      reads this, desc, ring, data
    {
      && availIdx == (at + 1) % U16 && ring[at % num] == head
      && head < num && data[head] == Some(token) && DeviceReads(desc[..], tables, head) == pieces
    }

    method AddChecked(outs: seq<Sg>, ins: seq<Sg>, token: Token, table: Option<nat>, notifyOk: bool)
      requires Valid() && 0 < |outs| + |ins| && Used(Pieces(outs, ins), table) <= numFree
      requires table.Some? ==> table.value !in tables
      modifies this, desc, ring, data
      ensures Valid()
      ensures if table.Some? then tables.Keys == old(tables).Keys + {table.value} else tables == old(tables)
      ensures
        var attached := Attach(old(q), Pieces(outs, ins), token, table);
        q == Add(old(q), Pieces(outs, ins), token, table,
                 KickNeeded(attached, event, used.availEvent, used.noNotify), notifyOk)
      ensures numFree == old(numFree) - if table.Some? then 1 else |outs| + |ins|
      ensures Announced(old(freeHead), old(availIdx), token, Pieces(outs, ins))
      ensures if old(numAdded) == 65534 then numAdded == 0 && (broken ==> old(broken) || !notifyOk)
              else numAdded == old(numAdded) + 1 && broken == old(broken)
    {
      PlaceAndPublish(outs, ins, token, table);
      KickIfFull(notifyOk);
    }

    method PlaceAndPublish(outs: seq<Sg>, ins: seq<Sg>, token: Token, table: Option<nat>)
      requires Valid() && 0 < |outs| + |ins| && Used(Pieces(outs, ins), table) <= numFree
      requires table.Some? ==> table.value !in tables
      modifies this`freeHead, this`numFree, this`tables, this`owner, this`availIdx, this`numAdded, this`q
      modifies desc, ring, data
      ensures Coherent() && q == Attach(old(q), Pieces(outs, ins), token, table)
      ensures if table.Some? then tables.Keys == old(tables).Keys + {table.value} else tables == old(tables)
      ensures numFree == old(numFree) - Used(Pieces(outs, ins), table) && numAdded == old(numAdded) + 1
      ensures Announced(old(freeHead), old(availIdx), token, Pieces(outs, ins))
    {
      ghost var r := q;
      var head := PlaceBuf(outs, ins, table, token);
      ghost var slot := availIdx % num;
      Publish(head, token, Pieces(outs, ins), table);
      assert slot < |r.ring| && ring[..] == r.ring[slot := head];
      AttachedReads(desc[..], tables, freeHead, data[..], r, Pieces(outs, ins), token, table);
    }

    /** The forced kick before the count of added buffers could wrap. */
    method KickIfFull(notifyOk: bool)
      requires Coherent() && q.numAdded < U16
      modifies this`numAdded, this`broken, this`q
      ensures Valid()
      ensures numAdded == if old(numAdded) == 65535 then 0 else old(numAdded)
      ensures broken ==> old(broken) || (old(numAdded) == 65535 && !notifyOk)
      ensures old(broken) ==> broken
      ensures q == if old(q).numAdded == U16 - 1
                   then Kick(old(q), KickNeeded(old(q), event, used.availEvent, used.noNotify), notifyOk) else old(q)
    {
      if numAdded == U16 - 1 {
        var _ := KickDevice(notifyOk);
      }
    }

    /** vca_virtqueue_kick_prepare */
    method KickPrepare() returns (needed: bool)
      requires Coherent()
      modifies this`numAdded, this`q
      ensures Valid() && q == old(q).(numAdded := 0)
      ensures needed == KickNeeded(old(q), event, used.availEvent, used.noNotify)
      ensures !event ==> (needed <==> !used.noNotify)
    {
      ghost var q0 := q;
      var old_ := (availIdx + U16 - numAdded % U16) % U16;
      numAdded := 0;
      q := q.(numAdded := 0);
      SamePartition(q0, q);
      SameRep(desc[..], data[..], tables, owner, freeHead, q0, q);
      needed := if event then NeedEvent(used.availEvent, availIdx, old_) else !used.noNotify;
    }

    /** vca_virtqueue_notify */
    method Notify(notifyOk: bool) returns (ok: bool)
      requires Valid()
      modifies this`broken, this`q
      ensures Valid() && q == old(q).(broken := old(broken) || !notifyOk)
      ensures ok == (!old(broken) && notifyOk)
    {
      ok := !broken && notifyOk;
      if !broken && !notifyOk {
        Break();
      }
    }

    method Break()
      requires Valid()
      modifies this`broken, this`q
      ensures Valid() && q == old(q).(broken := true)
    {
      ghost var q0 := q;
      broken := true;
      q := q.(broken := true);
      SamePartition(q0, q);
      SameRep(desc[..], data[..], tables, owner, freeHead, q0, q);
    }

    /** vca_virtqueue_kick */
    method KickDevice(notifyOk: bool) returns (ok: bool)
      requires Coherent()
      modifies this`numAdded, this`broken, this`q
      ensures Valid() && q == Kick(old(q), KickNeeded(old(q), event, used.availEvent, used.noNotify), notifyOk)
      ensures ok <==> (KickNeeded(old(q), event, used.availEvent, used.noNotify) ==> !old(broken) && notifyOk)
      ensures numAdded == 0 && (ok && !old(broken) ==> !broken) && (broken ==> old(broken) || (!ok && !notifyOk))
      ensures !event ==> (ok <==> used.noNotify || (!old(broken) && notifyOk))
      ensures !event ==> (broken <==> old(broken) || (!used.noNotify && !notifyOk))
    {
      ok := true;
      var needed := KickPrepare();
      if needed {
        ok := Notify(notifyOk);
      }
    }

    /** The loop of detach_buf, which counts the descriptors it passes. */
    method ChainEnd(head: nat, ghost tables0: map<nat, seq<Desc>>, ghost c: Chain) returns (i: nat)
      requires ChainRep(desc[..], tables0, head, c)
      modifies this`numFree
      ensures i == c.ids[|c.ids| - 1] < desc.Length && numFree == old(numFree) + |c.ids| - 1
    {
      ghost var d := desc[..];
      i := head;
      ghost var k := 0;
      if c.table.None? { assert LinkRep(d, c, 0); }
      while desc[i].flags.next
        invariant 0 <= k < |c.ids| && i == c.ids[k] < desc.Length && d == desc[..]
        invariant numFree == old(numFree) + k
        invariant c.table.None? ==> LinkRep(d, c, k)
        decreases |c.ids| - k
      {
        i := desc[i].next;
        numFree := numFree + 1;
        assert LinkRep(d, c, k + 1);
        k := k + 1;
      }
    }

    /** The kfree of detach_buf. */
    method FreeTable(head: nat)
      requires Inv(q) && desc.Length == q.num && head in q.chains
      requires DescRep(desc[..], tables, freeHead, q) && TablesRep(tables, owner, q)
      modifies this`tables, this`owner
      ensures TablesRep(tables, owner, Detach(q, head))
      ensures tables == if q.chains[head].table.Some? then old(tables) - {q.chains[head].table.value} else old(tables)
    {
      HeadFlags(desc[..], tables, freeHead, q, head);
      DetachTables(tables, owner, q, head);
      KfreeTable(head, q.chains[head], Detach(q, head));
    }

    method KfreeTable(head: nat, ghost c: Chain, ghost r: Queue)
      requires head < desc.Length && (desc[head].flags.indirect <==> c.table.Some?)
      requires c.table.Some? ==>
                 desc[head].addr == c.table.value && TablesRep(tables - {c.table.value}, owner - {c.table.value}, r)
      requires c.table.None? ==> TablesRep(tables, owner, r)
      modifies this`tables, this`owner
      ensures TablesRep(tables, owner, r)
      ensures tables == if c.table.Some? then old(tables) - {c.table.value} else old(tables)
    {
      if desc[head].flags.indirect {
        owner := owner - {desc[head].addr};
        tables := tables - {desc[head].addr};
      }
    }

    /** detach_buf: clear the token, free the indirect table, splice the chain in front of the free list. */
    method DetachBuf(head: nat)
      requires Valid() && head in q.chains
      modifies this, desc, data
      ensures Valid() && q == Detach(old(q), head)
      ensures tables == if old(q).chains[head].table.Some? then old(tables) - {old(q).chains[head].table.value}
                        else old(tables)
    {
      ghost var tables0 := tables;
      ClearToken(head);
      FreeTable(head);
      SpliceChain(head, tables0);
      DetachKeepsPartition(q, head);
      q := Detach(q, head);
    }

    method ClearToken(head: nat)
      requires Valid() && head in q.chains
      modifies data
      ensures DataRep(data[..], Detach(q, head))
    {
      PlacesOf(q);
      data[head] := None;
    }

    method SpliceChain(head: nat, ghost tables0: map<nat, seq<Desc>>)
      requires Inv(q) && desc.Length == num == q.num && head in q.chains && numFree == |q.free|
      requires DescRep(desc[..], tables0, freeHead, q) && TablesRep(tables, owner, Detach(q, head))
      requires tables == if q.chains[head].table.Some? then tables0 - {q.chains[head].table.value} else tables0
      modifies desc, this`freeHead, this`numFree
      ensures DescRep(desc[..], tables, freeHead, Detach(q, head)) && numFree == |Detach(q, head).free|
    {
      ghost var d0, c := desc[..], q.chains[head];
      assert ChainRep(d0, tables0, head, c);
      var i := ChainEnd(head, tables0, c);
      desc[i] := desc[i].(next := freeHead);
      forall g | g in q.chains && g != head && q.chains[g].table.Some?
        ensures q.chains[g].table.value in tables
      {
        assert g in Detach(q, head).chains;
        assert OwnsTable(owner, g, q.chains[g]);
      }
      forall g | g in q.chains ensures ChainRep(d0, tables0, g, q.chains[g]) {}
      DetachRep(d0, desc[..], tables0, tables, freeHead, q, head);
      freeHead := head;
      numFree := numFree + 1;
    }

    /** vca_virtqueue_get_buf. The used ring may hold anything. */
    method GetBuf() returns (ret: Option<Token>, len: nat)
      requires Valid()
      modifies this, desc, data
      ensures Valid()
      ensures (q, ret) == Get(old(q), used.idx, used.ring[old(lastUsed) % num].id)
      ensures ret.Some? ==> len == used.ring[old(lastUsed) % num].len
      ensures ret.None? ==> tables == old(tables)
      ensures
        var id := used.ring[old(lastUsed) % num].id;
        && (broken <==> old(broken) || (used.idx != old(lastUsed) && !(id < num && old(data[..])[id].Some?)))
        && ret == (if !broken && used.idx != old(lastUsed) then old(data[..])[id] else None)
        && (ret.Some? ==> data[id] == None)
      ensures lastUsed == if ret.Some? then (old(lastUsed) + 1) % U16 else old(lastUsed)
      ensures usedEvent == if ret.Some? && !availNoInterrupt then lastUsed else old(usedEvent)
      ensures if ret.Some? then numFree > old(numFree) else numFree == old(numFree)
    {
      ret, len := None, 0;
      if !broken && lastUsed != used.idx {
        var last := Slot(lastUsed);
        var i := used.ring[last].id;
        var good := IsOutstanding(i);
        if good {
          ret, len := data[i], used.ring[last].len;
          TakeBack(i);
        } else {
          Break();
        }
      }
    }

    method TakeBack(head: nat)
      requires Valid() && head in q.chains
      modifies this, desc, data
      ensures Valid()
      ensures var last := (old(lastUsed) + 1) % U16;
              q == Detach(old(q), head).(lastUsed := last,
                   usedEvent := if old(q).noInterrupt then old(q).usedEvent else last)
    {
      DetachBuf(head);
      Advance();
    }

    /** The two checks of an id that the device wrote: in range, and with a token. */
    method IsOutstanding(i: nat) returns (good: bool)
      requires Valid()
      ensures good <==> i in q.chains
      ensures good ==> i < data.Length && data[i] == Some(q.chains[i].token)
    {
      PlacesOf(q);
      good := i < num && data[i] != None;
    }

    method Advance()
      requires Valid()
      modifies this`lastUsed, this`usedEvent, this`q
      ensures Valid()
      ensures var last := (old(lastUsed) + 1) % U16;
              q == old(q).(lastUsed := last, usedEvent := if availNoInterrupt then old(q).usedEvent else last)
    {
      ghost var q0 := q;
      lastUsed := (lastUsed + 1) % U16;
      if !availNoInterrupt {
        usedEvent := lastUsed;
      }
      q := q.(lastUsed := lastUsed, usedEvent := usedEvent);
      SamePartition(q0, q);
      SameRep(desc[..], data[..], tables, owner, freeHead, q0, q);
    }

    /** vca_virtqueue_detach_unused_buf. When nothing is left, every descriptor is free: the
        BUG_ON at its end cannot fire. */
    method DetachUnusedBuf() returns (buf: Option<Token>)
      requires Valid()
      modifies this, desc, data
      ensures Valid()
      ensures buf.None? ==> q == old(q) && q.chains == map[] && numFree == num
      ensures buf.Some? ==> exists h :: IsLowest(old(q), h) && buf.value == old(q).chains[h].token &&
                                        q == DetachUnused(old(q), h)
      ensures FirstOf(old(data[..]), buf)
      ensures buf.Some? ==> availIdx == (old(availIdx) + U16 - 1) % U16
      ensures lastUsed == old(lastUsed) && broken == old(broken)
    {
      ghost var i;
      buf, i := DetachFirst();
      assert buf.Some? ==> IsLowest(old(q), i) && old(data[..])[i] == buf;
    }

    method DetachFirst() returns (buf: Option<Token>, ghost i: nat)
      requires Valid()
      modifies this, desc, data
      ensures Valid() && i <= num && (buf.None? <==> i == num)
      ensures forall k :: 0 <= k < i ==> old(data[..])[k] == None
      ensures i == num ==> q == old(q) && q.chains == map[] && numFree == num
      ensures i < num ==> IsLowest(old(q), i) && buf == Some(old(q).chains[i].token) == old(data[..])[i]
      ensures i < num ==> q == DetachUnused(old(q), i) && availIdx == (old(availIdx) + U16 - 1) % U16
      ensures lastUsed == old(lastUsed) && broken == old(broken)
    {
      var first := FirstToken();
      i := first;
      if first < num {
        buf := Withdraw(first);
      } else {
        buf := None;
      }
    }

    method Withdraw(head: nat) returns (buf: Option<Token>)
      requires Valid() && head in q.chains && head < num
      modifies this, desc, data
      ensures Valid() && buf == Some(old(q).chains[head].token) == old(data[head]) && q == DetachUnused(old(q), head)
      ensures availIdx == (old(availIdx) + U16 - 1) % U16 && lastUsed == old(lastUsed) && broken == old(broken)
    {
      buf := data[head];
      DetachBuf(head);
      Retract();
    }

    /** The scan for a token that is still held. */
    method FirstToken() returns (i: nat)
      requires Valid()
      ensures i <= num && (i < num ==> IsLowest(q, i)) && forall k :: 0 <= k < i ==> data[k] == None
      ensures i >= num ==> q.chains == map[] && numFree == num
    {
      i := 0;
      while i < num && data[i] == None
        invariant i <= num
        invariant forall k :: 0 <= k < i ==> k !in q.chains && data[k] == None
      {
        i := i + 1;
      }
      PlacesOf(q);
      if i >= num {
        assert forall h :: h in q.chains ==> h < num;
        AllFree(q);
      }
    }

    method Retract()
      requires Valid()
      modifies this`availIdx, this`q
      ensures Valid() && q == old(q).(availIdx := (old(availIdx) + U16 - 1) % U16)
    {
      ghost var q0 := q;
      availIdx := (availIdx + U16 - 1) % U16;
      q := q.(availIdx := availIdx);
      SamePartition(q0, q);
      SameRep(desc[..], data[..], tables, owner, freeHead, q0, q);
    }

    /** Interrupts on or off, and the used index at which the next one is wanted. */
    method SetCallbacks(noInterrupt: bool, event: u16)
      requires Valid()
      modifies this`availNoInterrupt, this`usedEvent, this`q
      ensures Valid() && q == old(q).(noInterrupt := noInterrupt, usedEvent := event)
    {
      ghost var q0 := q;
      availNoInterrupt := noInterrupt;
      usedEvent := event;
      q := q.(noInterrupt := noInterrupt, usedEvent := event);
      SamePartition(q0, q);
      SameRep(desc[..], data[..], tables, owner, freeHead, q0, q);
    }

    /** vca_virtqueue_disable_cb */
    method DisableCb()
      requires Valid()
      modifies this`availNoInterrupt, this`usedEvent, this`q
      ensures Valid() && q == old(q).(noInterrupt := true)
    {
      SetCallbacks(true, usedEvent);
    }

    /** vca_virtqueue_enable_cb: prepare, then poll. */
    method EnableCb() returns (idle: bool)
      requires Valid()
      modifies this`availNoInterrupt, this`usedEvent, this`q
      ensures Valid() && q == old(q).(noInterrupt := false, usedEvent := old(q).lastUsed)
      ensures idle == (used.idx == lastUsed)
    {
      SetCallbacks(false, lastUsed);
      idle := lastUsed == used.idx;
    }

    /** vca_virtqueue_enable_cb_delayed */
    method EnableCbDelayed() returns (idle: bool)
      requires Valid()
      modifies this`availNoInterrupt, this`usedEvent, this`q
      ensures Valid() && q == old(q).(noInterrupt := false, usedEvent := DelayedEvent(old(q)))
      ensures idle == !DelayedBusy(old(q), used.idx)
    {
      var bufs := (availIdx + U16 - lastUsed) % U16 * 3 / 4 % U16;
      SetCallbacks(false, (lastUsed + bufs) % U16);
      idle := (used.idx + U16 - lastUsed) % U16 <= bufs;
    }
  }

  const F_INDIRECT_DESC: nat := 28
  const F_EVENT_IDX: nat := 29
  const F_DMA_MAP: nat := 30
  const F_VERSION_1: nat := 32
  const TRANSPORT_START: nat := 28
  const TRANSPORT_END: nat := 33

  predicate Understood(bit: nat) {
    bit < TRANSPORT_START || bit >= TRANSPORT_END || bit in {F_INDIRECT_DESC, F_EVENT_IDX, F_DMA_MAP, F_VERSION_1}
  }

  /** vca_vring_transport_features on the set of offered bits: no queue is ever asked for indirect
      descriptors together with DMA mapping, which VirtQueue relies on. */
  method TransportFeatures(offered: set<nat>) returns (kept: set<nat>)
    ensures !(28 in kept && 30 in kept)
    ensures forall b :: b in kept <==>
              b in offered && (b < 28 || b > 32 || b in {28, 29, 30, 32}) && !(b == 28 && 30 in offered)
  {
    kept := offered;
    var i := TRANSPORT_START;
    while i < TRANSPORT_END
      invariant TRANSPORT_START <= i <= TRANSPORT_END
      invariant forall b :: b in kept <==> b in offered && (Understood(b) || b >= i)
    {
      if i != F_INDIRECT_DESC && i != F_EVENT_IDX && i != F_VERSION_1 && i != F_DMA_MAP {
        kept := kept - {i};
      }
      i := i + 1;
    }
    if F_DMA_MAP in kept {
      kept := kept - {F_INDIRECT_DESC};
    }
  }

  /** The size test of vca_vring_new_virtqueue lets through the powers of two, and 0. */
  method SizePasses(num: nat) returns (passes: bool)
    ensures passes <==> num == 0 || IsPow2(num)
  {
    if num == 0 {
      return true;
    }
    PowerOfTwoTest(num);
    passes := And(num, num - 1) == 0;
  }

  /** vca_vring_new_virtqueue: a size that is not a power of two is refused. */
  method NewVirtqueue(num: nat, indirect: bool, event: bool, dmaMap: bool, callback: bool, used: UsedRing)
    returns (vq: VirtQueue?)
    requires 0 < num <= 32768 && used.ring.Length == num && !(indirect && dmaMap)
    ensures vq == null <==> !IsPow2(num)
    ensures vq != null ==> fresh(vq) && fresh(vq.desc) && fresh(vq.ring) && fresh(vq.data) && vq.Valid()
    ensures vq != null ==> vq.q == Fresh(num, !callback) && vq.used == used && vq.num == num && vq.tables == map[]
    ensures vq != null ==> vq.indirect == indirect && vq.event == event && vq.dmaMap == dmaMap
    ensures vq != null ==> !vq.broken && vq.numFree == num && vq.availNoInterrupt == !callback
    ensures vq != null ==> vq.availIdx == vq.lastUsed == vq.usedEvent == 0 && vq.numAdded == vq.freeHead == 0
  {
    var passes := SizePasses(num);
    if !passes {
      return null;
    }
    vq := new VirtQueue(num, indirect, event, dmaMap, callback, used);
  }

  /** A new queue takes any buffer of up to `num` pieces, and hands its token and the length that the device
      wrote back once the device has put the head in the used ring. */
  method FirstBufferComesBack(num: nat, indirect: bool, event: bool, dmaMap: bool, callback: bool,
                              outs: seq<Sg>, ins: seq<Sg>, token: Token, alloc: Option<nat>, written: nat)
    returns (vq: VirtQueue, ret: Option<Token>, len: nat)
    requires IsPow2(num) && num <= 32768 && !(indirect && dmaMap) && 0 < |outs| + |ins| <= num
    ensures ret == Some(token) && len == written && !vq.broken
  {
    vq := FirstBuffer(num, indirect, event, dmaMap, callback, outs, ins, token, alloc);
    FirstUsed(vq.used, UsedElem(vq.ring[0], written));
    ret, len := TakeFirst(vq, token, written);
  }

  method TakeFirst(vq: VirtQueue, token: Token, written: nat) returns (ret: Option<Token>, len: nat)
    requires vq.Valid() && !vq.broken && vq.lastUsed == 0 && vq.used.idx == 1
    requires vq.ring[0] < vq.num && vq.data[vq.ring[0]] == Some(token)
    requires vq.used.ring[0] == UsedElem(vq.ring[0], written)
    modifies vq, vq.desc, vq.data
    ensures ret == Some(token) && len == written && !vq.broken
  {
    assert vq.lastUsed % vq.num == 0;
    ret, len := vq.GetBuf();
  }

  /** What the device does. */
  method FirstUsed(used: UsedRing, e: UsedElem)
    requires used.ring.Length > 0
    modifies used, used.ring
    ensures used.idx == 1 && used.ring[0] == e
  {
    used.ring[0] := e;
    used.idx := 1;
  }

  method FirstBuffer(num: nat, indirect: bool, event: bool, dmaMap: bool, callback: bool,
                     outs: seq<Sg>, ins: seq<Sg>, token: Token, alloc: Option<nat>) returns (vq: VirtQueue)
    requires IsPow2(num) && num <= 32768 && !(indirect && dmaMap) && 0 < |outs| + |ins| <= num
    ensures fresh(vq) && fresh(vq.used) && fresh(vq.used.ring) && fresh(vq.desc) && fresh(vq.data) && vq.Valid()
    ensures vq.num == num && !vq.broken && vq.availIdx == 1 && vq.lastUsed == 0
    ensures vq.ring[0] < num && vq.data[vq.ring[0]] == Some(token)
    ensures DeviceReads(vq.desc[..], vq.tables, vq.ring[0]) == Pieces(outs, ins)
  {
    var used := new UsedRing(num);
    vq := new VirtQueue(num, indirect, event, dmaMap, callback, used);
    var rc, _ := vq.AddBuf(outs, ins, token, alloc, true, true);
  }

  /** Neither the free list, the chains nor the tokens moved. */
  lemma SameRep(desc: seq<Desc>, data: seq<Option<Token>>, tables: map<nat, seq<Desc>>, owner: map<nat, nat>,
                head: nat, q: Queue, r: Queue)
    requires r.num == q.num && r.free == q.free && r.chains == q.chains
    requires DescRep(desc, tables, head, q) && DataRep(data, q) && TablesRep(tables, owner, q)
    ensures DescRep(desc, tables, head, r) && DataRep(data, r) && TablesRep(tables, owner, r)
  {
    forall a | a in owner ensures TableOwned(owner, a, r) { assert TableOwned(owner, a, q); }
  }
}
