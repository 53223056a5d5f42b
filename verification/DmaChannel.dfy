/**
 The channel's own code on its ring, in place: programming the descriptors of a request and the
 sweep of the cleanup.
 */
module DmaChannel {
  import opened DmaCopy
  import opened DmaRing
  import opened Wrappers

  /** Slots from `i` to `head`, going round the ring. */
  function Ahead(i: nat, head: nat): nat
    requires i < N && head < N
  {
    if head >= i then head - i else head + N - i
  }

  /** What a cleanup leaves: its end, the callbacks it ran, the completed cookie, and tx_array. */
  datatype Swept = Swept(end: nat, calls: seq<nat>, cookie: nat, tx: seq<Tx>)

  function Calls(t: Tx): seq<nat> {
    if t.cookie != 0 && t.callback.Some? then [t.callback.value] else []
  }

  /** An entry after its slot was passed. */
  function Finished(t: Tx): Tx {
    if t.cookie != 0 then Tx(0, None) else t
  }

  function CookieAfter(t: Tx, cookie: nat): nat {
    if t.cookie != 0 then t.cookie else cookie
  }

  /** The next slot, going round the ring. */
  function Succ(i: nat): (j: nat)
    requires i < N
    ensures j < N
  {
    if i == N - 1 then 0 else i + 1
  }

  /** allocate_tx: the slot of the last descriptor, which with flags is still to be published. */
  function TxSlot(head: nat, flags: bool): (i: nat)
    requires head < N
    ensures i < N && (if flags then i == head else Succ(i) == head)
  {
    if flags then head else if head > 0 then head - 1 else N - 1
  }

  lemma RingIncIsSucc(i: nat)
    requires i < N
    ensures RingInc(i) == Succ(i)
  {
    RingIncIsNext(i);
  }

  function Sweep(ring: seq<Desc>, tx: seq<Tx>, i: nat, head: nat, calls: seq<nat>, cookie: nat): Swept
    requires |ring| == |tx| == N && i < N && head < N
    decreases Ahead(i, head)
  {
    if i == head || ring[i].valid then Swept(i, calls, cookie, tx)
    else Sweep(ring, tx[i := Finished(tx[i])], Succ(i), head, calls + Calls(tx[i]), CookieAfter(tx[i], cookie))
  }

  /** The callbacks in the `n` slots from `i` on, in ring order. */
  function CallsOf(tx: seq<Tx>, i: nat, n: nat): seq<nat>
    requires |tx| == N && i < N
    decreases n
  {
    if n == 0 then [] else Calls(tx[i]) + CallsOf(tx, Succ(i), n - 1)
  }

  /** A sweep stops at the first slot that is valid or is the head, no earlier and no later. */
  lemma {:induction false} SweepStops(ring: seq<Desc>, tx: seq<Tx>, i: nat, head: nat, calls: seq<nat>, cookie: nat)
    requires |ring| == |tx| == N && i < N && head < N
    ensures var e := Sweep(ring, tx, i, head, calls, cookie).end;
            && e < N && Ahead(i, e) <= Ahead(i, head)
            && (e == head || ring[e].valid)
            && (forall j :: 0 <= j < N && Passed(i, e, j) ==> !ring[j].valid)
    decreases Ahead(i, head)
  {
    if i != head && !ring[i].valid {
      SweepStops(ring, tx[i := Finished(tx[i])], Succ(i), head, calls + Calls(tx[i]), CookieAfter(tx[i], cookie));
      AheadNext(i, Sweep(ring, tx, i, head, calls, cookie).end, head);
    }
  }

  /** It runs exactly the callbacks of the slots it passes, in order. */
  lemma {:induction false} SweepRuns(ring: seq<Desc>, tx: seq<Tx>, i: nat, head: nat, calls: seq<nat>, cookie: nat)
    requires |ring| == |tx| == N && i < N && head < N
    ensures var r := Sweep(ring, tx, i, head, calls, cookie);
            r.end < N && r.calls == calls + CallsOf(tx, i, Ahead(i, r.end))
    decreases Ahead(i, head)
  {
    if i != head && !ring[i].valid {
      var tx', calls', cookie' := tx[i := Finished(tx[i])], calls + Calls(tx[i]), CookieAfter(tx[i], cookie);
      var r := Sweep(ring, tx', Succ(i), head, calls', cookie');
      SweepRuns(ring, tx', Succ(i), head, calls', cookie');
      SweepStops(ring, tx', Succ(i), head, calls', cookie');
      AheadNext(i, r.end, head);
      CallsIgnore(tx, i, Finished(tx[i]), Succ(i), Ahead(Succ(i), r.end));
      CallsStep(tx, i, Ahead(Succ(i), r.end), calls);
    }
  }

  /** It blanks exactly the entries it passes that carry a transaction. */
  lemma {:induction false} SweepBlanks(ring: seq<Desc>, tx: seq<Tx>, i: nat, head: nat, calls: seq<nat>, cookie: nat)
    requires |ring| == |tx| == N && i < N && head < N
    ensures var r := Sweep(ring, tx, i, head, calls, cookie);
            && r.end < N && |r.tx| == N
            && forall j :: 0 <= j < N ==> r.tx[j] == if Passed(i, r.end, j) then Finished(tx[j]) else tx[j]
    decreases Ahead(i, head)
  {
    if i != head && !ring[i].valid {
      var tx', calls', cookie' := tx[i := Finished(tx[i])], calls + Calls(tx[i]), CookieAfter(tx[i], cookie);
      var r := Sweep(ring, tx', Succ(i), head, calls', cookie');
      SweepBlanks(ring, tx', Succ(i), head, calls', cookie');
      SweepStops(ring, tx', Succ(i), head, calls', cookie');
      AheadNext(i, r.end, head);
    }
  }

  lemma {:induction false} CallsIgnore(tx: seq<Tx>, i: nat, x: Tx, a: nat, n: nat)
    requires |tx| == N && i < N && a < N && n <= Ahead(a, i)
    ensures CallsOf(tx[i := x], a, n) == CallsOf(tx, a, n)
    decreases n
  {
    if n > 0 { CallsIgnore(tx, i, x, Succ(a), n - 1); }
  }

  lemma CallsStep(tx: seq<Tx>, i: nat, n: nat, calls: seq<nat>)
    requires |tx| == N && i < N
    ensures calls + Calls(tx[i]) + CallsOf(tx, Succ(i), n) == calls + CallsOf(tx, i, n + 1)
  {
  }

  /** Slots passed from `i` are `i` and those passed from its successor. */
  lemma AheadNext(i: nat, e: nat, head: nat)
    requires i < N && e < N && head < N && i != head && Ahead(Succ(i), e) <= Ahead(Succ(i), head)
    ensures Ahead(i, e) == Ahead(Succ(i), e) + 1 <= Ahead(i, head)
    ensures forall j :: 0 <= j < N ==> (Passed(i, e, j) <==> j == i || Passed(Succ(i), e, j))
    ensures !Passed(Succ(i), e, i)
  {
  }

  /** What is left when a request for `required` slots has looked for room. */
  function Room(ring: seq<Desc>, tx: seq<Tx>, tail: nat, head: nat, calls: seq<nat>, cookie: nat, required: int): Swept
    requires |ring| == |tx| == N && tail < N && head < N
  {
    if RingCount(head, tail) >= required then Swept(tail, calls, cookie, tx)
    else Sweep(ring, tx, tail, head, calls, cookie)
  }

  /** Slot `j` is passed by a sweep from `i` to `e`. */
  predicate Passed(i: nat, e: nat, j: nat)
    requires i < N && e < N && j < N
  {
    Ahead(i, j) < Ahead(i, e)
  }

  /** Descriptor `j` of a request split into `cs`, at slot `head + j`. */
  ghost predicate Programmed(ring: seq<Desc>, head: nat, cs: seq<Chunk>, flags: bool, j: nat)
    requires |ring| == N && j < |cs|
  {
    var d, last := ring[Idx(head + j)], j == |cs| - 1;
    Decode(d) == cs[j] && d.valid == !(last && flags) && d.intr == (last && flags)
  }

  ghost predicate Untouched(ring: seq<Desc>, ring0: seq<Desc>, head: nat, k: nat)
    requires |ring| == |ring0| == N
  {
    ring[Idx(head + k)] == ring0[Idx(head + k)]
  }

  /** The state of the ring after `j` of the descriptors. */
  ghost predicate Progress(ring: seq<Desc>, ring0: seq<Desc>, head: nat, cs: seq<Chunk>, flags: bool, j: nat) {
    && |ring| == |ring0| == N && j <= |cs| < N
    && (forall i :: 0 <= i < j ==> Programmed(ring, head, cs, flags, i))
    && (forall k :: j <= k < N ==> Untouched(ring, ring0, head, k))
  }

  lemma ProgramSlot(ring: seq<Desc>, ring0: seq<Desc>, head: nat, cs: seq<Chunk>, flags: bool, j: nat, d: Desc)
    requires Progress(ring, ring0, head, cs, flags, j) && j < |cs|
    requires Decode(d) == cs[j] && d.intr == (j == |cs| - 1 && flags) && d.valid == !d.intr
    ensures Progress(ring[Idx(head + j) := d], ring0, head, cs, flags, j + 1)
  {
    var r := ring[Idx(head + j) := d];
    var j' := j + 1;
    forall i | 0 <= i < j'
      ensures Programmed(r, head, cs, flags, i)
    {
      if i < j { assert Programmed(ring, head, cs, flags, i); IdxDiffer(head + i, head + j); }
    }
    forall k | j' <= k < N
      ensures Untouched(r, ring0, head, k)
    {
      assert Untouched(ring, ring0, head, k);
      IdxDiffer(head + j, head + k);
    }
  }

  /** Only the last descriptor of a request with flags waits for its valid bit and interrupts; the others are
      valid at once and silent. */
  lemma ProgrammedBits(ring: seq<Desc>, ring0: seq<Desc>, head: nat, cs: seq<Chunk>, flags: bool, i: nat)
    requires Progress(ring, ring0, head, cs, flags, |cs|) && i < |cs|
    ensures var d := ring[Idx(head + i)];
            && (d.valid <==> i < |cs| - 1 || !flags) && (d.intr <==> i == |cs| - 1 && flags)
            && Decode(d) == cs[i]
  {
    assert Programmed(ring, head, cs, flags, i);
  }

  class Channel {
    const descRing: array<Desc>
    const txArray: array<Tx>
    var head: nat
    var lastTail: nat
    /** The last cookie given out, and the last one completed. */
    var cookie: nat
    var completed: nat
    /** The callbacks that have been run. */
    var ran: seq<nat>

    ghost predicate Valid()
      reads this
    {
      descRing.Length == N && txArray.Length == N && head < N && lastTail < N
    }

    constructor ()
      ensures Valid() && fresh(descRing) && fresh(txArray)
      ensures head == lastTail == 0 && cookie == completed == 1 && ran == []
      ensures forall i :: 0 <= i < N ==> descRing[i] == Desc(false, false, 0, 0, 0, 0) && txArray[i] == Tx(0, None)
    {
      descRing := new Desc[N](_ => Desc(false, false, 0, 0, 0, 0));
      txArray := new Tx[N](_ => Tx(0, None));
      head, lastTail, cookie, completed, ran := 0, 0, 1, 1, [];
    }

    /** The body of the cleanup loop for one written-back slot. */
    method CompleteSlot(i: nat)
      requires Valid() && i < N
      modifies this`completed, this`ran, txArray
      ensures ran == old(ran) + Calls(old(txArray[i]))
      ensures completed == CookieAfter(old(txArray[i]), old(completed))
      ensures txArray[..] == old(txArray[..])[i := Finished(old(txArray[i]))]
    {
      if txArray[i].cookie != 0 {
        completed := txArray[i].cookie;
        txArray[i] := txArray[i].(cookie := 0);
        if txArray[i].callback.Some? {
          ran := ran + [txArray[i].callback.value];
          txArray[i] := txArray[i].(callback := None);
        }
      }
    }

    /** plx_dma_cleanup, without interference: the valid bits are only read, and every entry of
        tx_array up to the end is finished. */
    method Cleanup()
      requires Valid()
      modifies this`lastTail, this`completed, this`ran, txArray
      ensures Valid()
      ensures Swept(lastTail, ran, completed, txArray[..]) ==
              Sweep(descRing[..], old(txArray[..]), old(lastTail), head, old(ran), old(completed))
      ensures forall j :: 0 <= j < N ==>
                txArray[j] == if Passed(old(lastTail), lastTail, j) then Finished(old(txArray[j])) else old(txArray[j])
    {
      ghost var ring, tx := descRing[..], txArray[..];
      var tail: nat := lastTail;
      while tail != head && !descRing[tail].valid
        invariant tail < N && Valid() && ring == descRing[..] && lastTail == old(lastTail)
        invariant Sweep(ring, txArray[..], tail, head, ran, completed) ==
                  Sweep(ring, tx, lastTail, head, old(ran), old(completed))
        decreases Ahead(tail, head)
      {
        CompleteSlot(tail);
        AheadNext(tail, head, head);
        RingIncIsSucc(tail);
        tail := RingInc(tail);
      }
      lastTail := tail;
      SweepBlanks(ring, tx, old(lastTail), head, old(ran), old(completed));
    }

    /** plx_dma_is_tx_complete: clean up once if the cookie is not complete yet. */
    method IsTxComplete(c: nat) returns (complete: bool)
      requires Valid()
      modifies this`lastTail, this`completed, this`ran, txArray
      ensures Valid()
      ensures Swept(lastTail, ran, completed, txArray[..]) ==
              if IsComplete(c, old(completed), cookie)
              then Swept(old(lastTail), old(ran), old(completed), old(txArray[..]))
              else Sweep(descRing[..], old(txArray[..]), old(lastTail), head, old(ran), old(completed))
      ensures complete <==> IsComplete(c, completed, cookie)
    {
      if !IsComplete(c, completed, cookie) {
        Cleanup();
      }
      complete := IsComplete(c, completed, cookie);
    }

    /** plx_dma_avail_desc_ring_space: clean up once if the request does not fit. */
    method AvailSpace(required: int) returns (ok: bool)
      requires Valid()
      modifies this`lastTail, this`completed, this`ran, txArray
      ensures Valid()
      ensures Swept(lastTail, ran, completed, txArray[..]) ==
              Room(descRing[..], old(txArray[..]), old(lastTail), head, old(ran), old(completed), required)
      ensures ok <==> RingCount(head, lastTail) >= required
      ensures old(RingCount(head, lastTail)) >= required ==>
                && lastTail == old(lastTail) && ran == old(ran) && completed == old(completed)
                && txArray[..] == old(txArray[..])
    {
      if RingCount(head, lastTail) < required {
        Cleanup();
      }
      ok := RingCount(head, lastTail) >= required;
    }

    /** plx_dma_prog_memcpy_desc. Decoded in ring order, the slots written are the split request;
        with flags the last one is not yet valid and the head stays on it. */
    method ProgMemcpyDesc(src0: nat, dst0: nat, len0: nat, flags: bool) returns (ok: bool)
      requires Valid() && Addressable(Chunk(src0, dst0, len0))
      modifies this`head, this`lastTail, this`completed, this`ran, txArray, descRing
      ensures Valid()
      ensures
        var room := Room(old(descRing[..]), old(txArray[..]), old(lastTail), old(head), old(ran), old(completed),
                         |Chunks(src0, dst0, len0)|);
        && Swept(lastTail, ran, completed, txArray[..]) == room
        && (ok <==> RingCount(old(head), room.end) >= |Chunks(src0, dst0, len0)|)
      ensures !ok ==> head == old(head) && descRing[..] == old(descRing[..])
      ensures ok ==>
        var cs := Chunks(src0, dst0, len0);
        && head == Idx(old(head) + |cs| - if flags then 1 else 0)
        && Progress(descRing[..], old(descRing[..]), old(head), cs, flags, |cs|)
    {
      CountFitsInt(src0, dst0, len0);
      var numDesc := AsInt(DescCount(len0));
      ok := AvailSpace(numDesc);
      if ok {
        ProgramLoop(src0, dst0, len0, flags, numDesc);
      }
    }

    method ProgramLoop(src0: nat, dst0: nat, len0: nat, flags: bool, num: nat)
      requires Valid() && Addressable(Chunk(src0, dst0, len0)) && num == |Chunks(src0, dst0, len0)| < N
      modifies descRing, this`head
      ensures Valid()
      ensures var cs := Chunks(src0, dst0, len0);
              && head == Idx(old(head) + |cs| - if flags then 1 else 0)
              && Progress(descRing[..], old(descRing[..]), old(head), cs, flags, |cs|)
    {
      ghost var ring0, head0, cs := descRing[..], head, Chunks(src0, dst0, len0);
      var numDesc := num;
      var src: nat, dst: nat, len: nat := src0, dst0, len0;
      ghost var j: nat := 0;
      assert forall k :: 0 <= k < N ==> Untouched(descRing[..], ring0, head0, k);
      while numDesc > 0
        invariant Valid() && 0 <= j <= |cs| && numDesc == |cs| - j
        invariant numDesc > 0 ==> Chunks(src, dst, len) == cs[j..] && Addressable(Chunk(src, dst, len))
        invariant head == Idx(head0 + j - if flags && numDesc == 0 then 1 else 0)
        invariant Progress(descRing[..], ring0, head0, cs, flags, j)
      {
        var sendLen := if len < MAX_XFER then len else MAX_XFER;
        numDesc := numDesc - 1;
        NextChunk(src, dst, len, cs, j);
        var d := MemcpyDesc(src, dst, sendLen, numDesc == 0 && flags);
        PutDesc(d, ring0, head0, cs, flags, j);
        if numDesc > 0 || !flags {
          RingIncIsNext(head0 + j);
          head := RingInc(head);
        }
        len, dst, src := len - sendLen, dst + sendLen, src + sendLen;
        j := j + 1;
      }
    }

    method PutDesc(d: Desc, ghost ring0: seq<Desc>, ghost head0: nat,
                   ghost cs: seq<Chunk>, ghost flags: bool, ghost j: nat)
      requires Progress(descRing[..], ring0, head0, cs, flags, j) && j < |cs| && head == Idx(head0 + j)
      requires Decode(d) == cs[j] && d.valid == !(j == |cs| - 1 && flags) && d.intr == (j == |cs| - 1 && flags)
      modifies descRing
      ensures Progress(descRing[..], ring0, head0, cs, flags, j + 1)
    {
      ghost var ring := descRing[..];
      ProgramSlot(ring, ring0, head0, cs, flags, j, d);
      descRing[head] := d;
      assert descRing[..] == ring[head := d];
    }

    /** plx_dma_tx_submit_unlock: the cookie, and with flags the valid bit of the last descriptor and then
        the head. */
    method Submit(flags: bool) returns (c: nat)
      requires Valid()
      modifies this`cookie, this`head, txArray, descRing
      ensures Valid() && c == cookie == NextCookie(old(cookie)) && head == if flags then Succ(old(head)) else old(head)
      ensures var i := TxSlot(old(head), flags);
              txArray[..] == old(txArray[..])[i := old(txArray[..])[i].(cookie := c)]
      ensures descRing[..] == if flags then old(descRing[..])[old(head) := old(descRing[head]).(valid := true)]
                              else old(descRing[..])
    {
      var i := TxSlot(head, flags);
      c := if cookie + 1 > MAX_COOKIE then 1 else cookie + 1;
      cookie := c;
      txArray[i] := txArray[i].(cookie := c);
      if flags {
        descRing[head] := descRing[head].(valid := true);
        RingIncIsSucc(head);
        head := RingInc(head);
      }
    }

    /** plx_dma_memcpy_desc: a fence descriptor is not valid yet and interrupts. */
    method MemcpyDesc(src: nat, dst: nat, size: nat, fence: bool) returns (d: Desc)
      requires src < U48 && dst < U48 && size < U27
      ensures Decode(d) == Chunk(src, dst, size) && d.intr == fence && d.valid == !fence
    {
      DescriptorRoundTrip(src, dst, size, fence, !fence);
      d := Encode(src, dst, size, fence, !fence);
    }
  }

  /** One turn of the programming loop: the next chunk, and what is left of the request. */
  lemma NextChunk(src: nat, dst: nat, len: nat, cs: seq<Chunk>, j: nat)
    requires j < |cs| && Chunks(src, dst, len) == cs[j..] && Addressable(Chunk(src, dst, len))
    ensures var n := if len < MAX_XFER then len else MAX_XFER;
            && cs[j] == Chunk(src, dst, n)
            && (j + 1 < |cs| ==> len > MAX_XFER && Chunks(src + n, dst + n, len - n) == cs[j + 1..] &&
                                 Addressable(Chunk(src + n, dst + n, len - n)))
  {
    assert cs[j..][0] == cs[j] && cs[j..][1..] == cs[j + 1..];
  }
}
