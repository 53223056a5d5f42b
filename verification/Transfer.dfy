/**
 * A DMA transfer into the aperture: the engine executes the descriptors of the request, and the
 * switch routes every byte to the memory behind the aperture.
 */
module Transfer {
  import opened Wrappers
  import opened AddressLut
  import opened DmaCopy
  import opened DmaRing

  /** Memory of the card, byte by byte. */
  type Card = map<nat, nat>

  function Peek(m: Card, a: nat): nat {
    if a in m then m[a] else 0
  }

  ghost predicate Holds(m: Card, pa: nat, data: seq<nat>) {
    forall k :: 0 <= k < |data| ==> Peek(m, pa + k) == data[k]
  }

  ghost predicate SameOutside(m: Card, m': Card, pa: nat, n: nat) {
    forall a: nat :: a < pa || pa + n <= a ==> Peek(m', a) == Peek(m, a)
  }

  /** The aperture at bus address `aper`, and where a write at each of its offsets ends up. */
  datatype Window = Window(aper: nat, route: nat -> Option<nat>)

  /** The routes of an aperture that is not translated, or is translated by the registers of the switch. */
  function Routes(aLut: bool, mmio: Mmio, base: nat, n: nat, size: nat): nat -> Option<nat> {
    (o: nat) => if !aLut then Some(o) else if size > 0 then Switch(mmio, base, n, size, o) else None
  }

  ghost predicate Reaches(w: Window, off: nat, pa: nat, k: nat) {
    w.route(off + k) == Some(pa + k)
  }

  /** Bytes `off` up to `off + len` of the aperture lead to `pa` and what follows it. */
  ghost predicate Leads(w: Window, off: nat, pa: nat, len: nat) {
    forall k :: 0 <= k < len ==> Reaches(w, off, pa, k)
  }

  /** One byte on the bus; what the switch does not pass on is lost. */
  function PutByte(w: Window, card: Card, a: nat, v: nat): Card {
    if a < w.aper then card
    else
      match w.route(a - w.aper)
      case Some(x) => card[x := v]
      case None => card
  }

  /** The first `k` bytes of a descriptor, read from host memory. */
  function PutChunk(w: Window, host: nat -> nat, card: Card, c: Chunk, k: nat): Card {
    if k == 0 then card else PutByte(w, PutChunk(w, host, card, c, k - 1), c.dst + k - 1, host(c.src + k - 1))
  }

  function PutAll(w: Window, host: nat -> nat, card: Card, c: Chunk): Card {
    PutChunk(w, host, card, c, c.len)
  }

  /** All bytes of a list of descriptors, in order. */
  function Deliver(w: Window, host: nat -> nat, card: Card, cs: seq<Chunk>): Card
    decreases |cs|
  {
    if cs == [] then card else Deliver(w, host, PutAll(w, host, card, cs[0]), cs[1..])
  }

  /** The bytes at `pa` are those at `src` in host memory. */
  ghost predicate Arrived(host: nat -> nat, src: nat, card: Card, pa: nat, len: nat) {
    forall k :: 0 <= k < len ==> ByteArrived(host, src, card, pa, k)
  }

  ghost predicate ByteArrived(host: nat -> nat, src: nat, card: Card, pa: nat, k: nat) {
    Peek(card, pa + k) == host(src + k)
  }

  lemma {:induction false} PutChunkArrives(w: Window, host: nat -> nat, card: Card, c: Chunk, n: nat, off: nat, pa: nat)
    requires c.dst == w.aper + off && Leads(w, off, pa, n)
    ensures var now := PutChunk(w, host, card, c, n);
            Arrived(host, c.src, now, pa, n) && SameOutside(card, now, pa, n)
    decreases n
  {
    if n > 0 {
      PutChunkArrives(w, host, card, c, n - 1, off, pa);
      assert Reaches(w, off, pa, n - 1);
      var was, now := PutChunk(w, host, card, c, n - 1), PutChunk(w, host, card, c, n);
      forall k | 0 <= k < n ensures ByteArrived(host, c.src, now, pa, k) {
        if k < n - 1 { assert ByteArrived(host, c.src, was, pa, k); }
      }
    }
  }

  lemma LeadsPart(w: Window, off: nat, pa: nat, len: nat, m: nat)
    requires Leads(w, off, pa, len) && m <= len
    ensures Leads(w, off, pa, m) && Leads(w, off + m, pa + m, len - m)
  {
    var off', pa' := off + m, pa + m;
    forall k | 0 <= k < len - m ensures Reaches(w, off', pa', k) {
      assert Reaches(w, off, pa, m + k);
    }
  }

  lemma ArrivedParts(host: nat -> nat, src: nat, a: Card, b: Card, pa: nat, len: nat, m: nat)
    requires m <= len && Arrived(host, src, a, pa, m) && SameOutside(a, b, pa + m, len - m)
    requires Arrived(host, src + m, b, pa + m, len - m)
    ensures Arrived(host, src, b, pa, len)
  {
    forall k | 0 <= k < len ensures ByteArrived(host, src, b, pa, k) {
      if k < m {
        assert ByteArrived(host, src, a, pa, k);
      } else {
        assert ByteArrived(host, src + m, b, pa + m, k - m);
      }
    }
  }

  lemma OutsideParts(a: Card, b: Card, c: Card, pa: nat, len: nat, m: nat)
    requires m <= len && SameOutside(a, b, pa, m) && SameOutside(b, c, pa + m, len - m)
    ensures SameOutside(a, c, pa, len)
  {
  }

  /** However a request is split, its descriptors bring exactly its bytes to the memory behind the
      aperture and touch nothing else. */
  lemma {:induction false} RequestArrives(w: Window, host: nat -> nat, card: Card,
                                        src: nat, off: nat, len: nat, pa: nat)
    requires Leads(w, off, pa, len)
    ensures var now := Deliver(w, host, card, Chunks(src, w.aper + off, len));
            Arrived(host, src, now, pa, len) && SameOutside(card, now, pa, len)
    decreases len
  {
    var cs := Chunks(src, w.aper + off, len);
    var m := if len <= MAX_XFER then len else MAX_XFER;
    LeadsPart(w, off, pa, len, m);
    PutChunkArrives(w, host, card, cs[0], m, off, pa);
    var first := PutChunk(w, host, card, cs[0], m);
    assert Arrived(host, src, first, pa, m);
    if len > MAX_XFER {
      RequestArrives(w, host, first, src + m, off + m, len - m, pa + m);
      assert cs[1..] == Chunks(src + m, w.aper + (off + m), len - m);
      var now := Deliver(w, host, card, cs);
      ArrivedParts(host, src, first, now, pa, len, m);
      OutsideParts(card, first, now, pa, len, m);
    } else {
      assert Deliver(w, host, card, cs) == first;
    }
  }

  lemma {:induction false} DeliverConcat(w: Window, host: nat -> nat, card: Card, a: seq<Chunk>, b: seq<Chunk>)
    ensures Deliver(w, host, card, a + b) == Deliver(w, host, Deliver(w, host, card, a), b)
    decreases |a|
  {
    if a == [] {
      assert a + b == b;
    } else {
      DeliverConcat(w, host, PutAll(w, host, card, a[0]), a[1..], b);
      assert (a + b)[1..] == a[1..] + b;
    }
  }

  /** When the status test says that a request is complete, the engine has brought its bytes across: what
      dma_sync_wait waits for is enough. The test may use an old count `used` of the submissions. */
  lemma CompletedRequestArrived(s: State, n: nat, used: nat, w: Window, host: nat -> nat, card: Card, off: nat, pa: nat)
    requires DmaRing.Inv(s) && n < used <= |s.subs|
    requires IsComplete(CookieOf(n + 1), s.completed, CookieOf(used))
    requires s.subs[n].req.dst == w.aper + off && Leads(w, off, pa, s.subs[n].req.len)
    ensures |s.executed| > s.subs[n].pos
    ensures
      var req := s.subs[n].req;
      var before := Deliver(w, host, card, AllChunks(Reqs(s.subs[..n])));
      var now := Deliver(w, host, card, s.executed[..s.subs[n].pos + 1]);
      Arrived(host, req.src, now, pa, req.len) && SameOutside(before, now, pa, req.len)
  {
    StatusMeansWrittenBack(s, n, used);
    ExecutedIs(s, n);
    LastReq(s.subs, n);
    LastArrives(Reqs(s.subs[..n]), s.subs[n].req, w, host, card, off, pa);
  }

  lemma LastReq(subs: seq<Sub>, n: nat)
    requires n < |subs|
    ensures Reqs(subs[..n + 1]) == Reqs(subs[..n]) + [subs[n].req]
  {
  }

  /** After the descriptors of several requests, the last one has arrived. */
  lemma LastArrives(reqs: seq<Chunk>, req: Chunk, w: Window, host: nat -> nat, card: Card, off: nat, pa: nat)
    requires req.dst == w.aper + off && Leads(w, off, pa, req.len)
    ensures var before := Deliver(w, host, card, AllChunks(reqs));
            var now := Deliver(w, host, card, AllChunks(reqs + [req]));
            Arrived(host, req.src, now, pa, req.len) && SameOutside(before, now, pa, req.len)
  {
    AllChunksSnoc(reqs, req);
    DeliverConcat(w, host, card, AllChunks(reqs), Chunks(req.src, req.dst, req.len));
    RequestArrives(w, host, Deliver(w, host, card, AllChunks(reqs)), req.src, off, req.len, pa);
  }
}
