/**
 * Sending a ramdisk image to the card (modules/vca/plx87xx/plx_lbp.c): the image goes over in
 * chunks, and each chunk is mapped into the aperture, copied by DMA through the address
 * translation of the switch, and unmapped again.
 *
 * Copying from user space and the DMA may fail at any point; a failed DMA may have written any of
 * its bytes.  A `sound` link does not fail.
 */
module Ramdisk {
  import opened Bits
  import opened Wrappers
  import opened AlutManager
  import opened AddressLut
  import opened DmaCopy
  import opened Transfer

  const HPAGE_SIZE: nat := 0x20_0000
  const PAGE_SIZE: nat := 0x1000
  const MEGABYTE: nat := 0x10_0000

  datatype Result = StateOk | InternalError | AllocTimeout

  /** The card's answer to MAP_RAMDISK. */
  datatype Reply = NoReply | CardError | MappedAt(addr: nat)

  /** The bus addresses of the aperture and of the intermediate buffer, and whether the link fails. */
  datatype Link = Link(aper: nat, buffer: nat, sound: bool)

  /** The first `n` bytes of the image have arrived. */
  ghost predicate Sent(m: Card, ph: nat, img: seq<nat>, n: nat)
    requires n <= |img|
  {
    forall k :: 0 <= k < n ==> Peek(m, ph + k) == img[k]
  }

  function DivRoundUp(n: nat, d: nat): nat
    requires d > 0
  {
    (n + d - 1) / d
  }

  // ---------------------------------------------------------------- one transfer

  /** Host memory with `data` at `src`. */
  function HostBuffer(src: nat, data: seq<nat>): nat -> nat {
    a => if src <= a < src + |data| then data[a - src] else 0
  }

  /** The engine at work on one descriptor. */
  method ExecuteDesc(w: Window, sound: bool, host: nat -> nat, card: Card, c: Chunk, ghost off: nat, ghost pa: nat)
    returns (ok: bool, now: Card)
    requires c.dst == w.aper + off && Leads(w, off, pa, c.len)
    ensures ok ==> now == PutAll(w, host, card, c)
    ensures SameOutside(card, now, pa, c.len)
    ensures sound ==> ok
  {
    ok, now := true, card;
    var k := 0;
    while k < c.len
      invariant 0 <= k <= c.len && (sound ==> ok)
      invariant ok ==> now == PutChunk(w, host, card, c, k)
      invariant SameOutside(card, now, pa, c.len)
    {
      assert Reaches(w, off, pa, k);
      var lost := false;
      if !sound {
        lost := *;
      }
      if lost {
        ok := false;
      } else {
        now := PutByte(w, now, c.dst + k, host(c.src + k));
      }
      k := k + 1;
    }
  }

  /** The engine at work on all descriptors of a request. */
  method ExecuteRequest(w: Window, sound: bool, host: nat -> nat, card: Card,
                        src: nat, off: nat, len: nat, ghost pa: nat)
    returns (ok: bool, now: Card)
    requires Leads(w, off, pa, len)
    ensures ok ==> now == Deliver(w, host, card, Chunks(src, w.aper + off, len))
    ensures SameOutside(card, now, pa, len)
    ensures sound ==> ok
    decreases len, 1
  {
    if len <= MAX_XFER {
      ok, now := ExecuteDesc(w, sound, host, card, Chunk(src, w.aper + off, len), off, pa);
      OnlyChunk(w, host, card, src, off, len);
    } else {
      ok, now := ExecuteSplit(w, sound, host, card, src, off, len, pa);
    }
  }

  method ExecuteSplit(w: Window, sound: bool, host: nat -> nat, card: Card, src: nat, off: nat, len: nat, ghost pa: nat)
    returns (ok: bool, now: Card)
    requires Leads(w, off, pa, len) && len > MAX_XFER
    ensures ok ==> now == Deliver(w, host, card, Chunks(src, w.aper + off, len))
    ensures SameOutside(card, now, pa, len)
    ensures sound ==> ok
    decreases len, 0
  {
    LeadsPart(w, off, pa, len, MAX_XFER);
    var good, first := ExecuteDesc(w, sound, host, card, Chunk(src, w.aper + off, MAX_XFER), off, pa);
    ok, now := ExecuteRequest(w, sound, host, first, src + MAX_XFER, off + MAX_XFER, len - MAX_XFER, pa + MAX_XFER);
    ok := ok && good;
    OutsideParts(card, first, now, pa, len, MAX_XFER);
    if ok { ThenTheRest(w, host, card, src, off, len, first, now); }
  }

  /** vca_lbp_sync_dma of the intermediate buffer to aperture offset `off`: success means that the
      engine has executed all descriptors of the request. */
  method SyncDma(w: Window, sound: bool, card: Card, src: nat, off: nat, data: seq<nat>, ghost pa: nat)
    returns (ok: bool, now: Card)
    requires Leads(w, off, pa, |data|)
    ensures ok ==> now == Deliver(w, HostBuffer(src, data), card, Chunks(src, w.aper + off, |data|))
    ensures ok ==> Holds(now, pa, data)
    ensures SameOutside(card, now, pa, |data|)
    ensures sound ==> ok
  {
    ok, now := ExecuteRequest(w, sound, HostBuffer(src, data), card, src, off, |data|, pa);
    RequestArrives(w, HostBuffer(src, data), card, src, off, |data|, pa);
    if ok { ArrivedHolds(src, data, now, pa); }
  }

  lemma OnlyChunk(w: Window, host: nat -> nat, card: Card, src: nat, off: nat, len: nat)
    requires len <= MAX_XFER
    ensures Deliver(w, host, card, Chunks(src, w.aper + off, len)) ==
            PutAll(w, host, card, Chunk(src, w.aper + off, len))
  {
    assert Chunks(src, w.aper + off, len)[1..] == [];
  }

  lemma ThenTheRest(w: Window, host: nat -> nat, card: Card, src: nat, off: nat, len: nat, first: Card, now: Card)
    requires len > MAX_XFER && first == PutAll(w, host, card, Chunk(src, w.aper + off, MAX_XFER))
    requires now == Deliver(w, host, first, Chunks(src + MAX_XFER, w.aper + (off + MAX_XFER), len - MAX_XFER))
    ensures now == Deliver(w, host, card, Chunks(src, w.aper + off, len))
  {
    assert Chunks(src, w.aper + off, len)[1..] == Chunks(src + MAX_XFER, w.aper + (off + MAX_XFER), len - MAX_XFER);
  }

  lemma ArrivedHolds(src: nat, data: seq<nat>, now: Card, pa: nat)
    requires Arrived(HostBuffer(src, data), src, now, pa, |data|)
    ensures Holds(now, pa, data)
  {
    forall k | 0 <= k < |data| ensures Peek(now, pa + k) == data[k] {
      assert ByteArrived(HostBuffer(src, data), src, now, pa, k);
    }
  }

  // ---------------------------------------------------------------- one chunk

  function WindowOf(dev: Device, link: Link): Window
    reads dev, dev.alm
  {
    Window(link.aper, Routes(dev.aLut, dev.mmio, dev.arrayBase, dev.alm.segmentsNum, dev.alm.segmentSize))
  }

  /** A live mapping leads to the memory it was made for. */
  lemma MappingLeads(dev: Device, link: Link, id: nat, pa: nat, n: nat)
    requires dev.Valid() && dev.aLut && id in dev.live && dev.live[id].addr == pa && dev.live[id].len == n
    requires pa + n <= U64
    ensures Leads(WindowOf(dev, link), Offset(dev.alm.segmentSize, dev.live[id]), pa, n)
  {
    var s := dev.Model();
    forall k | 0 <= k < n ensures Reaches(WindowOf(dev, link), Offset(dev.alm.segmentSize, dev.live[id]), pa, k) {
      SwitchCorrect(s, id, k);
    }
  }

  /** The aperture as a request sees it. */
  datatype Aperture = Aperture(aLut: bool, size: nat, n: nat)

  function ApertureOf(dev: Device): (g: Aperture)
    reads dev, dev.alm
  {
    Aperture(dev.aLut, dev.alm.segmentSize, dev.alm.segmentsNum)
  }

  /** A request of this size and place finds room when nothing else is mapped. */
  predicate Fits(g: Aperture, pa: nat, n: nat) {
    !g.aLut || (g.size > 0 && 0 < n <= g.size * g.n && Segments(g.size, pa, n) <= g.n)
  }

  /** plx_ioremap of a chunk: the whole of it can be reached through the aperture. */
  method Remap(dev: Device, link: Link, pa: nat, n: nat) returns (off: Option<nat>)
    requires dev.Valid() && |dev.live| < U16 - 2 && 0 < n < U64 && pa + n <= U64
    modifies dev, dev.alm.entries
    ensures dev.Valid() && dev.alm.entries == old(dev.alm.entries) && (off.None? ==> dev.aLut)
    ensures old(dev.live) == map[] ==> (off.Some? <==> Fits(ApertureOf(dev), pa, n))
    ensures off.Some? ==> Leads(WindowOf(dev, link), off.value, pa, n)
    ensures
      var id := old(dev.next);
      if dev.aLut && off.Some?
      then id in dev.live && off.value == Offset(dev.alm.segmentSize, dev.live[id]) && dev.live - {id} == old(dev.live)
      else dev.live == old(dev.live)
  {
    FewLiveNoOverflow(dev.Model(), pa, n);
    NextIsUnused(dev.Model());
    if dev.live == map[] { NoLiveAccepts(dev.Model(), pa, n); }
    ghost var id, live := dev.next, dev.live;
    off := dev.Ioremap(pa, n);
    if dev.aLut && off.Some? {
      MappingLeads(dev, link, id, pa, n);
      MapThenUnmap(live, id, dev.live[id]);
    }
  }

  lemma MapThenUnmap<T>(m: map<nat, T>, id: nat, v: T)
    requires id !in m
    ensures m[id := v] - {id} == m
  {
  }

  /** Map, copy, unmap: the body of the chunk loop. */
  method SendChunk(dev: Device, link: Link, card: Card, pa: nat, data: seq<nat>) returns (ok: bool, now: Card)
    requires dev.Valid() && |dev.live| < U16 - 2 && 0 < |data| < U64 && pa + |data| <= U64
    modifies dev, dev.alm.entries
    ensures dev.Valid() && dev.live == old(dev.live) && dev.alm.entries == old(dev.alm.entries)
    ensures ok ==> Holds(now, pa, data)
    ensures SameOutside(card, now, pa, |data|)
    ensures link.sound && (!dev.aLut || old(dev.live) == map[]) ==> (ok <==> Fits(ApertureOf(dev), pa, |data|))
  {
    ghost var id := dev.next;
    var remapped := Remap(dev, link, pa, |data|);
    if remapped == None {
      return false, card;
    }
    var w := WindowOf(dev, link);
    ok, now := SyncDma(w, link.sound, card, link.buffer, remapped.value, data, pa);
    dev.Iounmap(remapped.value, id);
  }

  // ---------------------------------------------------------------- the whole image

  /** The device's invariant, folded up: it comes into view only where `Unfold` is mentioned. */
  ghost predicate Intact(dev: Device)
    reads dev, dev.alm, dev.alm.entries
  {
    forall k {:trigger Unfold(k)} :: Unfold(k) ==> dev.Valid()
  }

  predicate Unfold(k: nat) {
    true
  }

  datatype Part = Part(offset: nat, size: nat)

  /** The chunks from `offset` on: `size` bytes each, the last one what is left. */
  function Plan(offset: nat, size: nat, total: nat): (parts: seq<Part>)
    decreases total - offset
  {
    if size == 0 || offset + size > total then []
    else [Part(offset, size)] + Plan(offset + size, NextSize(total, offset + size, size), total)
  }

  predicate PartFits(g: Aperture, ph: nat, p: Part) {
    Fits(g, ph + p.offset, p.size)
  }

  /** Every chunk finds room when nothing else is mapped. */
  predicate AllFit(g: Aperture, ph: nat, parts: seq<Part>) {
    forall i :: 0 <= i < |parts| ==> PartFits(g, ph, parts[i])
  }

  lemma PlanStep(parts: seq<Part>, i: nat, offset: nat, size: nat, total: nat)
    requires i <= |parts| && parts[i..] == Plan(offset, size, total) && 0 < size && offset + size <= total
    ensures i < |parts| && parts[i] == Part(offset, size)
    ensures parts[i + 1..] == Plan(offset + size, NextSize(total, offset + size, size), total)
  {
    assert parts[i..][0] == Part(offset, size) && parts[i..][1..] == parts[i + 1..];
  }

  function NextSize(total: nat, offset: nat, size: nat): nat
    requires offset <= total
  {
    if total - offset > size then size else total - offset
  }

  /** One turn of the chunk loop. */
  method SendNext(dev: Device, link: Link, card: Card, img: seq<nat>, offset: nat, size: nat, ph: nat)
    returns (ok: bool, now: Card)
    requires Intact(dev) && |dev.live| < U16 - 2 && offset + size <= |img| && 0 < size < U32 && ph + |img| <= U64
    modifies dev, dev.alm.entries
    ensures Intact(dev) && dev.live == old(dev.live) && dev.alm.entries == old(dev.alm.entries)
    ensures ok && Sent(card, ph, img, offset) ==> Sent(now, ph, img, offset + size)
    ensures SameOutside(card, now, ph, |img|)
    ensures link.sound && (!dev.aLut || old(dev.live) == map[]) ==> (ok <==> Fits(ApertureOf(dev), ph + offset, size))
  {
    ok := CopyFromUser(link.sound);
    if !ok {
      return false, card;
    }
    assert Unfold(0);
    var chunk, pa := img[offset..offset + size], ph + offset;
    ok, now := SendChunk(dev, link, card, pa, chunk);
    ChunkDone(card, now, ph, img, offset, size, chunk, pa);
  }

  /** The chunk extends what the card already holds of the image. */
  lemma ChunkDone(was: Card, now: Card, ph: nat, img: seq<nat>, offset: nat, n: nat, chunk: seq<nat>, pa: nat)
    requires offset + n <= |img| && chunk == img[offset..offset + n] && pa == ph + offset
    ensures Sent(was, ph, img, offset) && SameOutside(was, now, pa, |chunk|) && Holds(now, pa, chunk) ==>
      Sent(now, ph, img, offset + n)
    ensures SameOutside(was, now, pa, |chunk|) ==> SameOutside(was, now, ph, |img|)
  {
    if Sent(was, ph, img, offset) && SameOutside(was, now, pa, |chunk|) && Holds(now, pa, chunk) {
      forall k | 0 <= k < offset + n ensures Peek(now, ph + k) == img[k] {
        if k >= offset { assert chunk[k - offset] == img[k]; }
      }
    }
  }

  method CopyFromUser(sound: bool) returns (ok: bool)
    ensures sound ==> ok
  {
    ok := true;
    if !sound {
      ok := *;
    }
  }

  /** The chunk loop, from a first chunk of `size0` bytes on. */
  method SendChunks(dev: Device, link: Link, card: Card, img: seq<nat>, size0: nat, ph: nat)
    returns (r: Result, now: Card)
    requires Intact(dev) && |dev.live| < U16 - 2
    requires ph + |img| <= U64 && size0 <= |img| && (img != [] ==> 0 < size0 < U32)
    modifies dev, dev.alm.entries
    ensures Intact(dev) && dev.live == old(dev.live) && r != AllocTimeout
    ensures r == StateOk ==> Sent(now, ph, img, |img|)
    ensures SameOutside(card, now, ph, |img|)
    ensures link.sound && (!dev.aLut || old(dev.live) == map[]) ==>
      (r == StateOk <==> AllFit(ApertureOf(dev), ph, Plan(0, size0, |img|)))
  {
    ghost var g, exact := ApertureOf(dev), link.sound && (!dev.aLut || dev.live == map[]);
    ghost var parts, i: nat := Plan(0, size0, |img|), 0;
    r, now := StateOk, card;
    var offset: nat, size: nat := 0, size0;
    while offset < |img| && r == StateOk
      invariant offset <= |img| && size <= |img| - offset && (offset < |img| ==> 0 < size < U32)
      invariant Intact(dev) && dev.live == old(dev.live) && dev.alm.entries == old(dev.alm.entries)
      invariant r != AllocTimeout && (r == StateOk ==> Sent(now, ph, img, offset))
      invariant SameOutside(card, now, ph, |img|)
      invariant i <= |parts| && parts[i..] == Plan(offset, size, |img|)
      invariant exact ==> forall j :: 0 <= j < i ==> PartFits(g, ph, parts[j])
      invariant exact && r != StateOk ==> !AllFit(g, ph, parts)
      decreases |img| - offset, r == StateOk
    {
      PlanStep(parts, i, offset, size, |img|);
      var ok;
      ok, now := SendNext(dev, link, now, img, offset, size, ph);
      assert exact ==> ok == PartFits(g, ph, parts[i]);
      if ok {
        offset := offset + size;
        size := NextSize(|img|, offset, size);
        i := i + 1;
      } else {
        r := InternalError;
      }
    }
  }

  /** The transfer with an intermediate buffer of `bufferSize` bytes. */
  method SendImage(dev: Device, link: Link, card: Card, img: seq<nat>, bufferSize: nat, ph: nat)
    returns (r: Result, now: Card)
    requires Intact(dev) && |dev.live| < U16 - 2 && 0 < bufferSize < U32 && ph + |img| <= U64
    modifies dev, dev.alm.entries
    ensures Intact(dev) && dev.live == old(dev.live) && r != AllocTimeout
    ensures r == StateOk ==> Sent(now, ph, img, |img|)
    ensures SameOutside(card, now, ph, |img|)
    ensures link.sound && (!dev.aLut || old(dev.live) == map[]) ==>
      (r == StateOk <==> AllFit(ApertureOf(dev), ph, Plan(0, NextSize(|img|, 0, bufferSize), |img|)))
  {
    r, now := SendChunks(dev, link, card, img, NextSize(|img|, 0, bufferSize), ph);
  }

  /** The chunks in which an image of `total` bytes goes over. */
  function Chunking(total: nat, huge: bool): seq<Part> {
    Plan(0, NextSize(total, 0, if huge then HPAGE_SIZE else PAGE_SIZE), total)
  }

  /** The exits of plx_lbp_send_ramdisk, and the transfer when there is a place for it. */
  method SendReply(dev: Device, link: Link, card: Card, img: seq<nat>, ready: bool, huge: bool, reply: Reply)
    returns (r: Result, now: Card)
    requires Intact(dev) && |dev.live| < U16 - 2 && (reply.MappedAt? ==> reply.addr + |img| <= U64)
    modifies dev, dev.alm.entries
    ensures Intact(dev) && dev.live == old(dev.live)
    ensures r == StateOk ==> ready && reply.MappedAt? && Sent(now, reply.addr, img, |img|)
    ensures reply.MappedAt? ==> SameOutside(card, now, reply.addr, |img|)
    ensures !ready || !reply.MappedAt? ==> now == card
    ensures r == AllocTimeout <==> ready && reply == NoReply
    ensures link.sound && ready && reply.MappedAt? && (!dev.aLut || old(dev.live) == map[]) ==>
      (r == StateOk <==> AllFit(ApertureOf(dev), reply.addr, Chunking(|img|, huge)))
  {
    if !ready {
      return InternalError, card;
    }
    match reply {
      case NoReply => return AllocTimeout, card;
      case CardError => return InternalError, card;
      case MappedAt(ph) =>
        r, now := SendImage(dev, link, card, img, if huge then HPAGE_SIZE else PAGE_SIZE, ph);
    }
  }

  /** plx_lbp_send_ramdisk; `ready` says whether there is a DMA channel, a ready card and an
      intermediate buffer, `huge` whether that buffer is the large one. */
  method SendRamdisk(dev: Device, link: Link, card: Card, img: seq<nat>, ready: bool, huge: bool, reply: Reply)
    returns (r: Result, now: Card)
    requires dev.Valid() && |dev.live| < U16 - 2
    requires reply.MappedAt? ==> reply.addr + DivRoundUp(|img|, MEGABYTE) * MEGABYTE <= U64
    modifies dev, dev.alm.entries
    ensures dev.Valid() && dev.live == old(dev.live) && dev.alm.entries == old(dev.alm.entries)
    ensures r == StateOk ==> ready && reply.MappedAt? && Sent(now, reply.addr, img, |img|)
    ensures reply.MappedAt? ==> SameOutside(card, now, reply.addr, |img|)
    ensures !ready || !reply.MappedAt? ==> now == card
    ensures r == AllocTimeout <==> ready && reply == NoReply
    ensures link.sound && ready && reply.MappedAt? && (!dev.aLut || old(dev.live) == map[]) ==>
      (r == StateOk <==> AllFit(ApertureOf(dev), reply.addr, Chunking(|img|, huge)))
  {
    AreaHolds(|img|);
    r, now := SendReply(dev, link, card, img, ready, huge, reply);
    assert Unfold(0);
  }

  lemma AreaHolds(n: nat)
    ensures n <= DivRoundUp(n, MEGABYTE) * MEGABYTE
  {
  }

  lemma {:induction false} PlanSizes(offset: nat, size: nat, total: nat)
    ensures forall i :: 0 <= i < |Plan(offset, size, total)| ==> 0 < Plan(offset, size, total)[i].size <= size
    decreases total - offset
  {
    if size > 0 && offset + size <= total { PlanSizes(offset + size, NextSize(total, offset + size, size), total); }
  }

  /** The chunks of an image follow each other without a gap: all but the last have the size of the buffer,
      and the last is what is left. */
  lemma {:induction false} PlanIs(offset: nat, size: nat, total: nat, i: nat)
    requires 0 < size && offset + size <= total
    ensures i < |Plan(offset, size, total)| <==> offset + i * size < total
    ensures i < |Plan(offset, size, total)| ==>
              Plan(offset, size, total)[i] ==
              Part(offset + i * size, if total - (offset + i * size) > size then size else total - (offset + i * size))
    decreases total - offset
  {
    var next := offset + size;
    if i > 0 {
      assert offset + i * size == next + (i - 1) * size;
      var s := NextSize(total, next, size);
      if s == size {
        PlanIs(next, size, total, i - 1);
      } else {
        LastPart(next, s, size, total, i - 1);
      }
    }
  }

  lemma LastPart(offset: nat, s: nat, size: nat, total: nat, i: nat)
    requires s == total - offset < size && offset <= total
    ensures i < |Plan(offset, s, total)| <==> offset + i * size < total
    ensures i < |Plan(offset, s, total)| ==> i == 0 && Plan(offset, s, total)[i] == Part(offset, s)
  {
    if i > 0 { assert i * size >= size; }
    assert NextSize(total, total, s) == 0;
  }

  /** The buffer is a huge page or, failing that, a page; a smaller image is one chunk. */
  lemma FirstPart(total: nat, huge: bool)
    requires total > 0
    ensures Chunking(total, huge) != [] && Chunking(total, huge)[0].offset == 0
    ensures var buffer := if huge then 0x20_0000 else 0x1000;
            Chunking(total, huge)[0].size == if total > buffer then buffer else total
  {
  }

  /** With translation it is enough that the chunks are one segment smaller than the aperture. */
  lemma SmallChunksFit(g: Aperture, ph: nat, size: nat, total: nat)
    requires g.size > 0 && size + g.size <= g.size * g.n
    ensures AllFit(g, ph, Plan(0, size, total))
  {
    var parts := Plan(0, size, total);
    PlanSizes(0, size, total);
    forall i | 0 <= i < |parts| ensures PartFits(g, ph, parts[i]) {
      SmallFits(g.size, g.n, ph + parts[i].offset, parts[i].size);
    }
  }

  lemma SmallFits(size: nat, n: nat, addr: nat, len: nat)
    requires size > 0 && len + size <= size * n
    ensures Segments(size, addr, len) <= n
  {
    var t := addr % size + len + size - 1;
    assert t < (n + 1) * size by { assert (n + 1) * size == size * n + size; }
    DivBounds(t, size, 0, n + 1);
  }
}
