/**
 DMA descriptors: how a copy is cut into descriptors of at most 2^27 - 1 bytes, how a descriptor
 packs two 48-bit addresses, and what running the descriptors does to memory.
 */
module DmaCopy {
  import opened Bits

  const MAX_XFER: nat := 0x7ff_ffff
  const U27: nat := 0x800_0000
  const U48: nat := 0x1_0000_0000_0000

  // ---------------------------------------------------------------- bit layout

  /** The valid and interrupt bits of the first word, its 27-bit size, and the three address words. */
  datatype Desc = Desc(valid: bool, intr: bool, size: nat, dw1: nat, dw2: nat, dw3: nat)

  datatype Chunk = Chunk(src: nat, dst: nat, len: nat)

  /** Bitwise OR. */
  function Or(x: nat, y: nat): int {
    x + y - And(x, y)
  }

  /** plx_dma_memcpy_desc; the high-half mask is sign-extended to 64 bits before the AND. */
  function Encode(src: nat, dst: nat, size: nat, intr: bool, valid: bool): Desc
    requires src < U64 && dst < U64
  {
    OrIsNat(And(src / U16, U64 - U16), dst / U32);
    Desc(valid, intr, And(size, U27 - 1),
         Or(And(src / U16, U64 - U16), dst / U32) % U32,
         And(dst, U32 - 1), And(src, U32 - 1))
  }

  /** The addresses as plx_debugfs.c and the engine read them back. */
  function Decode(d: Desc): Chunk {
    OrIsNat(d.dw3, And(d.dw1, U64 - U16) * U16);
    OrIsNat(d.dw2, And(d.dw1, U16 - 1) * U32);
    Chunk(Or(d.dw3, And(d.dw1, U64 - U16) * U16), Or(d.dw2, And(d.dw1, U16 - 1) * U32), d.size)
  }

  lemma {:induction false} AndBound(x: nat, y: nat)
    ensures And(x, y) <= x && And(x, y) <= y
    decreases x
  {
    if x > 0 && y > 0 { AndBound(x / 2, y / 2); }
  }

  lemma OrIsNat(x: nat, y: nat)
    ensures Or(x, y) >= 0
  {
    AndBound(x, y);
  }

  lemma {:induction false} AndDisjoint(x: nat, y: nat, k: nat)
    requires x % Pow2(k) == 0 && y < Pow2(k)
    ensures And(x, y) == 0
    decreases k
  {
    if k > 0 && x > 0 && y > 0 {
      HalfMod(x, Pow2(k - 1));
      AndDisjoint(x / 2, y / 2, k - 1);
    }
  }

  lemma AndCommutes(x: nat, y: nat)
    ensures And(x, y) == And(y, x)
    decreases x
  {
    if x > 0 && y > 0 { AndCommutes(x / 2, y / 2); }
  }

  lemma Powers()
    ensures Pow2(16) == U16 && Pow2(27) == U27 && Pow2(32) == U32 && Pow2(64) == U64
  {
    Pow2Is64();
    assert Pow2(8) == 0x100 && Pow2(11) == 0x800;
    Pow2Add(8, 8);
    Pow2Add(16, 11);
    Pow2Add(16, 16);
  }

  lemma Masks(x: nat)
    ensures And(x, U16 - 1) == x % U16 && And(x, U27 - 1) == x % U27 && And(x, U32 - 1) == x % U32
  {
    Powers();
    AndLowMask(x, 16);
    AndLowMask(x, 27);
    AndLowMask(x, 32);
  }

  lemma Halves(x: nat)
    ensures x / U16 / U16 == x / U32 && (x < U48 ==> x / U32 < U16) && (x < U27 ==> x % U27 == x)
  {
  }

  lemma MaskHigh(x: nat)
    requires x < U64
    ensures And(x, U64 - U16) == x / U16 * U16
  {
    Powers();
    MaskSplit(x, U16);
  }

  lemma OrShifted(h: nat, y: nat, k: nat)
    requires y < Pow2(k)
    ensures Or(h * Pow2(k), y) == Or(y, h * Pow2(k)) == h * Pow2(k) + y
  {
    UniqueMod(h * Pow2(k), Pow2(k), h, 0);
    AndDisjoint(h * Pow2(k), y, k);
    AndCommutes(h * Pow2(k), y);
  }

  lemma HighHalves(src: nat, dst: nat)
    requires src < U48 && dst < U48
    ensures Or(And(src / U16, U64 - U16), dst / U32) == (src / U32) * U16 + dst / U32
    ensures src / U32 < U16 && dst / U32 < U16
  {
    Powers();
    Halves(src);
    Halves(dst);
    MaskHigh(src / U16);
    OrShifted(src / U32, dst / U32, 16);
  }

  /** The words of a descriptor with 48-bit addresses. */
  lemma EncodeWords(src: nat, dst: nat, size: nat, intr: bool, valid: bool)
    requires src < U48 && dst < U48 && size < U27
    ensures var d := Encode(src, dst, size, intr, valid);
            && d.dw1 == (src / U32) * U16 + dst / U32 && d.dw2 == dst % U32 && d.dw3 == src % U32 && d.size == size
  {
    Masks(dst);
    Masks(src);
    Masks(size);
    Halves(size);
    HighHalves(src, dst);
    SmallWord((src / U32) * U16 + dst / U32);
  }

  lemma SmallWord(x: nat)
    requires x < U32
    ensures x % U32 == x
  {
  }

  lemma DecodeWords(d: Desc, a: nat, b: nat)
    requires a < U16 && b < U16 && d.dw1 == a * U16 + b && d.dw2 < U32 && d.dw3 < U32
    ensures Decode(d) == Chunk(a * U32 + d.dw3, b * U32 + d.dw2, d.size)
  {
    Powers();
    UniqueMod(d.dw1, U16, a, b);
    MaskHigh(d.dw1);
    Masks(d.dw1);
    OrShifted(a, d.dw3, 32);
    OrShifted(b, d.dw2, 32);
  }

  /** A descriptor gives back both addresses exactly when both fit in 48 bits. */
  lemma DescriptorRoundTrip(src: nat, dst: nat, size: nat, intr: bool, valid: bool)
    requires src < U64 && dst < U64 && size < U27
    ensures Decode(Encode(src, dst, size, intr, valid)) == Chunk(src, dst, size) <==> src < U48 && dst < U48
  {
    var d := Encode(src, dst, size, intr, valid);
    if src < U48 && dst < U48 {
      EncodeWords(src, dst, size, intr, valid);
      DecodeWords(d, src / U32, dst / U32);
    } else {
      WordsBound(src, dst, size, intr, valid);
      DecodeWords(d, d.dw1 / U16, d.dw1 % U16);
    }
  }

  lemma WordsBound(src: nat, dst: nat, size: nat, intr: bool, valid: bool)
    requires src < U64 && dst < U64
    ensures var d := Encode(src, dst, size, intr, valid); d.dw1 < U32 && d.dw2 < U32 && d.dw3 < U32
  {
    AndBound(dst, U32 - 1);
    AndBound(src, U32 - 1);
  }

  // ---------------------------------------------------------------- splitting

  /** The descriptors for one request, in ring order; an empty request takes one of length 0. */
  function Chunks(src: nat, dst: nat, len: nat): (cs: seq<Chunk>)
    ensures |cs| > 0
    decreases len
  {
    if len <= MAX_XFER then [Chunk(src, dst, len)]
    else [Chunk(src, dst, MAX_XFER)] + Chunks(src + MAX_XFER, dst + MAX_XFER, len - MAX_XFER)
  }

  /** The driver's count: DIV_ROUND_UP in 64 bits, or 1 for an empty request, before it is stored in an int. */
  function DescCount(len: nat): nat {
    if len == 0 then 1 else (len + MAX_XFER - 1) % U64 / MAX_XFER
  }

  /** `int num_desc`: the low 32 bits, read as a signed number. */
  function AsInt(x: nat): int {
    var y := x % U32;
    if y < U32 / 2 then y else y - U32
  }

  /** How many descriptors a request needs, without any wrap-around. */
  lemma {:induction false} ChunksNeeded(src: nat, dst: nat, len: nat)
    ensures |Chunks(src, dst, len)| == if len == 0 then 1 else (len + 0x7ff_ffff - 1) / 0x7ff_ffff
    decreases len
  {
    if len > MAX_XFER { ChunksNeeded(src + MAX_XFER, dst + MAX_XFER, len - MAX_XFER); }
  }

  /** All descriptors but the last carry 2^27 - 1 bytes, one range after the other, and the last the rest. */
  lemma {:induction false} ChunkAt(src: nat, dst: nat, len: nat, i: nat)
    requires i < |Chunks(src, dst, len)|
    ensures var at := i * 0x7ff_ffff;
            && at <= len && (i == |Chunks(src, dst, len)| - 1 <==> len - at <= 0x7ff_ffff)
            && Chunks(src, dst, len)[i] ==
               Chunk(src + at, dst + at, if len - at <= 0x7ff_ffff then len - at else 0x7ff_ffff)
    decreases len
  {
    if len > MAX_XFER && i > 0 { ChunkAt(src + MAX_XFER, dst + MAX_XFER, len - MAX_XFER, i - 1); }
  }

  /** The 64-bit rounding is exact until its sum wraps. */
  lemma ChunkCount(src: nat, dst: nat, len: nat)
    requires len < U64
    ensures |Chunks(src, dst, len)| == DescCount(len) <==> len + MAX_XFER <= U64
  {
    ChunksNeeded(src, dst, len);
    RoundingSum(len);
  }

  lemma RoundingSum(len: nat)
    requires len < U64
    ensures var t := len + MAX_XFER - 1; t % U64 == if t < U64 then t else t - U64
  {
  }

  /** Rounding and conversion give the number of descriptors needed exactly for requests of at most
      2^31 - 1 descriptors. */
  lemma CountFitsInt(src: nat, dst: nat, len: nat)
    requires len < U64
    ensures AsInt(DescCount(len)) == |Chunks(src, dst, len)| <==> len <= (U32 / 2 - 1) * MAX_XFER
  {
    ChunksNeeded(src, dst, len);
    RoundingSum(len);
  }

  /** A request of 2^59 - 2^32 bytes: the count becomes 0 and nothing is programmed for it. */
  lemma CountCanVanish()
    ensures U32 * MAX_XFER < U64 && AsInt(DescCount(U32 * MAX_XFER)) == 0
  {
  }

  // ---------------------------------------------------------------- meaning

  type Memory = nat -> int

  function Copy(m: Memory, c: Chunk): Memory {
    (a: nat) => if c.dst <= a < c.dst + c.len then m(c.src + (a - c.dst)) else m(a)
  }

  function Exec(m: Memory, cs: seq<Chunk>): Memory
    decreases |cs|
  {
    if cs == [] then m else Exec(Copy(m, cs[0]), cs[1..])
  }

  ghost predicate Disjoint(c: Chunk) {
    c.src + c.len <= c.dst || c.dst + c.len <= c.src
  }

  ghost predicate SameMemory(m: Memory, n: Memory) {
    forall a: nat :: m(a) == n(a)
  }

  lemma CopyRespects(m: Memory, n: Memory, c: Chunk)
    requires SameMemory(m, n)
    ensures SameMemory(Copy(m, c), Copy(n, c))
  {
    forall a: nat
      ensures Copy(m, c)(a) == Copy(n, c)(a)
    {
      if c.dst <= a < c.dst + c.len { assert m(c.src + (a - c.dst)) == n(c.src + (a - c.dst)); }
    }
  }

  lemma {:induction false} ExecRespects(m: Memory, n: Memory, cs: seq<Chunk>)
    requires SameMemory(m, n)
    ensures SameMemory(Exec(m, cs), Exec(n, cs))
    decreases |cs|
  {
    if cs != [] {
      CopyRespects(m, n, cs[0]);
      ExecRespects(Copy(m, cs[0]), Copy(n, cs[0]), cs[1..]);
    }
  }

  lemma {:induction false} ExecConcat(m: Memory, cs: seq<Chunk>, ds: seq<Chunk>)
    ensures Exec(m, cs + ds) == Exec(Exec(m, cs), ds)
    decreases |cs|
  {
    if cs == [] {
      assert cs + ds == ds;
    } else {
      assert (cs + ds)[1..] == cs[1..] + ds;
      ExecConcat(Copy(m, cs[0]), cs[1..], ds);
    }
  }

  /** Splitting preserves meaning: the descriptors of a request between disjoint ranges, run in
      order, do what one memcpy does. */
  lemma {:induction false} SplitIsCopy(m: Memory, src: nat, dst: nat, len: nat)
    requires Disjoint(Chunk(src, dst, len))
    ensures SameMemory(Exec(m, Chunks(src, dst, len)), Copy(m, Chunk(src, dst, len)))
    decreases len
  {
    if len > MAX_XFER {
      var m1 := Copy(m, Chunk(src, dst, MAX_XFER));
      SplitIsCopy(m1, src + MAX_XFER, dst + MAX_XFER, len - MAX_XFER);
    }
  }

  /** The descriptors of several requests in a row. */
  function AllChunks(reqs: seq<Chunk>): (cs: seq<Chunk>) {
    if reqs == [] then []
    else AllChunks(reqs[..|reqs| - 1]) + Chunks(reqs[|reqs| - 1].src, reqs[|reqs| - 1].dst, reqs[|reqs| - 1].len)
  }

  /** Requests run one after the other, each a whole memcpy. */
  function Memcpys(m: Memory, reqs: seq<Chunk>): Memory
    decreases |reqs|
  {
    if reqs == [] then m else Copy(Memcpys(m, reqs[..|reqs| - 1]), reqs[|reqs| - 1])
  }

  lemma {:induction false} RequestsAreMemcpys(m: Memory, reqs: seq<Chunk>)
    requires forall i :: 0 <= i < |reqs| ==> Disjoint(reqs[i])
    ensures SameMemory(Exec(m, AllChunks(reqs)), Memcpys(m, reqs))
    decreases |reqs|
  {
    if reqs != [] {
      var init, r := reqs[..|reqs| - 1], reqs[|reqs| - 1];
      var cs := Chunks(r.src, r.dst, r.len);
      RequestsAreMemcpys(m, init);
      ExecConcat(m, AllChunks(init), cs);
      ExecRespects(Exec(m, AllChunks(init)), Memcpys(m, init), cs);
      SplitIsCopy(Memcpys(m, init), r.src, r.dst, r.len);
      assert Chunk(r.src, r.dst, r.len) == r;
    }
  }
}
