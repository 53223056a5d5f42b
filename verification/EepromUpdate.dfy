/**
 * Writing a validated image into the configuration EEPROM, word by word, and reading every word
 * back (modules/vca/plx87xx/plx_hw.c).
 *
 * The EEPROM is reached through commands that carry a 13-bit block number and one data register.
 * The device is not trusted: any command may time out, and a write may leave any value in the
 * addressed block.  A `reliable` device answers every command and stores what it is given.
 */
module EepromUpdate {
  import opened Bits
  import opened EepromCrc

  datatype Status = Ok | Timeout | InternalError

  datatype Command = Read | WriteEnable | Write

  const BLOCKS: nat := 8192
  /** The largest image eeprom_validate can accept. */
  const LARGEST: nat := 65540

  // ---------------------------------------------------------------- what the EEPROM holds

  predicate Words(cells: seq<nat>) {
    |cells| == BLOCKS && forall i :: 0 <= i < BLOCKS ==> cells[i] < U32
  }

  /** The block number field has 13 bits. */
  function Block(w: nat): (b: nat)
    ensures b < BLOCKS
  {
    w % BLOCKS
  }

  function BlockOf(off: nat): (b: nat)
    ensures b < BLOCKS
  {
    Block(off / 4)
  }

  /** Number of blocks an image takes, the trailing half-word included. */
  function WordCount(n: nat): nat {
    (n + 3) / 4
  }

  predicate Matches(c: nat, d: Bytes, w: nat)
    requires ValidLength(|d|) && 4 * w < |d|
  {
    if |d| - 4 * w == 2 then c % U16 == Half(d, 4 * w) else c == Word(d, 4 * w)
  }

  /** Words `from` up to `to` of the image are in their blocks. */
  ghost predicate Holds(cells: seq<nat>, d: Bytes, from: int, to: nat)
    requires Words(cells) && ValidLength(|d|) && to <= WordCount(|d|)
  {
    forall w: nat :: from <= w < to ==> Matches(cells[Block(w)], d, w)
  }

  /** What a reliable device leaves in the other half of the block of a trailing half-word: its old
      contents or, when the image comes round to that block again, the image's own earlier half-word. */
  function KeptHalf(before: seq<nat>, d: Bytes): nat
    requires Words(before) && ValidLength(|d|) && |d| % 4 == 2
  {
    if |d| <= 4 * BLOCKS then before[BlockOf(|d|)] / U16 else Half(d, |d| - 4 * BLOCKS)
  }

  /** The blocks from `b` on are as they were. */
  ghost predicate SameFrom(cells: seq<nat>, before: seq<nat>, b: nat)
    requires Words(cells) && Words(before)
  {
    forall i :: b <= i < BLOCKS ==> cells[i] == before[i]
  }

  ghost predicate OnlyChanges(before: seq<nat>, after: seq<nat>, b: nat) {
    |before| == |after| && forall i :: 0 <= i < |before| && i != b ==> before[i] == after[i]
  }

  class Device {
    const reliable: bool
    var cells: seq<nat>
    var buffer: nat
    var writable: bool

    ghost predicate Valid()
      reads this
    {
      Words(cells) && buffer < U32
    }

    constructor (reliable: bool, cells: seq<nat>)
      requires Words(cells)
      ensures Valid() && this.reliable == reliable && this.cells == cells
    {
      this.reliable, this.cells := reliable, cells;
      buffer, writable := 0, false;
    }

    /** The device: what one command may do. */
    method Send(cmd: Command, blk: nat) returns (s: Status)
      requires Valid() && blk < BLOCKS
      modifies this
      ensures Valid() && s != InternalError && (reliable ==> s == Ok)
      ensures cmd.Write? || cells == old(cells)
      ensures OnlyChanges(old(cells), cells, blk)
      ensures cmd.Read? && s == Ok ==> buffer == cells[blk]
      ensures cmd.WriteEnable? && reliable ==> writable
      ensures cmd.Write? && reliable && old(writable) ==> cells[blk] == old(buffer)
    {
      s := Ok;
      if !reliable {
        if * { s := Timeout; }
      }
      match cmd {
        case Read =>
          if s == Ok { buffer := cells[blk]; }
        case WriteEnable =>
          writable := reliable;
        case Write =>
          var stored: nat := buffer;
          if !(reliable && writable) {
            stored := *;
            if stored >= U32 { stored := cells[blk]; }
          }
          cells, writable := cells[blk := stored], false;
      }
    }

    method WaitReady() returns (s: Status)
      ensures s != InternalError && (reliable ==> s == Ok)
    {
      s := Ok;
      if !reliable {
        if * { s := Timeout; }
      }
    }

    /** eeprom_read32 */
    method Read32(off: nat) returns (s: Status, v: nat)
      requires Valid()
      modifies this
      ensures Valid() && cells == old(cells) && s != InternalError && (reliable ==> s == Ok)
      ensures v < U32 && (s == Ok ==> v == cells[off / 4 % 8192])
    {
      v := 0;
      s := WaitReady();
      if s != Ok {
        return;
      }
      s := Send(Read, BlockOf(off));
      if s != Ok {
        return;
      }
      v := buffer;
    }

    /** eeprom_read16 */
    method Read16(off: nat) returns (s: Status, v: nat)
      requires Valid()
      modifies this
      ensures Valid() && cells == old(cells) && s != InternalError && (reliable ==> s == Ok)
      ensures s == Ok ==>
        v == if off % 4 != 0 then cells[off / 4 % 8192] / U16 else cells[off / 4 % 8192] % U16
    {
      v := 0;
      var word;
      s, word := Read32(off - off % 4);
      if s != Ok {
        return;
      }
      v := if off % 4 != 0 then word / U16 else word % U16;
    }

    /** eeprom_write32 */
    method Write32(off: nat, v: nat) returns (s: Status)
      requires Valid() && v < U32
      modifies this
      ensures Valid() && s != InternalError && (reliable ==> s == Ok)
      ensures OnlyChanges(old(cells), cells, off / 4 % 8192)
      ensures reliable ==> cells[off / 4 % 8192] == v
    {
      s := WaitReady();
      if s != Ok {
        return;
      }
      s := Send(WriteEnable, 0);
      if s != Ok {
        return;
      }
      buffer := v;
      s := Send(Write, BlockOf(off));
    }

    /** eeprom_write16: the other half of the block is read first and written back. */
    method Write16(off: nat, v: nat) returns (s: Status)
      requires Valid() && v < U16
      modifies this
      ensures Valid() && s != InternalError && (reliable ==> s == Ok)
      ensures OnlyChanges(old(cells), cells, BlockOf(off))
      ensures reliable ==>
        var was, now := old(cells[BlockOf(off)]), cells[BlockOf(off)];
        if off % 4 != 0 then now % U16 == was % U16 && now / U16 == v
        else now % U16 == v && now / U16 == was / U16
    {
      var word;
      s, word := Read32(off - off % 4);
      if s != Ok {
        return;
      }
      word := if off % 4 != 0 then U16 * v + word % U16 else v + word / U16 * U16;
      s := Write32(off - off % 4, word);
    }

    /** One turn of the write loop. */
    method WriteAndVerify(d: Bytes, off: nat) returns (s: Status)
      requires Valid() && ValidLength(|d|) && off % 4 == 0 && off < |d|
      modifies this
      ensures Valid() && (reliable ==> s == Ok)
      ensures OnlyChanges(old(cells), cells, BlockOf(off))
      ensures s == Ok ==> Matches(cells[BlockOf(off)], d, off / 4)
      ensures reliable && |d| - off == 2 ==> cells[BlockOf(off)] / U16 == old(cells[BlockOf(off)] / U16)
    {
      if |d| - off == 2 {
        s := Write16(off, Half(d, off));
        if s != Ok {
          return;
        }
        var back;
        s, back := Read16(off);
        if s != Ok {
          return;
        }
        if Half(d, off) != back {
          s := InternalError;
        }
      } else {
        s := Write32(off, Word(d, off));
        if s != Ok {
          return;
        }
        var back;
        s, back := Read32(off);
        if s != Ok {
          return;
        }
        if Word(d, off) != back {
          s := InternalError;
        }
      }
    }

    /** One turn of the write loop and what it adds: word `w` of the image. */
    method WriteTurn(d: Bytes, off: nat, ghost w: nat, ghost before: seq<nat>) returns (s: Status)
      requires Valid() && ValidLength(|d|) && |d| <= U16 - 2 && off == 4 * w < |d| && Words(before)
      requires Holds(cells, d, w - BLOCKS, w) && SameFrom(cells, before, w)
      modifies this
      ensures Valid() && (reliable ==> s == Ok) && SameFrom(cells, before, w + 1)
      ensures s == Ok ==> Holds(cells, d, w + 1 - BLOCKS, w + 1)
      ensures reliable && |d| - off == 2 ==> cells[BlockOf(|d|)] / U16 == KeptHalf(before, d)
    {
      ghost var was := cells;
      s := WriteAndVerify(d, off);
      if s == Ok { HoldsOneMore(was, cells, d, w); }
      if |d| - off == 2 { HalfBefore(before, was, d, w); }
    }

    /** The write loop of plx_update_eeprom. */
    method WriteAll(d: Bytes) returns (s: Status)
      requires Valid() && ValidLength(|d|) && |d| <= U16 - 2
      modifies this
      ensures Valid() && (reliable ==> s == Ok)
      ensures s == Ok ==> Holds(cells, d, WordCount(|d|) - BLOCKS, WordCount(|d|))
      ensures SameFrom(cells, old(cells), WordCount(|d|))
      ensures reliable && |d| % 4 == 2 ==> cells[BlockOf(|d|)] / U16 == KeptHalf(old(cells), d)
    {
      s := Ok;
      var off: nat := 0;
      ghost var w: nat := 0;
      while off < |d|
        invariant Valid() && s == Ok && off == 4 * w <= |d|
        invariant Holds(cells, d, w - BLOCKS, w) && SameFrom(cells, old(cells), w)
        decreases |d| - off
      {
        s := WriteTurn(d, off, w, old(cells));
        LastTurn(|d|, off, w);
        if s != Ok {
          return;
        }
        if |d| - off == 2 {
          return;
        }
        w := w + 1;
        off := (off + 4) % U16;
      }
    }

    /** plx_update_eeprom, for the images on which its loop ends. */
    method Update(d: Bytes) returns (s: Status)
      requires Valid() && !(Accepted(d) && |d| == LARGEST)
      modifies this
      ensures Valid()
      ensures !Accepted(d) ==> s == InternalError && cells == old(cells)
      ensures Accepted(d) && reliable ==> s == Ok
      ensures s == Ok ==> Accepted(d) && Holds(cells, d, WordCount(|d|) - BLOCKS, WordCount(|d|))
      ensures SameFrom(cells, old(cells), WordCount(|d|))
      ensures Accepted(d) && reliable && |d| % 4 == 2 ==> cells[BlockOf(|d|)] / U16 == KeptHalf(old(cells), d)
      ensures s == Ok ==> (ReadBack(cells, |d|) == d <==> Repeats(d) && HalfKept(cells, d))
      ensures s == Ok && (reliable || |d| % 4 == 0) ==> HalfKept(cells, d)
    {
      var ok := Validate(d);
      if !ok {
        return InternalError;
      }
      BelowLargest(|d|);
      s := WriteAll(d);
      if s == Ok { ReadsBackExactly(cells, d); }
    }
  }

  /** Where the loop stands after a turn: at the end of the image, or at the next word. */
  lemma LastTurn(n: nat, off: nat, w: nat)
    requires n % 2 == 0 && n <= U16 - 2 && off == 4 * w < n
    ensures w + 1 <= WordCount(n)
    ensures if n - off == 2 then n % 4 == 2 && w + 1 == WordCount(n) else off + 4 <= n && (off + 4) % U16 == off + 4
  {
    var h := n / 2;
    assert n == 2 * h;
    if n - off == 2 {
      assert n == 4 * w + 2;
    } else {
      assert h >= 2 * w + 2;
      SmallOffset(off + 4);
    }
    CountedWords(n, w);
  }

  lemma CountedWords(n: nat, w: nat)
    requires 4 * w < n
    ensures w + 1 <= WordCount(n) && (n == 4 * w + 2 ==> n % 4 == 2 && WordCount(n) == w + 1)
  {
  }

  lemma SmallOffset(x: nat)
    requires x < U16
    ensures x % U16 == x
  {
  }

  lemma BelowLargest(n: nat)
    requires n % 6 == 2 && n < LARGEST
    ensures n <= U16 - 2
  {
  }

  lemma BlocksDiffer(v: nat, w: nat)
    requires v < w < v + BLOCKS
    ensures Block(v) != Block(w)
  {
  }

  lemma HoldsOneMore(was: seq<nat>, now: seq<nat>, d: Bytes, w: nat)
    requires Words(was) && Words(now) && ValidLength(|d|) && 4 * w < |d|
    requires Holds(was, d, w - BLOCKS, w) && OnlyChanges(was, now, Block(w)) && Matches(now[Block(w)], d, w)
    ensures Holds(now, d, w + 1 - BLOCKS, w + 1)
  {
    forall v: nat | w + 1 - BLOCKS <= v < w + 1 ensures Matches(now[Block(v)], d, v) {
      if v < w { BlocksDiffer(v, w); }
    }
  }

  /** The other half of the last block before the trailing half-word is written. */
  lemma HalfBefore(before: seq<nat>, was: seq<nat>, d: Bytes, w: nat)
    requires Words(before) && Words(was) && ValidLength(|d|) && |d| == 4 * w + 2 && |d| <= 8 * BLOCKS
    requires Holds(was, d, w - BLOCKS, w) && SameFrom(was, before, w)
    ensures was[Block(w)] / U16 == KeptHalf(before, d)
  {
    if w >= BLOCKS {
      var v := w - BLOCKS;
      assert Block(v) == Block(w);
      WordHalves(d, 4 * v);
    }
  }

  // ---------------------------------------------------------------- the image, byte by byte

  function ByteOf(c: nat, j: nat): nat
    requires j < 4
  {
    var h := if j < 2 then c % U16 else c / U16;
    if j % 2 == 0 then h % 256 else h / 256
  }

  function ByteAt(cells: seq<nat>, i: nat): nat
    requires Words(cells)
  {
    ByteOf(cells[BlockOf(i)], i % 4)
  }

  lemma HalfBytes(d: Bytes, off: nat)
    requires off + 2 <= |d|
    ensures Half(d, off) % 256 == d[off] && Half(d, off) / 256 == d[off + 1]
  {
  }

  lemma WordHalves(d: Bytes, off: nat)
    requires off + 4 <= |d|
    ensures Word(d, off) % U16 == Half(d, off) && Word(d, off) / U16 == Half(d, off + 2)
  {
  }

  lemma MatchedBytes(c: nat, d: Bytes, w: nat, j: nat)
    requires ValidLength(|d|) && 4 * w + j < |d| && j < 4 && Matches(c, d, w)
    ensures ByteOf(c, j) == d[4 * w + j]
  {
    var off := 4 * w;
    HalfBytes(d, off);
    if |d| - off != 2 {
      WordHalves(d, off);
      HalfBytes(d, off + 2);
    }
  }

  /** Byte `i` of the EEPROM is the image byte of the last word that went to its block. */
  lemma UpdatedBytes(cells: seq<nat>, d: Bytes, i: nat)
    requires Words(cells) && ValidLength(|d|) && i < |d| && Holds(cells, d, WordCount(|d|) - BLOCKS, WordCount(|d|))
    requires 4 * WordCount(|d|) - 4 * BLOCKS <= i
    ensures ByteAt(cells, i) == d[i]
  {
    var w, j := i / 4, i % 4;
    assert i == 4 * w + j && w < WordCount(|d|);
    MatchedBytes(cells[Block(w)], d, w, j);
  }

  lemma SameByte(cells: seq<nat>, i: nat)
    requires Words(cells)
    ensures ByteAt(cells, i) == ByteAt(cells, i + 4 * BLOCKS)
  {
    NextRound(i);
  }

  lemma NextRound(i: nat)
    ensures BlockOf(i + 4 * BLOCKS) == BlockOf(i) && (i + 4 * BLOCKS) % 4 == i % 4
  {
    assert (i + 4 * BLOCKS) / 4 == i / 4 + BLOCKS;
  }

  /** The bytes that an image overwrites: each holds the byte 32768 further on. */
  lemma OverwrittenBytes(cells: seq<nat>, d: Bytes, i: nat)
    requires Words(cells) && ValidLength(|d|) && |d| <= 8 * BLOCKS
    requires Holds(cells, d, WordCount(|d|) - BLOCKS, WordCount(|d|)) && i + 4 * BLOCKS < |d|
    ensures ByteAt(cells, i) == d[i + 32768]
  {
    SameByte(cells, i);
    UpdatedBytes(cells, d, i + 4 * BLOCKS);
  }

  /** The half-word beside the trailing one, when the image has come round to its block. */
  ghost predicate HalfKept(cells: seq<nat>, d: Bytes)
    requires Words(cells) && ValidLength(|d|)
  {
    |d| % 4 == 2 && |d| > 4 * BLOCKS ==> cells[BlockOf(|d|)] / U16 == Half(d, |d| - 4 * BLOCKS)
  }

  lemma KeptBytes(cells: seq<nat>, d: Bytes, i: nat)
    requires Words(cells) && ValidLength(|d|) && HalfKept(cells, d) && 4 * BLOCKS < |d| <= 8 * BLOCKS && |d| % 4 == 2
    requires |d| - 4 * BLOCKS <= i < |d| - 4 * BLOCKS + 2
    ensures ByteAt(cells, i) == d[i]
  {
    assert i / 4 + BLOCKS == |d| / 4 && BlockOf(i) == BlockOf(|d|) && i % 4 >= 2;
    HalfBytes(d, |d| - 4 * BLOCKS);
  }

  lemma BesideTrailing(n: nat, i: nat)
    requires n % 2 == 0 && n <= i + 4 * BLOCKS < 4 * WordCount(n)
    ensures n % 4 == 2 && n > 4 * BLOCKS ==> i < n - 4 * BLOCKS + 2
    ensures n % 4 == 2
  {
  }

  /** Every byte after a successful update by a device that keeps the other half of a block. */
  lemma ByteAfter(cells: seq<nat>, d: Bytes, i: nat)
    requires Words(cells) && ValidLength(|d|) && |d| <= 8 * BLOCKS && i < |d| && HalfKept(cells, d)
    requires Holds(cells, d, WordCount(|d|) - BLOCKS, WordCount(|d|))
    ensures ByteAt(cells, i) == if i + 4 * BLOCKS < |d| then d[i + 4 * BLOCKS] else d[i]
  {
    if i + 4 * BLOCKS < |d| {
      OverwrittenBytes(cells, d, i);
    } else if 4 * WordCount(|d|) - 4 * BLOCKS <= i {
      UpdatedBytes(cells, d, i);
    } else {
      BesideTrailing(|d|, i);
      KeptBytes(cells, d, i);
    }
  }

  function ReadBack(cells: seq<nat>, n: nat): (image: seq<nat>)
    requires Words(cells)
    ensures |image| == n && forall i :: 0 <= i < n ==> image[i] == ByteAt(cells, i)
  {
    seq(n, i requires 0 <= i < n => ByteAt(cells, i))
  }

  /** The bytes that share a place in the EEPROM are equal. */
  ghost predicate Repeats(d: Bytes) {
    forall i :: 0 <= i < |d| - 4 * BLOCKS ==> Twin(d, i)
  }

  predicate Twin(d: Bytes, i: nat)
    requires i + 4 * BLOCKS < |d|
  {
    d[i] == d[i + 4 * BLOCKS]
  }

  /** What the EEPROM reads back after a successful update. */
  function Overlaid(d: Bytes): (image: seq<nat>)
    ensures |image| == |d|
  {
    seq(|d|, i requires 0 <= i < |d| => if i + 4 * BLOCKS < |d| then d[i + 4 * BLOCKS] else d[i])
  }

  lemma OverlaidIsImage(d: Bytes)
    ensures Overlaid(d) == d <==> Repeats(d)
  {
    if Overlaid(d) == d {
      forall i | 0 <= i < |d| - 4 * BLOCKS ensures Twin(d, i) { assert Overlaid(d)[i] == d[i]; }
    }
    if Repeats(d) {
      forall i | 0 <= i < |d| ensures Overlaid(d)[i] == d[i] { if i + 4 * BLOCKS < |d| { assert Twin(d, i); } }
    }
  }

  /** A device that changed the half-word beside the trailing one cannot give the image back. */
  lemma LostHalf(cells: seq<nat>, d: Bytes)
    requires Words(cells) && ValidLength(|d|) && |d| <= 8 * BLOCKS && ReadBack(cells, |d|) == d
    ensures HalfKept(cells, d)
  {
    if |d| % 4 == 2 && |d| > 4 * BLOCKS {
      var off := |d| - 4 * BLOCKS;
      var c := cells[BlockOf(|d|)];
      SameByte(cells, off);
      SameByte(cells, off + 1);
      BesideBytes(|d|);
      assert ByteAt(cells, off) == d[off] && ByteAt(cells, off + 1) == d[off + 1] by {
        assert ReadBack(cells, |d|)[off] == d[off] && ReadBack(cells, |d|)[off + 1] == d[off + 1];
      }
      HalfBytes(d, off);
      assert c / U16 % 256 == d[off] && c / U16 / 256 == d[off + 1];
    }
  }

  lemma BesideBytes(n: nat)
    requires n % 4 == 2
    ensures BlockOf(n + 1) == BlockOf(n) && (n + 1) % 4 == 3
  {
  }

  /** After a successful update the EEPROM reads back as the image if and only if the image repeats
      itself after 32768 bytes, as every shorter image does, and the device kept the half-word beside a
      trailing one, as every reliable device does. */
  lemma ReadsBackExactly(cells: seq<nat>, d: Bytes)
    requires Words(cells) && ValidLength(|d|) && |d| <= 8 * BLOCKS
    requires Holds(cells, d, WordCount(|d|) - BLOCKS, WordCount(|d|))
    ensures ReadBack(cells, |d|) == d <==> Repeats(d) && HalfKept(cells, d)
    ensures HalfKept(cells, d) ==> ReadBack(cells, |d|) == Overlaid(d)
  {
    if ReadBack(cells, |d|) == d { LostHalf(cells, d); }
    if HalfKept(cells, d) { ReadsOverlaid(cells, d); }
  }

  lemma ReadsOverlaid(cells: seq<nat>, d: Bytes)
    requires Words(cells) && ValidLength(|d|) && |d| <= 8 * BLOCKS && HalfKept(cells, d)
    requires Holds(cells, d, WordCount(|d|) - BLOCKS, WordCount(|d|))
    ensures ReadBack(cells, |d|) == Overlaid(d) && (Overlaid(d) == d <==> Repeats(d))
  {
    forall i | 0 <= i < |d| ensures ReadBack(cells, |d|)[i] == Overlaid(d)[i] { ByteAfter(cells, d, i); }
    OverlaidIsImage(d);
  }

  /** An image of at most 32768 bytes is stored whole, by any device. */
  lemma UpdatedImage(cells: seq<nat>, d: Bytes)
    requires Words(cells) && ValidLength(|d|) && Holds(cells, d, WordCount(|d|) - BLOCKS, WordCount(|d|))
    requires |d| <= 4 * BLOCKS
    ensures ReadBack(cells, |d|) == d
  {
    ReadsBackExactly(cells, d);
  }

  function Zeros(n: nat): (b: Bytes)
    ensures |b| == n && forall i :: 0 <= i < n ==> b[i] == 0
  {
    seq(n, _ => 0)
  }

  lemma NextSize(n: nat)
    requires n > 4 * BLOCKS && n % 6 == 2
    ensures n >= 4 * BLOCKS + 6
  {
  }

  /** Every accepted size above 32768 has accepted images that do not read back. */
  lemma OverwrittenImageExists(n: nat) returns (d: Bytes)
    requires 4 * BLOCKS < n <= LARGEST && n % 6 == 2
    ensures |d| == n && Accepted(d) && !Repeats(d)
  {
    NextSize(n);
    var config := Zeros(n - 8);
    d := AcceptedExists(config);
    assert d[4 * BLOCKS] == config[4 * BLOCKS - 4] by {
      assert d[4..|d| - 4][4 * BLOCKS - 4] == config[4 * BLOCKS - 4];
    }
    assert !Twin(d, 0);
  }

  // ---------------------------------------------------------------- when the loop ends

  /** The 16-bit loop offset after `n` turns. */
  function OffsetAfter(n: nat): nat {
    if n == 0 then 0 else (OffsetAfter(n - 1) + 4) % U16
  }

  lemma {:induction false} OffsetBeforeWrap(n: nat)
    requires 4 * n < U16
    ensures OffsetAfter(n) == 4 * n
    decreases n
  {
    if n > 0 { OffsetBeforeWrap(n - 1); }
  }

  lemma {:induction false} OffsetWraps(n: nat)
    ensures OffsetAfter(n) <= U16 - 4 && OffsetAfter(n) % 4 == 0
    decreases n
  {
    if n > 0 { OffsetWraps(n - 1); }
  }

  /** The loop guard fails, or the turn is the one with the trailing half-word. */
  predicate LeavesAfter(size: nat, n: nat) {
    OffsetAfter(n) >= size || size - OffsetAfter(n) == 2
  }

  lemma StaysForEver(n: nat)
    ensures !LeavesAfter(LARGEST, n)
  {
    OffsetWraps(n);
  }

  lemma LeavesAt(size: nat) returns (n: nat)
    requires size % 2 == 0 && size <= U16 - 2
    ensures LeavesAfter(size, n)
  {
    n := size / 4;
    OffsetBeforeWrap(n);
  }

  /** Of the sizes that pass validation, the largest one is the only one whose loop never ends while its
      turns succeed: the 16-bit offset wraps before it reaches the end of the image. */
  lemma EndsExactly(d: Bytes)
    requires SizesOk(d)
    ensures (exists n :: LeavesAfter(|d|, n)) <==> |d| != LARGEST
  {
    if |d| == LARGEST {
      forall n ensures !LeavesAfter(|d|, n) { StaysForEver(n); }
    } else {
      BelowLargest(|d|);
      var n := LeavesAt(|d|);
      assert LeavesAfter(|d|, n);
    }
  }

  /** Such an image can be received. */
  lemma EndlessImageExists() returns (d: Bytes)
    ensures Accepted(d) && forall n :: !LeavesAfter(|d|, n)
  {
    d := AcceptedExists(Zeros(LARGEST - 8));
    EndsExactly(d);
  }
}
