/**
 Validation of an EEPROM image: header, sizes, and a 32-bit CRC over the bytes from offset 2 up to
 the stored CRC, taken as little-endian words with a trailing half-word when the length asks for it.
 */
module EepromCrc {
  import opened Bits
  import opened BitXor

  type byte = b: nat | b < 256

  type Bytes = seq<byte>

  const POLY: nat := 0xDB71_0641
  const TOP: nat := 0x8000_0000
  const SIGNATURE: nat := 0x5A
  const START: nat := 2
  const ALL_ONES: nat := 0xFFFF_FFFF

  // ---------------------------------------------------------------- reading an image

  function Half(d: Bytes, off: nat): (w: nat)
    requires off + 2 <= |d|
    ensures w < 0x1_0000
  {
    d[off] as nat + 0x100 * (d[off + 1] as nat)
  }

  function Word(d: Bytes, off: nat): (w: nat)
    requires off + 4 <= |d|
    ensures w < U32
  {
    Half(d, off) + 0x1_0000 * Half(d, off + 2)
  }

  /** Even lengths with room for header and CRC: the CRC loop meets whole words and half-words only. */
  predicate ValidLength(n: nat) {
    n >= 8 && n % 2 == 0
  }

  /** Word `k` of the CRC loop: four bytes, or the two bytes left before the stored CRC. */
  function ReadAt(d: Bytes, k: nat): (w: nat)
    requires ValidLength(|d|) && START + 4 * k + 4 < |d|
    ensures w < U32
  {
    var off := START + 4 * k;
    if |d| - 4 - off == 2 then Half(d, off) else Word(d, off)
  }

  /** All words that the CRC loop reads from word `k` on. */
  function WordsFrom(d: Bytes, k: nat): (ws: seq<nat>)
    requires ValidLength(|d|)
    ensures forall i :: 0 <= i < |ws| ==> ws[i] < U32
    decreases |d| - 4 * k
  {
    if START + 4 * k + 4 >= |d| then [] else [ReadAt(d, k)] + WordsFrom(d, k + 1)
  }

  function StoredCrc(d: Bytes): nat
    requires |d| >= 4
  {
    Word(d, |d| - 4)
  }

  // ---------------------------------------------------------------- the CRC

  /** One step of the inner loop on (crc xor word), in 32 bits. */
  function Shift(s: nat): nat {
    Xor(2 * s % U32, if s >= TOP then POLY else 0)
  }

  function Shifts(n: nat, s: nat): nat {
    if n == 0 then s else Shift(Shifts(n - 1, s))
  }

  function Crc(c: nat, ws: seq<nat>): nat
    decreases |ws|
  {
    if ws == [] then c else Crc(Shifts(32, Xor(c, ws[0])), ws[1..])
  }

  /** Because the constant is odd, the lowest bit of the result tells whether it was added. */
  function Unshift(t: nat): nat {
    if t % 2 == 1 then Xor(t, POLY) / 2 + TOP else t / 2
  }

  lemma Pow2Is32()
    ensures Pow2(32) == U32
  {
    assert Pow2(8) == 0x100;
    Pow2Add(8, 8);
    Pow2Add(16, 16);
  }

  lemma XorFits(a: nat, b: nat)
    requires a < U32 && b < U32
    ensures Xor(a, b) < U32
  {
    Pow2Is32();
    XorBound(a, b, 32);
  }

  lemma UnshiftShift(s: nat)
    requires s < U32
    ensures Shift(s) < U32 && Unshift(Shift(s)) == s
  {
    var e := 2 * s % U32;
    XorFits(e, if s >= TOP then POLY else 0);
    if s >= TOP {
      XorParts(e, POLY);
      XorCancel(e, POLY);
    } else {
      XorComm(e, 0);
    }
  }

  lemma ShiftUnshift(t: nat)
    requires t < U32
    ensures Unshift(t) < U32 && Shift(Unshift(t)) == t
  {
    if t % 2 == 1 {
      var e := Xor(t, POLY);
      XorFits(t, POLY);
      XorParts(t, POLY);
      XorCancel(t, POLY);
      TopComesBack(e);
    } else {
      XorComm(t, 0);
    }
  }

  lemma TopComesBack(e: nat)
    requires e < U32 && e % 2 == 0
    ensures 2 * (e / 2 + TOP) % U32 == e && TOP <= e / 2 + TOP < U32
  {
  }

  lemma {:induction false} ShiftsInjective(n: nat, a: nat, b: nat)
    requires a < U32 && b < U32
    ensures Shifts(n, a) < U32 && Shifts(n, b) < U32
    ensures Shifts(n, a) == Shifts(n, b) ==> a == b
    decreases n
  {
    if n > 0 {
      ShiftsInjective(n - 1, a, b);
      UnshiftShift(Shifts(n - 1, a));
      UnshiftShift(Shifts(n - 1, b));
    }
  }

  lemma XorInjective(a: nat, b: nat, w: nat)
    requires Xor(a, w) == Xor(b, w)
    ensures a == b
  {
    XorCancel(a, w);
    XorCancel(b, w);
  }

  /** A word is absorbed without loss: from two different (crc, word) pairs that agree on one side,
      the 32 steps lead to different values. */
  lemma AbsorbKeepsApart(c: nat, w: nat, e: nat, v: nat)
    requires c < U32 && w < U32 && e < U32 && v < U32
    requires (c == e && w != v) || (c != e && w == v)
    ensures Shifts(32, Xor(c, w)) != Shifts(32, Xor(e, v))
    ensures Shifts(32, Xor(c, w)) < U32 && Shifts(32, Xor(e, v)) < U32
  {
    XorFits(c, w);
    XorFits(e, v);
    ShiftsInjective(32, Xor(c, w), Xor(e, v));
    if Xor(c, w) == Xor(e, v) {
      XorComm(c, w);
      XorComm(e, v);
      if w == v { XorInjective(c, e, w); } else { XorInjective(w, v, c); }
    }
  }

  ghost predicate Words32(ws: seq<nat>) {
    forall i :: 0 <= i < |ws| ==> ws[i] < U32
  }

  /** Different running values stay different through the same words. */
  lemma {:induction false} CrcKeepsApart(c: nat, e: nat, ws: seq<nat>)
    requires c != e && c < U32 && e < U32 && Words32(ws)
    ensures Crc(c, ws) != Crc(e, ws)
    decreases |ws|
  {
    if ws != [] {
      AbsorbKeepsApart(c, ws[0], e, ws[0]);
      CrcKeepsApart(Shifts(32, Xor(c, ws[0])), Shifts(32, Xor(e, ws[0])), ws[1..]);
    }
  }

  /** Two word sequences that differ in exactly one place have different CRCs. */
  lemma {:induction false} CrcSeesOneWord(c: nat, ws: seq<nat>, vs: seq<nat>, k: nat)
    requires c < U32 && Words32(ws) && Words32(vs)
    requires |ws| == |vs| && k < |ws| && ws[k] != vs[k]
    requires forall i :: 0 <= i < |ws| && i != k ==> ws[i] == vs[i]
    ensures Crc(c, ws) != Crc(c, vs)
    decreases k
  {
    if k == 0 {
      assert ws[1..] == vs[1..];
      AbsorbKeepsApart(c, ws[0], c, vs[0]);
      CrcKeepsApart(Shifts(32, Xor(c, ws[0])), Shifts(32, Xor(c, vs[0])), ws[1..]);
    } else {
      XorFits(c, ws[0]);
      ShiftsInjective(32, Xor(c, ws[0]), 0);
      CrcSeesOneWord(Shifts(32, Xor(c, ws[0])), ws[1..], vs[1..], k - 1);
    }
  }

  lemma ShiftLow(s: nat)
    requires s < TOP
    ensures Shift(s) == 2 * s
  {
    XorComm(2 * s, 0);
  }

  /** Before its top bit gets there, a single bit only moves up. */
  lemma {:induction false} BitMovesUp(k: nat, bit: nat)
    requires k < 32 && bit == 1
    ensures Shifts(k, bit) == Pow2(k) <= TOP
    decreases k
  {
    TopIs();
    Pow2Monotone(k, 31);
    if k > 0 {
      BitMovesUp(k - 1, bit);
      ShiftLow(Pow2(k - 1));
    }
  }

  lemma TopIs()
    ensures Pow2(31) == TOP
  {
    Pow2Is32();
  }

  lemma {:induction false} ZeroStays(n: nat, zero: nat)
    requires zero == 0
    ensures Shifts(n, zero) == 0
    decreases n
  {
    if n > 0 {
      ZeroStays(n - 1, zero);
      ShiftLow(zero);
    }
  }

  lemma LowBit(x: nat, y: nat)
    requires x % 2 == 1 && (y == x || y == x - 1)
    ensures Xor(x, y) == x - y
  {
    XorUnfold(x, y);
    XorSelf(x / 2);
  }

  lemma ShiftTop(s: nat)
    requires s == TOP
    ensures Shift(s) == POLY
  {
    assert 2 * s % U32 == 0;
  }

  lemma BitShiftedOut(n: nat, bit: nat)
    requires n == 32 && bit == 1
    ensures Shifts(n, bit) == POLY
  {
    BitMovesUp(n - 1, bit);
    TopIs();
    ShiftTop(Shifts(n - 1, bit));
  }

  lemma OneWord(c: nat, w: nat)
    ensures Crc(c, [w]) == Shifts(32, Xor(c, w))
  {
    assert [w][1..] == [];
  }

  /** Known values: a word of ones meets the start value and leaves 0; with its lowest bit flipped, the bit
      is shifted out once and leaves the polynomial. */
  lemma KnownCrcs(start: nat, w: nat)
    requires start == 0xFFFF_FFFF && (w == start || w == start - 1)
    ensures Crc(start, [w]) == if w == start then 0 else 0xDB71_0641
  {
    LowBit(start, w);
    OneWord(start, w);
    if w == start { ZeroStays(32, Xor(start, w)); } else { BitShiftedOut(32, Xor(start, w)); }
  }

  // ---------------------------------------------------------------- acceptance

  function ConfigSize(d: Bytes): nat
    requires |d| >= 4
  {
    d[2] as nat + 256 * (d[3] as nat)
  }

  predicate CrcOk(d: Bytes)
    requires ValidLength(|d|)
  {
    Crc(ALL_ONES, WordsFrom(d, 0)) == StoredCrc(d)
  }

  predicate SizesOk(d: Bytes): (ok: bool)
    ensures ok ==> ValidLength(|d|) && |d| % 6 == 2 && |d| <= 65540
  {
    |d| > 8 && ConfigSize(d) % 6 == 0 && |d| - 8 == ConfigSize(d)
  }

  /** eeprom_validate */
  predicate Accepted(d: Bytes): (ok: bool)
    ensures ok ==> SizesOk(d)
  {
    SizesOk(d) && d[0] == SIGNATURE && CrcOk(d)
  }

  /** The header of an accepted image, byte by byte: the signature, and the size of the configuration with
      its low byte first. */
  lemma AcceptedHeader(d: Bytes)
    ensures Accepted(d) <==>
      && |d| > 8 && |d| % 2 == 0 && (|d| - 8) % 6 == 0 && d[0] == 0x5A
      && d[2] == (|d| - 8) % 256 && d[3] == (|d| - 8) / 256 && CrcOk(d)
  {
    if |d| > 8 { SizeBytes(d[2], d[3], |d| - 8); }
  }

  lemma SizeBytes(lo: byte, hi: byte, n: nat)
    ensures lo + 256 * hi == n <==> lo == n % 256 && hi == n / 256
  {
  }

  lemma CrcStep(c: nat, d: Bytes, k: nat)
    requires ValidLength(|d|) && START + 4 * k + 4 < |d|
    ensures Crc(c, WordsFrom(d, k)) == Crc(Shifts(32, Xor(c, ReadAt(d, k))), WordsFrom(d, k + 1))
  {
    assert WordsFrom(d, k)[1..] == WordsFrom(d, k + 1);
  }

  /** eeprom_check_crc */
  method CheckCrc(d: Bytes) returns (ok: bool)
    requires ValidLength(|d|)
    ensures ok == CrcOk(d)
  {
    var crc: nat := ALL_ONES;
    var off: nat := START;
    ghost var k: nat := 0;
    while off + 4 < |d|
      invariant off == START + 4 * k && crc < U32
      invariant Crc(crc, WordsFrom(d, k)) == Crc(ALL_ONES, WordsFrom(d, 0))
      decreases |d| - off
    {
      CrcStep(crc, d, k);
      var next := if |d| - 4 - off == 2 then Half(d, off) else Word(d, off);
      crc := Absorb(crc, next);
      off, k := off + 4, k + 1;
    }
    ok := crc == Word(d, |d| - 4);
  }

  /** The inner loop; `shifted` is the word moved left by `i` in 32 bits. */
  method Absorb(crc0: nat, next: nat) returns (crc: nat)
    requires crc0 < U32 && next < U32
    ensures crc == Shifts(32, Xor(crc0, next)) < U32
  {
    crc := crc0;
    var shifted, i := next, 0;
    while i < 32
      invariant 0 <= i <= 32 && crc < U32 && shifted < U32
      invariant shifted == Left(next, i)
      invariant Xor(crc, shifted) == Shifts(i, Xor(crc0, next))
    {
      ShiftPair(crc, shifted);
      if Xor(crc, shifted) >= TOP {
        crc := Xor(2 * crc % U32, POLY);
      } else {
        crc := 2 * crc % U32;
      }
      shifted := 2 * shifted % U32;
      i := i + 1;
    }
    LeftOut(next);
    XorComm(crc, 0);
  }

  function Left(w: nat, i: nat): nat {
    if i == 0 then w else 2 * Left(w, i - 1) % U32
  }

  lemma {:induction false} LeftIsProduct(w: nat, i: nat)
    requires w < U32
    ensures Left(w, i) == w * Pow2(i) % U32
    decreases i
  {
    if i > 0 {
      LeftIsProduct(w, i - 1);
      var y := w * Pow2(i - 1);
      assert w * Pow2(i) == 2 * y;
      DoubleMod(y);
    }
  }

  lemma DoubleMod(y: nat)
    ensures 2 * (y % U32) % U32 == 2 * y % U32
  {
  }

  lemma LeftOut(w: nat)
    requires w < U32
    ensures Left(w, 32) == 0
  {
    LeftIsProduct(w, 32);
    Pow2Is32();
    assert w * U32 % U32 == 0;
  }

  /** Shifting crc and word apart is shifting their XOR. */
  lemma ShiftPair(a: nat, b: nat)
    requires a < U32 && b < U32
    ensures
      var x := if Xor(a, b) >= TOP then POLY else 0;
      Xor(2 * a % U32, x) < U32 && Xor(Xor(2 * a % U32, x), 2 * b % U32) == Shift(Xor(a, b))
      && Xor(2 * a % U32, 0) == 2 * a % U32
  {
    var x := if Xor(a, b) >= TOP then POLY else 0;
    var p, q := 2 * a % U32, 2 * b % U32;
    XorFits(p, x);
    XorComm(p, 0);
    XorDoubleMod(a, b);
    XorAssoc(p, x, q);
    XorComm(x, q);
    XorAssoc(p, q, x);
  }

  lemma XorDoubleMod(a: nat, b: nat)
    ensures Xor(2 * a % U32, 2 * b % U32) == 2 * Xor(a, b) % U32
  {
    Pow2Is32();
    XorMod(2 * a, 2 * b, 32);
    XorDouble(a, b);
  }

  /** eeprom_validate, check by check. */
  method Validate(d: Bytes) returns (ok: bool)
    ensures ok == Accepted(d)
  {
    if |d| <= 8 {
      return false;
    }
    if ConfigSize(d) % 6 != 0 {
      return false;
    }
    if |d| - 8 != ConfigSize(d) {
      return false;
    }
    if d[0] != SIGNATURE {
      return false;
    }
    ok := CheckCrc(d);
  }

  // ---------------------------------------------------------------- what acceptance detects

  /** The parts of an image: two header bytes outside the CRC, the words under it, and the CRC itself. */
  datatype Region = Signature | Flags | CrcWord(k: nat) | Stored

  predicate Covers(r: Region, n: nat, i: nat) {
    match r
    case Signature => i == 0
    case Flags => i == 1
    case CrcWord(k) => START + 4 * k <= i < START + 4 * k + 4 && i + 4 < n
    case Stored => n <= i + 4
  }

  ghost predicate DifferOnlyIn(d: Bytes, e: Bytes, r: Region) {
    |d| == |e| && d != e && forall i :: 0 <= i < |d| && d[i] != e[i] ==> Covers(r, |d|, i)
  }

  lemma HalfEqual(d: Bytes, e: Bytes, off: nat)
    requires |d| == |e| && off + 2 <= |d|
    ensures Half(d, off) == Half(e, off) <==> d[off] == e[off] && d[off + 1] == e[off + 1]
  {
  }

  lemma WordEqual(d: Bytes, e: Bytes, off: nat)
    requires |d| == |e| && off + 4 <= |d|
    ensures Word(d, off) == Word(e, off) <==>
      d[off] == e[off] && d[off + 1] == e[off + 1] && d[off + 2] == e[off + 2] && d[off + 3] == e[off + 3]
  {
    HalfEqual(d, e, off);
    HalfEqual(d, e, off + 2);
  }

  lemma ReadSame(d: Bytes, e: Bytes, k: nat)
    requires |d| == |e| && ValidLength(|d|) && START + 4 * k + 4 < |d|
    requires forall i :: 0 <= i < |d| && d[i] != e[i] ==> !Covers(CrcWord(k), |d|, i)
    ensures ReadAt(d, k) == ReadAt(e, k)
  {
    var off := START + 4 * k;
    assert d[off] == e[off] && d[off + 1] == e[off + 1];
    if |d| - 4 - off == 2 {
      HalfEqual(d, e, off);
    } else {
      assert d[off + 2] == e[off + 2] && d[off + 3] == e[off + 3];
      WordEqual(d, e, off);
    }
  }

  lemma ReadDiffers(d: Bytes, e: Bytes, k: nat, i: nat)
    requires |d| == |e| && ValidLength(|d|) && Covers(CrcWord(k), |d|, i) && i < |d| && d[i] != e[i]
    ensures START + 4 * k + 4 < |d| && ReadAt(d, k) != ReadAt(e, k)
  {
    var off := START + 4 * k;
    if |d| - 4 - off == 2 { HalfEqual(d, e, off); } else { WordEqual(d, e, off); }
  }

  /** The loop reads exactly the words in front of the stored CRC, in order. */
  lemma {:induction false} WordsAt(d: Bytes, k: nat, j: nat)
    requires ValidLength(|d|) && k <= j
    ensures j - k < |WordsFrom(d, k)| <==> START + 4 * j + 4 < |d|
    ensures START + 4 * j + 4 < |d| ==> WordsFrom(d, k)[j - k] == ReadAt(d, j)
    ensures 4 * j + 8 == |d| ==> ReadAt(d, j) == d[4 * j + 2] as nat + 0x100 * d[4 * j + 3] as nat
    ensures 4 * j + 8 < |d| ==> ReadAt(d, j) == d[4 * j + 2] as nat + 0x100 * d[4 * j + 3] as nat +
                                                0x1_0000 * d[4 * j + 4] as nat + 0x100_0000 * d[4 * j + 5] as nat
    decreases j - k
  {
    if k < j { WordsAt(d, k + 1, j); }
  }

  lemma {:induction false} WordsSameLength(d: Bytes, e: Bytes, k: nat)
    requires ValidLength(|d|) && |d| == |e|
    ensures |WordsFrom(d, k)| == |WordsFrom(e, k)|
    decreases |d| - 4 * k
  {
    if START + 4 * k + 4 < |d| { WordsSameLength(d, e, k + 1); }
  }

  /** Damage in one region leaves all words outside it as they are. */
  lemma OtherWordsSame(d: Bytes, e: Bytes, r: Region, j: nat)
    requires ValidLength(|d|) && DifferOnlyIn(d, e, r) && j < |WordsFrom(d, 0)| == |WordsFrom(e, 0)| && r != CrcWord(j)
    ensures WordsFrom(d, 0)[j] == WordsFrom(e, 0)[j]
  {
    WordsAt(d, 0, j);
    WordsAt(e, 0, j);
    ReadSame(d, e, j);
  }

  /** Images that differ in one word under the CRC have different CRCs. */
  lemma OneWordChangesCrc(d: Bytes, e: Bytes, k: nat)
    requires ValidLength(|d|) && DifferOnlyIn(d, e, CrcWord(k))
    ensures Crc(ALL_ONES, WordsFrom(d, 0)) != Crc(ALL_ONES, WordsFrom(e, 0))
  {
    var i :| 0 <= i < |d| && d[i] != e[i];
    ReadDiffers(d, e, k, i);
    WordsSameLength(d, e, 0);
    WordsAt(d, 0, k);
    WordsAt(e, 0, k);
    var ws, vs := WordsFrom(d, 0), WordsFrom(e, 0);
    forall j | 0 <= j < |ws| && j != k ensures ws[j] == vs[j] {
      OtherWordsSame(d, e, CrcWord(k), j);
    }
    CrcSeesOneWord(ALL_ONES, ws, vs, k);
  }

  /** Changes outside the words under the CRC leave the computed CRC alone. */
  lemma OtherBytesKeepCrc(d: Bytes, e: Bytes, r: Region)
    requires ValidLength(|d|) && DifferOnlyIn(d, e, r) && !r.CrcWord?
    ensures WordsFrom(d, 0) == WordsFrom(e, 0)
  {
    WordsSameLength(d, e, 0);
    var ws, vs := WordsFrom(d, 0), WordsFrom(e, 0);
    forall j | 0 <= j < |ws| ensures ws[j] == vs[j] {
      OtherWordsSame(d, e, r, j);
    }
  }

  lemma StoredVerdict(d: Bytes, e: Bytes, r: Region)
    requires ValidLength(|d|) && DifferOnlyIn(d, e, r)
    ensures StoredCrc(d) == StoredCrc(e) <==> !r.Stored?
  {
    var off := |d| - 4;
    WordEqual(d, e, off);
    if r.Stored? {
      var i :| 0 <= i < |d| && d[i] != e[i];
      assert off <= i < off + 4;
    }
  }

  lemma CrcVerdict(d: Bytes, e: Bytes, r: Region)
    requires ValidLength(|d|) && CrcOk(d) && DifferOnlyIn(d, e, r)
    ensures CrcOk(e) <==> r.Flags? || r.Signature?
  {
    StoredVerdict(d, e, r);
    if r.CrcWord? {
      OneWordChangesCrc(d, e, r.k);
    } else {
      OtherBytesKeepCrc(d, e, r);
    }
  }

  /** An accepted image damaged inside one region is still accepted exactly when only its flags byte,
      which no check looks at, was touched. */
  lemma DamageIsDetected(d: Bytes, e: Bytes, r: Region)
    requires Accepted(d) && DifferOnlyIn(d, e, r)
    ensures Accepted(e) <==> r.Flags?
  {
    CrcVerdict(d, e, r);
    if r.Flags? {
      assert ConfigSize(d) == ConfigSize(e) && d[0] == e[0];
    } else if r.Signature? {
      var i :| 0 <= i < |d| && d[i] != e[i];
      assert i == 0;
    }
  }

  // ---------------------------------------------------------------- completing an image

  /** A word as four little-endian bytes. */
  function WordBytes(c: nat): (b: Bytes)
    requires c < U32
    ensures |b| == 4 && Word(b, 0) == c
  {
    var lo, hi := c % U16, c / U16;
    [lo % 256, lo / 256, hi % 256, hi / 256]
  }

  lemma {:induction false} CrcFits(c: nat, ws: seq<nat>)
    requires c < U32 && Words32(ws)
    ensures Crc(c, ws) < U32
    decreases |ws|
  {
    if ws != [] {
      XorFits(c, ws[0]);
      ShiftsInjective(32, Xor(c, ws[0]), 0);
      CrcFits(Shifts(32, Xor(c, ws[0])), ws[1..]);
    }
  }

  /** The image with its CRC stored. */
  function Seal(d: Bytes): (e: Bytes)
    requires ValidLength(|d|)
    ensures |e| == |d| && e[..|d| - 4] == d[..|d| - 4]
  {
    CrcFits(ALL_ONES, WordsFrom(d, 0));
    d[..|d| - 4] + WordBytes(Crc(ALL_ONES, WordsFrom(d, 0)))
  }

  lemma WordOfTail(d: Bytes, b: Bytes)
    requires |b| == 4
    ensures Word(d + b, |d|) == Word(b, 0)
  {
  }

  lemma SameBody(d: Bytes, e: Bytes)
    requires |e| == |d| >= 4 && e[..|d| - 4] == d[..|d| - 4]
    ensures forall i :: 0 <= i < |d| - 4 ==> d[i] == e[i]
  {
    var n := |d| - 4;
    forall i | 0 <= i < n ensures d[i] == e[i] { assert d[i] == d[..n][i]; }
  }

  /** Images that agree in front of the stored CRC have the same computed CRC. */
  lemma SameBodySameCrc(d: Bytes, e: Bytes)
    requires ValidLength(|d|) && |e| == |d| && e[..|d| - 4] == d[..|d| - 4]
    ensures WordsFrom(d, 0) == WordsFrom(e, 0)
  {
    SameBody(d, e);
    if d != e { OtherBytesKeepCrc(d, e, Stored); }
  }

  lemma SealStores(d: Bytes)
    requires ValidLength(|d|)
    ensures StoredCrc(Seal(d)) == Crc(ALL_ONES, WordsFrom(d, 0))
  {
    CrcFits(ALL_ONES, WordsFrom(d, 0));
    WordOfTail(d[..|d| - 4], WordBytes(Crc(ALL_ONES, WordsFrom(d, 0))));
  }

  /** The CRC is stored in the last four bytes, low byte first. */
  lemma StoredLowFirst(d: Bytes)
    requires ValidLength(|d|)
    ensures var c, n := Crc(0xFFFF_FFFF, WordsFrom(d, 0)), |d|;
            CrcOk(d) <==> d[n - 4] == c % 256 && d[n - 3] == c / 256 % 256 &&
                          d[n - 2] == c / 0x1_0000 % 256 && d[n - 1] == c / 0x100_0000
  {
    CrcFits(ALL_ONES, WordsFrom(d, 0));
    FourBytes(Crc(ALL_ONES, WordsFrom(d, 0)), d[|d| - 4], d[|d| - 3], d[|d| - 2], d[|d| - 1]);
  }

  lemma FourBytes(c: nat, b0: byte, b1: byte, b2: byte, b3: byte)
    requires c < U32
    ensures c == b0 + 0x100 * b1 + 0x1_0000 * (b2 + 0x100 * b3) <==>
            b0 == c % 256 && b1 == c / 256 % 256 && b2 == c / 0x1_0000 % 256 && b3 == c / 0x100_0000
  {
  }

  /** Exactly one stored CRC completes an image. */
  lemma SealExactly(d: Bytes, e: Bytes)
    requires ValidLength(|d|) && |e| == |d| && e[..|d| - 4] == d[..|d| - 4]
    ensures CrcOk(e) <==> e == Seal(d)
  {
    SameBodySameCrc(d, e);
    SealStores(d);
    StoredDecides(e, Seal(d));
  }

  lemma StoredDecides(e: Bytes, t: Bytes)
    requires ValidLength(|e|) && |t| == |e| && t[..|e| - 4] == e[..|e| - 4]
    ensures StoredCrc(e) == StoredCrc(t) <==> e == t
  {
    SameBody(e, t);
    WordEqual(e, t, |e| - 4);
    if StoredCrc(e) == StoredCrc(t) { assert forall i :: 0 <= i < |e| ==> e[i] == t[i]; }
  }

  /** Every size that is 2 modulo 6, from 14 to 65540, has accepted images: a header, any
      configuration, and its CRC. */
  lemma AcceptedExists(config: Bytes) returns (d: Bytes)
    requires 0 < |config| < U16 && |config| % 6 == 0
    ensures |d| == |config| + 8 && Accepted(d) && d[4..|d| - 4] == config
    ensures d[..4] == [0x5A, 0, |config| % 256, |config| / 256]
  {
    var n := |config|;
    var header: Bytes := [0x5A, 0, n % 256, n / 256];
    var raw := header + config + [0, 0, 0, 0];
    d := Seal(raw);
    SealExactly(raw, d);
    SameParts(d, header, config);
    AcceptedHeader(d);
  }

  lemma SameParts(d: Bytes, header: Bytes, config: Bytes)
    requires |header| == 4 && |d| == |config| + 8 && d[..|config| + 4] == header + config
    ensures d[..4] == header && d[4..|d| - 4] == config
    ensures d[0] == header[0] && d[1] == header[1] && d[2] == header[2] && d[3] == header[3]
  {
    var body := d[..|config| + 4];
    assert body[..4] == header && body[4..] == config;
    assert d[..4] == body[..4] && d[4..|d| - 4] == body[4..];
    assert d[0] == d[..4][0] && d[1] == d[..4][1] && d[2] == d[..4][2] && d[3] == d[..4][3];
  }

  /** The unprotected byte is a real gap: every accepted image has a different accepted twin. */
  lemma FlagsCanChange(d: Bytes) returns (e: Bytes)
    requires Accepted(d)
    ensures DifferOnlyIn(d, e, Flags) && Accepted(e)
  {
    var b: byte := if d[1] == 0 then 1 else 0;
    e := d[1 := b];
    assert d[1] != e[1];
    DamageIsDetected(d, e, Flags);
  }
}
