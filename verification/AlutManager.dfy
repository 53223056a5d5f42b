/**
 The A-LUT manager: a first-fit allocator of consecutive address-translation segments
 with reference counts, reuse of a group that already covers the requested range, and
 lazy release (a group whose counter is 1 is cached but unused).
 */
module AlutManager {
  import opened Bits

  /** `counter`, `count` and `start` are 16 bits wide, `value` 64. */
  datatype Entry = Entry(value: nat, counter: nat, count: nat, start: nat)

  const EMPTY: Entry := Entry(0, 0, 0, 0)

  datatype Status = Ok | Exists | NoMemory

  // ---------------------------------------------------------------- well-formedness

  /** Segment `j` belongs to the group whose first segment is `h`. */
  ghost predicate Covers(e: seq<Entry>, h: int, j: int) {
    0 <= h <= j < |e| && e[h].counter > 0 && j < h + e[h].count
  }

  ghost predicate Free(e: seq<Entry>, j: int)
    requires 0 <= j < |e|
  {
    !Covers(e, e[j].start, j)
  }

  ghost predicate HeadOk(e: seq<Entry>, h: int)
    requires 0 <= h < |e|
  {
    e[h].counter > 0 ==> 1 <= e[h].count && h + e[h].count <= |e|
  }

  ghost predicate MemberOk(e: seq<Entry>, h: int, j: int)
    requires 0 <= j < |e|
  {
    e[j].start == h && (j != h ==> e[j].counter == 0 && e[j].count == 0)
  }

  /** Groups lie inside the table, are disjoint, and every other entry is blank. */
  ghost predicate WellFormed(e: seq<Entry>) {
    && (forall h :: 0 <= h < |e| ==> HeadOk(e, h))
    && (forall h, j :: Covers(e, h, j) ==> MemberOk(e, h, j))
    && (forall j :: 0 <= j < |e| && Free(e, j) ==> e[j] == EMPTY)
  }

  /** What `Free` means: no group covers the segment. */
  lemma FreeMeansUncovered(e: seq<Entry>, j: int)
    requires WellFormed(e) && 0 <= j < |e|
    ensures Free(e, j) <==> forall h :: !Covers(e, h, j)
  {
    if !Free(e, j) { assert Covers(e, e[j].start, j); }
  }

  /** In a well-formed table only the first segment of a group has a nonzero counter. */
  lemma CounterMarksHead(e: seq<Entry>, j: int)
    requires WellFormed(e) && 0 <= j < |e|
    ensures e[j].counter > 0 ==> Covers(e, j, j) && e[j].start == j && !Free(e, j)
    ensures e[j].counter == 0 && Free(e, j) ==> e[j] == EMPTY
  {
    assert HeadOk(e, j);
    if e[j].counter > 0 { assert Covers(e, j, j); assert MemberOk(e, j, j); }
  }

  ghost predicate FreeRun(e: seq<Entry>, k: int, n: nat) {
    0 <= k && k + n <= |e| && forall j :: k <= j < k + n ==> Free(e, j)
  }

  // ---------------------------------------------------------------- specification

  ghost predicate Geometry(n: nat, size: nat) {
    2 <= n <= 256 && IsPow2(size) && n * size <= U64 / 2
  }

  function Base(size: nat, addr: nat): nat
    requires size > 0
  {
    addr - addr % size
  }

  /** Number of segments that the bytes [addr, addr + len) touch. */
  function Segments(size: nat, addr: nat, len: nat): nat
    requires size > 0
  {
    (addr % size + len + size - 1) / size
  }

  /** The group at `h` already translates `segs` segments from `base` on. */
  predicate Embeds(e: seq<Entry>, size: nat, h: nat, base: nat, segs: nat)
    requires h < |e| && size > 0
  {
    && e[h].counter > 0
    && base >= e[h].value
    && (base - e[h].value) / size < |e|
    && (base - e[h].value) / size + segs <= e[h].count
  }

  ghost function FirstGroup(e: seq<Entry>, size: nat, base: nat, segs: nat, i: nat): (r: nat)
    requires i <= |e| && size > 0
    ensures i <= r <= |e|
    ensures r < |e| ==> Embeds(e, size, r, base, segs)
    ensures forall h :: i <= h < r ==> !Embeds(e, size, h, base, segs)
    decreases |e| - i
  {
    if i == |e| || Embeds(e, size, i, base, segs) then i else FirstGroup(e, size, base, segs, i + 1)
  }

  ghost function FirstRun(e: seq<Entry>, segs: nat, i: nat): (r: nat)
    requires i <= |e|
    ensures i <= r <= |e|
    ensures r < |e| ==> FreeRun(e, r, segs)
    ensures forall k :: i <= k < r ==> !FreeRun(e, k, segs)
    decreases |e| - i
  {
    if i == |e| || FreeRun(e, i, segs) then i else FirstRun(e, segs, i + 1)
  }

  /** Drop every group whose counter is 1. */
  ghost function Reclaimed(e: seq<Entry>): (r: seq<Entry>)
    ensures |r| == |e|
  {
    ReclaimedBelow(e, |e|)
  }

  ghost predicate HasUnused(e: seq<Entry>) {
    UnusedBelow(e, |e|)
  }

  ghost predicate UnusedBelow(e: seq<Entry>, n: nat) {
    exists j :: 0 <= j < |e| && j < n && e[j].counter == 1
  }

  /** The heads of the unused groups among the first `n` entries. */
  ghost function UnusedHeads(e: seq<Entry>, n: nat): set<nat> {
    set j: nat | j < |e| && j < n && e[j].counter == 1
  }

  ghost predicate Unused(e: seq<Entry>, j: int)
    requires 0 <= j < |e|
  {
    Covers(e, e[j].start, j) && e[e[j].start].counter == 1
  }

  ghost function ReclaimedBelow(e: seq<Entry>, n: nat): (r: seq<Entry>)
    ensures |r| == |e|
    ensures forall j :: 0 <= j < |e| ==> r[j] == if Unused(e, j) && e[j].start < n then EMPTY else e[j]
  {
    seq(|e|, j requires 0 <= j < |e| => if Unused(e, j) && e[j].start < n then EMPTY else e[j])
  }

  /** Make `segs` free segments at `k` one group with a single user. */
  ghost function Placed(e: seq<Entry>, k: nat, segs: nat, base: nat): (r: seq<Entry>)
    requires k + segs <= |e|
    ensures |r| == |e|
    ensures forall j :: 0 <= j < |e| ==>
              r[j] == if j == k && segs > 0 then Entry(base, 2, segs, k)
                      else if k <= j < k + segs then e[j].(start := k) else e[j]
  {
    seq(|e|, j requires 0 <= j < |e| =>
      if j == k && segs > 0 then Entry(base, 2, segs, k)
      else if k <= j < k + segs then e[j].(start := k) else e[j])
  }

  datatype AddResult = AddResult(entries: seq<Entry>, rc: Status, id: nat, num: nat)

  ghost function PlaceFirst(e: seq<Entry>, segs: nat, base: nat): AddResult {
    var k := FirstRun(e, segs, 0);
    if k < |e| then AddResult(Placed(e, k, segs, base), Ok, k, segs)
    else AddResult(e, NoMemory, 0, 0)
  }

  /** What a request does: reuse, else first fit, else first fit after dropping unused groups. */
  ghost function AddSpec(e: seq<Entry>, size: nat, addr: nat, len: nat): AddResult
    requires size > 0
  {
    var base, segs := Base(size, addr), Segments(size, addr, len);
    var h := FirstGroup(e, size, base, segs, 0);
    if len == 0 || len > size * |e| then
      AddResult(e, NoMemory, 0, 0)
    else if h < |e| then
      AddResult(e[h := e[h].(counter := (e[h].counter + 1) % U16)], Exists,
                h + (base - e[h].value) / size, segs)
    else if FirstRun(e, segs, 0) < |e| then
      PlaceFirst(e, segs, base)
    else
      PlaceFirst(Reclaimed(e), segs, base)
  }

  ghost function Cleared(e: seq<Entry>, h: nat, n: nat): (r: seq<Entry>)
    requires h + n <= |e|
    ensures |r| == |e|
    ensures forall j :: 0 <= j < |e| ==> r[j] == if h <= j < h + n then EMPTY else e[j]
  {
    seq(|e|, j requires 0 <= j < |e| => if h <= j < h + n then EMPTY else e[j])
  }

  ghost predicate Deletable(e: seq<Entry>, seg: nat) {
    && seg < |e|
    && e[seg].start < |e|
    && e[e[seg].start].counter > 0
    && 0 < e[e[seg].start].count
    && e[seg].start + e[e[seg].start].count <= |e|
  }

  ghost function DelSpec(e: seq<Entry>, seg: nat): seq<Entry>
    requires Deletable(e, seg)
  {
    var h := e[seg].start;
    if e[h].counter == 1 then Cleared(e, h, e[h].count) else e[h := e[h].(counter := e[h].counter - 1)]
  }

  // ---------------------------------------------------------------- the scan

  /** No group starts before `i` and reaches `i`. */
  ghost predicate Boundary(e: seq<Entry>, i: int) {
    forall h :: i < |e| && Covers(e, h, i) ==> h == i
  }

  /** The `f` segments before `i` are free and the run does not extend further left. */
  ghost predicate ScanGap(e: seq<Entry>, i: int, f: int) {
    && 0 <= f <= i <= |e|
    && FreeRun(e, i - f, f)
    && (i - f == 0 || !Free(e, i - f - 1))
  }

  ghost predicate NoRunUpTo(e: seq<Entry>, segs: nat, i: int) {
    forall k {:trigger FreeRun(e, k, segs)} :: k + segs <= i ==> !FreeRun(e, k, segs)
  }

  /** What the scan knows at segment `i`: `m` is the run found so far or -1, `f` the current gap. */
  ghost predicate ScanInv(e: seq<Entry>, size: nat, base: nat, segs: nat, i: int, m: int, f: int) {
    && 0 <= i <= |e| && size > 0 && -1 <= m < |e|
    && Boundary(e, i)
    && (forall h :: 0 <= h < i ==> !Embeds(e, size, h, base, segs))
    && (m == -1 ==> f < segs && ScanGap(e, i, f) && NoRunUpTo(e, segs, i))
    && (m >= 0 ==> FreeRun(e, m, segs) && forall k :: 0 <= k < m ==> !FreeRun(e, k, segs))
  }

  lemma SkipFree(e: seq<Entry>, i: int)
    requires WellFormed(e) && 0 <= i < |e| && e[i].counter == 0 && Boundary(e, i)
    ensures Free(e, i) && Boundary(e, i + 1)
  {
    var i' := i + 1;
    forall h | i' < |e| && Covers(e, h, i')
      ensures h == i'
    {
      if h < i { assert Covers(e, h, i); }
    }
  }

  lemma ScanFree(e: seq<Entry>, size: nat, base: nat, segs: nat, i: int, m: int, f: int)
    requires WellFormed(e) && ScanInv(e, size, base, segs, i, m, f)
    requires i < |e| && e[i].counter == 0
    ensures m == -1 && f + 1 == segs ==> i - segs + 1 >= 0 && ScanInv(e, size, base, segs, i + 1, i - segs + 1, f + 1)
    ensures m == -1 && f + 1 != segs ==> ScanInv(e, size, base, segs, i + 1, -1, f + 1)
    ensures m >= 0 ==> ScanInv(e, size, base, segs, i + 1, m, f)
  {
    SkipFree(e, i);
  }

  lemma SkipGroup(e: seq<Entry>, i: int)
    requires WellFormed(e) && 0 <= i < |e| && e[i].counter > 0 && Boundary(e, i)
    ensures var n := e[i].count; 0 < n && i + n <= |e| && Boundary(e, i + n)
    ensures forall j :: i <= j < i + e[i].count ==> !Free(e, j) && (j != i ==> e[j].counter == 0)
  {
    var i' := i + e[i].count;
    assert HeadOk(e, i);
    forall j | i <= j < i'
      ensures !Free(e, j) && (j != i ==> e[j].counter == 0)
    {
      assert Covers(e, i, j);
      assert MemberOk(e, i, j);
    }
    assert forall h {:trigger e[h]} :: i < h < i' ==> e[h].counter == 0;
    forall h | i' < |e| && Covers(e, h, i')
      ensures h == i'
    {
      if h < i { assert Covers(e, h, i); }
    }
  }

  lemma ScanGroup(e: seq<Entry>, size: nat, base: nat, segs: nat, i: int, m: int, f: int)
    requires WellFormed(e) && ScanInv(e, size, base, segs, i, m, f) && segs > 0
    requires i < |e| && e[i].counter > 0 && !Embeds(e, size, i, base, segs)
    ensures e[i].count > 0 && ScanInv(e, size, base, segs, i + e[i].count, m, 0)
  {
    SkipGroup(e, i);
    var i' := i + e[i].count;
    if m == -1 {
      forall k | k + segs <= i' && FreeRun(e, k, segs)
        ensures k + segs <= i
      {
        assert Free(e, k + segs - 1);
      }
    }
  }

  lemma ScanHit(e: seq<Entry>, size: nat, base: nat, segs: nat, i: int, m: int, f: int)
    requires ScanInv(e, size, base, segs, i, m, f)
    requires i < |e| && Embeds(e, size, i, base, segs)
    ensures FirstGroup(e, size, base, segs, 0) == i
  {
  }

  lemma ScanEnd(e: seq<Entry>, size: nat, base: nat, segs: nat, m: int, f: int)
    requires ScanInv(e, size, base, segs, |e|, m, f)
    ensures FirstGroup(e, size, base, segs, 0) == |e|
    ensures FirstRun(e, segs, 0) == if m == -1 then |e| else m
  {
  }

  lemma ScanRoom(e: seq<Entry>, size: nat, base: nat, segs: nat)
    requires WellFormed(e) && size > 0 && segs > 0
    ensures var h := FirstGroup(e, size, base, segs, 0);
            h < |e| ==> e[h].counter > 0 && h + segs <= |e|
    ensures var k := FirstRun(e, segs, 0);
            k < |e| ==> FreeRun(e, k, segs) && e[k].counter == 0 && k + segs <= |e|
  {
    var h, k := FirstGroup(e, size, base, segs, 0), FirstRun(e, segs, 0);
    if h < |e| {
      assert HeadOk(e, h);
      QuotientIsNat(base - e[h].value, size);
    }
    if k < |e| { assert Free(e, k); }
  }

  // ---------------------------------------------------------------- arithmetic

  lemma ApertureGeometry(numNtbs: nat, aperLen: nat)
    requires numNtbs == 1 || numNtbs == 2
    requires IsPow2(aperLen) && 256 <= aperLen < U64
    ensures var n := 256 / numNtbs; Geometry(n, aperLen / n) && n * (aperLen / n) == aperLen
  {
    var k: nat :| aperLen == Pow2(k);
    ExponentRange(k);
    var j := if numNtbs == 1 then 8 else 7;
    assert Pow2(j) == 256 / numNtbs;
    PartGeometry(k, j);
  }

  lemma PartGeometry(k: nat, j: nat)
    requires 7 <= j <= 8 <= k && Pow2(k) <= U64 / 2
    ensures Geometry(Pow2(j), Pow2(k) / Pow2(j)) && Pow2(j) * (Pow2(k) / Pow2(j)) == Pow2(k)
  {
    ExactPart(k, j);
    assert Pow2(7) == 128 && Pow2(8) == 256;
  }

  lemma ExponentRange(k: nat)
    requires 256 <= Pow2(k) < U64
    ensures 8 <= k <= 63 && Pow2(k) <= U64 / 2
  {
    Pow2Is64();
    assert Pow2(7) == 128;
    if k < 8 { Pow2Monotone(k, 7); }
    if k > 63 { Pow2Monotone(64, k); }
    Pow2Monotone(k, 63);
  }

  lemma ExactPart(k: nat, j: nat)
    requires j <= k
    ensures Pow2(k) / Pow2(j) == Pow2(k - j) && Pow2(j) * (Pow2(k) / Pow2(j)) == Pow2(k)
  {
    Pow2Add(k - j, j);
    UniqueMod(Pow2(k), Pow2(j), Pow2(k - j), 0);
  }

  /** The 64-bit sum and the 32-bit cast lose nothing for a request that fits the aperture. */
  lemma SegmentsNoWrap(n: nat, size: nat, addr: nat, len: nat)
    requires Geometry(n, size) && 0 < len <= size * n
    ensures size > 0
    ensures (addr % size + len + size - 1) % U64 / size % U32 == Segments(size, addr, len)
    ensures 0 < Segments(size, addr, len) <= n + 1
  {
    var t, p := addr % size + len + size - 1, n * size;
    MulMonotone(2, n, size);
    Distribute(n, 2, size);
    assert size <= t < (n + 2) * size;
    DivBounds(t, size, 1, n + 2);
    NoWrap(t, U64);
    NoWrap(t / size, U32);
  }

  lemma QuotientIsNat(a: nat, d: nat)
    requires d > 0
    ensures a / d >= 0
  {
  }

  lemma NoWrap(x: nat, m: nat)
    requires x < m
    ensures x % m == x
  {
  }

  lemma Distribute(a: int, b: int, c: int)
    ensures (a + b) * c == a * c + b * c
  {
  }

  lemma SizeSmall(n: nat, size: nat)
    requires Geometry(n, size)
    ensures 0 < size <= U64
  {
    MulMonotone(1, n, size);
  }

  lemma MulMonotone(a: int, b: int, c: nat)
    requires a <= b
    ensures a * c <= b * c
  {
    assert b * c - a * c == (b - a) * c;
  }

  lemma DivBounds(t: nat, d: nat, lo: nat, hi: nat)
    requires d > 0 && lo * d <= t < hi * d
    ensures lo <= t / d < hi
  {
    var x := t / d;
    assert t == x * d + t % d;
    if x >= hi { MulMonotone(hi, x, d); }
    assert (x + 1) * d == x * d + d;
    if x < lo { MulMonotone(x + 1, lo, d); }
  }

  // ---------------------------------------------------------------- eviction

  lemma ReclaimStep(e: seq<Entry>, i: int)
    requires WellFormed(e) && 0 <= i < |e|
    ensures var r := ReclaimedBelow(e, i);
            && r[i].counter == e[i].counter
            && (e[i].counter == 1 ==> Deletable(r, i) && DelSpec(r, i) == ReclaimedBelow(e, i + 1))
            && (e[i].counter != 1 ==> r == ReclaimedBelow(e, i + 1))
            && (UnusedBelow(e, i + 1) <==> UnusedBelow(e, i) || e[i].counter == 1)
  {
    var r, r' := ReclaimedBelow(e, i), ReclaimedBelow(e, i + 1);
    CounterMarksHead(e, i);
    assert HeadOk(e, i);
    forall j | 0 <= j < |e| && Unused(e, j) && e[j].start == i
      ensures e[i].counter == 1 && i <= j < i + e[i].count
    {
    }
    forall j | 0 <= j < |e| && e[i].counter > 0 && i <= j < i + e[i].count
      ensures e[j].start == i
    {
      assert Covers(e, i, j);
      assert MemberOk(e, i, j);
    }
    if e[i].counter == 0 && Unused(e, i) && e[i].start < i {
      assert r[i] == EMPTY;
    }
    if e[i].counter == 1 {
      assert r[i] == e[i];
      assert DelSpec(r, i) == Cleared(r, i, e[i].count) == r';
    } else {
      assert r == r';
    }
  }

  lemma OneMoreHead(e: seq<Entry>, i: nat)
    requires i < |e|
    ensures |UnusedHeads(e, i + 1)| == |UnusedHeads(e, i)| + if e[i].counter == 1 then 1 else 0
  {
    if e[i].counter == 1 {
      assert UnusedHeads(e, i + 1) == UnusedHeads(e, i) + {i};
    } else {
      assert UnusedHeads(e, i + 1) == UnusedHeads(e, i);
    }
  }

  /** Eviction frees exactly the unused groups and keeps every group in use as it was. */
  lemma ReclaimFrees(e: seq<Entry>)
    requires WellFormed(e)
    ensures forall h, j :: Covers(Reclaimed(e), h, j) <==> Covers(e, h, j) && e[h].counter != 1
    ensures forall j :: 0 <= j < |e| ==> (Free(Reclaimed(e), j) <==> Free(e, j) || Unused(e, j))
  {
    var r := Reclaimed(e);
    forall h | 0 <= h < |e|
      ensures r[h] == (if e[h].counter == 1 then EMPTY else r[h])
      ensures e[h].counter > 1 ==> r[h] == e[h]
      ensures e[h].counter == 0 ==> r[h].counter == 0
    {
      CounterMarksHead(e, h);
    }
    forall h, j | Covers(e, h, j)
      ensures MemberOk(e, h, j) && r[j] == if e[h].counter == 1 then EMPTY else e[j]
    {
    }
    forall j | 0 <= j < |e|
      ensures Free(r, j) <==> Free(e, j) || Unused(e, j)
    {
      if Free(e, j) { assert r[j] == e[j] == EMPTY; }
    }
  }

  lemma ReclaimWellFormed(e: seq<Entry>)
    requires WellFormed(e)
    ensures WellFormed(Reclaimed(e)) && !HasUnused(Reclaimed(e))
    ensures !HasUnused(e) ==> Reclaimed(e) == e
  {
    var r := Reclaimed(e);
    ReclaimFrees(e);
    forall h | 0 <= h < |r|
      ensures HeadOk(r, h) && r[h].counter != 1
    {
      assert HeadOk(e, h);
      CounterMarksHead(e, h);
    }
    forall h, j | Covers(r, h, j)
      ensures MemberOk(r, h, j)
    {
      assert MemberOk(e, h, j);
    }
  }

  /** The retry after an eviction: what the nested call computes. */
  lemma SecondTry(e: seq<Entry>, size: nat, addr: nat, len: nat)
    requires WellFormed(e) && size > 0 && 0 < len <= size * |e|
    requires FirstGroup(e, size, Base(size, addr), Segments(size, addr, len), 0) == |e|
    requires FirstRun(e, Segments(size, addr, len), 0) == |e|
    ensures AddSpec(e, size, addr, len) ==
            if HasUnused(e) then AddSpec(Reclaimed(e), size, addr, len)
            else AddResult(Reclaimed(e), NoMemory, 0, 0)
  {
    var base, segs := Base(size, addr), Segments(size, addr, len);
    var r := Reclaimed(e);
    ReclaimWellFormed(e);
    ReclaimWellFormed(r);
    forall h | 0 <= h < |r|
      ensures !Embeds(r, size, h, base, segs)
    {
      assert !Embeds(e, size, h, base, segs);
    }
  }

  // ---------------------------------------------------------------- properties of a request

  lemma PlacedWellFormed(e: seq<Entry>, k: nat, n: nat, base: nat)
    requires WellFormed(e) && n > 0 && FreeRun(e, k, n)
    ensures WellFormed(Placed(e, k, n, base))
    ensures forall h, j :: Covers(Placed(e, k, n, base), h, j) <==>
                           Covers(e, h, j) || (h == k && k <= j < k + n)
  {
    var p := Placed(e, k, n, base);
    assert forall j :: k <= j < k + n ==> Free(e, j) && e[j] == EMPTY;
    forall h, j | Covers(e, h, j)
      ensures Covers(p, h, j) && !(k <= h < k + n) && !(k <= j < k + n)
    {
      assert HeadOk(e, h);
      assert Covers(e, h, h) && MemberOk(e, h, h) && MemberOk(e, h, j);
    }
    forall h | 0 <= h < |p|
      ensures HeadOk(p, h)
    {
      assert HeadOk(e, h);
    }
    forall h, j | Covers(p, h, j)
      ensures MemberOk(p, h, j)
    {
      if h != k { assert Covers(e, h, j) && MemberOk(e, h, j); }
    }
    forall j | 0 <= j < |p| && Free(p, j)
      ensures p[j] == EMPTY
    {
      assert Covers(p, k, k);
      if k <= j < k + n { assert Covers(p, k, j); } else { assert Free(e, j); }
    }
  }

  lemma RecountWellFormed(e: seq<Entry>, h: nat, c: nat)
    requires WellFormed(e) && h < |e| && e[h].counter > 0
    ensures var r := e[h := e[h].(counter := c)];
            && (WellFormed(r) <==> c > 0)
            && (c > 0 ==> forall g, j :: Covers(r, g, j) <==> Covers(e, g, j))
  {
    var r := e[h := e[h].(counter := c)];
    CounterMarksHead(e, h);
    if c == 0 {
      assert HeadOk(e, h);
      assert !Covers(r, r[h].start, h);
      assert Free(r, h);
    } else {
      forall g | 0 <= g < |r| ensures HeadOk(r, g) { assert HeadOk(e, g); }
      forall g, j | Covers(r, g, j)
        ensures MemberOk(r, g, j)
      {
        assert Covers(e, g, j) && MemberOk(e, g, j);
      }
      forall j | 0 <= j < |r| && Free(r, j) ensures r[j] == EMPTY { assert Free(e, j); }
    }
  }

  ghost predicate Counters16(e: seq<Entry>) {
    forall j :: 0 <= j < |e| ==> e[j].counter < U16
  }

  /** A request keeps the table well-formed exactly when it does not overflow the 16-bit
      counter of the group it reuses. */
  lemma AddKeepsWellFormed(e: seq<Entry>, size: nat, addr: nat, len: nat)
    requires WellFormed(e) && Counters16(e) && size > 0
    ensures var h := FirstGroup(e, size, Base(size, addr), Segments(size, addr, len), 0);
            WellFormed(AddSpec(e, size, addr, len).entries) <==>
            !(0 < len <= size * |e| && h < |e| && e[h].counter == U16 - 1)
  {
    var base, segs := Base(size, addr), Segments(size, addr, len);
    var h := FirstGroup(e, size, base, segs, 0);
    if 0 < len <= size * |e| {
      SegmentsPositive(size, addr, len);
      if h < |e| {
        RecountWellFormed(e, h, (e[h].counter + 1) % U16);
      } else if FirstRun(e, segs, 0) < |e| {
        PlacedWellFormed(e, FirstRun(e, segs, 0), segs, base);
      } else {
        ReclaimWellFormed(e);
        var r := Reclaimed(e);
        if FirstRun(r, segs, 0) < |e| { PlacedWellFormed(r, FirstRun(r, segs, 0), segs, base); }
      }
    }
  }

  /** The table after `k` more requests for the same range. */
  ghost function Repeated(e: seq<Entry>, size: nat, addr: nat, len: nat, k: nat): seq<Entry>
    requires size > 0
  {
    if k == 0 then e else AddSpec(Repeated(e, size, addr, len, k - 1), size, addr, len).entries
  }

  /** Only the counter of its group moves, by one each time, until the 16 bits are full. */
  lemma {:induction false} RepeatCounts(e: seq<Entry>, size: nat, addr: nat, len: nat, k: nat)
    requires size > 0 && 0 < len <= size * |e|
    requires var h := FirstGroup(e, size, Base(size, addr), Segments(size, addr, len), 0);
             h < |e| && e[h].counter + k < U16
    ensures var h := FirstGroup(e, size, Base(size, addr), Segments(size, addr, len), 0);
            && Repeated(e, size, addr, len, k) == e[h := e[h].(counter := e[h].counter + k)]
            && FirstGroup(Repeated(e, size, addr, len, k), size, Base(size, addr), Segments(size, addr, len), 0) == h
    decreases k
  {
    var base, segs := Base(size, addr), Segments(size, addr, len);
    var h := FirstGroup(e, size, base, segs, 0);
    var r := e[h := e[h].(counter := e[h].counter + k)];
    if k == 0 {
      assert r == e;
    } else {
      RepeatCounts(e, size, addr, len, k - 1);
      var q := Repeated(e, size, addr, len, k - 1);
      OneMoreUser(q, size, addr, len, h);
      Overwrite(e, h, q[h], r[h]);
      SameFirstGroup(e, r, size, base, segs);
    }
  }

  lemma Overwrite<T>(e: seq<T>, h: nat, x: T, y: T)
    requires h < |e|
    ensures e[h := x][h := y] == e[h := y]
  {
  }

  lemma OneMoreUser(q: seq<Entry>, size: nat, addr: nat, len: nat, h: nat)
    requires size > 0 && 0 < len <= size * |q| && h < |q| && q[h].counter + 1 < U16
    requires FirstGroup(q, size, Base(size, addr), Segments(size, addr, len), 0) == h
    ensures AddSpec(q, size, addr, len).entries == q[h := q[h].(counter := q[h].counter + 1)]
  {
  }

  lemma SameFirstGroup(e: seq<Entry>, r: seq<Entry>, size: nat, base: nat, segs: nat)
    requires size > 0 && |r| == |e|
    requires forall j :: 0 <= j < |e| ==>
               r[j].(counter := e[j].counter) == e[j] && (r[j].counter > 0 <==> e[j].counter > 0)
    ensures FirstGroup(r, size, base, segs, 0) == FirstGroup(e, size, base, segs, 0)
  {
    forall j | 0 <= j < |e| ensures Embeds(r, size, j, base, segs) <==> Embeds(e, size, j, base, segs) {
      assert r[j].(counter := e[j].counter) == e[j];
    }
  }

  /** The overflow is reached from an empty table: 65534 requests for one range that fits leave a
      full counter and a sound table, and one more request makes the table ill-formed. */
  lemma CounterOverflows(e: seq<Entry>, size: nat, addr: nat, len: nat)
    requires size > 0 && addr < U64 && 0 < len <= size * |e| && Segments(size, addr, len) <= |e|
    requires forall j :: 0 <= j < |e| ==> e[j] == EMPTY
    ensures WellFormed(Repeated(e, size, addr, len, 65534)) && !WellFormed(Repeated(e, size, addr, len, 65535))
  {
    SegmentsPositive(size, addr, len);
    var r := FirstOnEmpty(e, size, addr, len);
    FillCounter(r, size, addr, len, 0);
    RepeatShifts(e, size, addr, len, 65533);
    RepeatShifts(e, size, addr, len, 65534);
  }

  /** A group that one range keeps using: its counter fills up, and the next request breaks the table. */
  lemma FillCounter(r: seq<Entry>, size: nat, addr: nat, len: nat, h: nat)
    requires WellFormed(r) && Counters16(r) && size > 0 && 0 < len <= size * |r| && h < |r|
    requires FirstGroup(r, size, Base(size, addr), Segments(size, addr, len), 0) == h && r[h].counter > 0
    ensures var k := 65535 - r[h].counter;
            WellFormed(Repeated(r, size, addr, len, k)) && !WellFormed(Repeated(r, size, addr, len, k + 1))
  {
    var k := 65535 - r[h].counter;
    var full := r[h := r[h].(counter := 65535)];
    RepeatCounts(r, size, addr, len, k);
    assert Repeated(r, size, addr, len, k) == full;
    RecountWellFormed(r, h, 65535);
    FullBreaks(full, size, addr, len, h);
  }

  lemma FullBreaks(full: seq<Entry>, size: nat, addr: nat, len: nat, h: nat)
    requires WellFormed(full) && Counters16(full) && size > 0 && 0 < len <= size * |full| && h < |full|
    requires FirstGroup(full, size, Base(size, addr), Segments(size, addr, len), 0) == h && full[h].counter == 65535
    ensures !WellFormed(AddSpec(full, size, addr, len).entries)
  {
    AddKeepsWellFormed(full, size, addr, len);
  }

  lemma FirstOnEmpty(e: seq<Entry>, size: nat, addr: nat, len: nat) returns (r: seq<Entry>)
    requires size > 0 && addr < U64 && 0 < len <= size * |e| && 0 < Segments(size, addr, len) <= |e|
    requires forall j :: 0 <= j < |e| ==> e[j] == EMPTY
    ensures r == AddSpec(e, size, addr, len).entries && |r| == |e| && WellFormed(r) && Counters16(r)
    ensures FirstGroup(r, size, Base(size, addr), Segments(size, addr, len), 0) == 0 && r[0].counter == 2
  {
    var base, segs := Base(size, addr), Segments(size, addr, len);
    r := AddSpec(e, size, addr, len).entries;
    assert FreeRun(e, 0, segs);
    assert FirstRun(e, segs, 0) == 0;
    PlacedWellFormed(e, 0, segs, base);
    assert (base - base) / size == 0;
    assert Embeds(r, size, 0, base, segs);
  }

  lemma {:induction false} RepeatShifts(e: seq<Entry>, size: nat, addr: nat, len: nat, k: nat)
    requires size > 0
    ensures Repeated(e, size, addr, len, k + 1) == Repeated(AddSpec(e, size, addr, len).entries, size, addr, len, k)
    decreases k
  {
    if k > 0 { RepeatShifts(e, size, addr, len, k - 1); }
  }

  lemma SegmentsPositive(size: nat, addr: nat, len: nat)
    requires size > 0 && len > 0
    ensures Segments(size, addr, len) > 0
  {
    var t := addr % size + len + size - 1;
    MulMonotone(1, size, t + 1);
    DivBounds(t, size, 1, t + 1);
  }

  // ---------------------------------------------------------------- by addresses

  /** The segments of a request are the fewest that cover its bytes. */
  lemma SegmentsExactly(size: nat, addr: nat, len: nat)
    requires size > 0 && len > 0
    ensures var base, segs := Base(size, addr), Segments(size, addr, len);
            && base % size == 0 && base <= addr < base + size
            && segs > 0 && base + (segs - 1) * size < addr + len <= base + segs * size
  {
    var base, segs := Base(size, addr), Segments(size, addr, len);
    var t := addr % size + len + size - 1;
    assert addr == (addr / size) * size + addr % size;
    UniqueMod(base, size, addr / size, 0);
    assert t == segs * size + t % size && 0 <= t % size < size;
    assert (segs - 1) * size == segs * size - size;
    SegmentsPositive(size, addr, len);
  }

  ghost predicate Aligned(e: seq<Entry>, size: nat)
    requires size > 0
  {
    forall h :: 0 <= h < |e| && e[h].counter > 0 ==> e[h].value % size == 0
  }

  /** The addresses that the group at `h` translates include all bytes of the request. */
  predicate Contains(e: seq<Entry>, size: nat, h: nat, addr: nat, len: nat)
    requires h < |e|
  {
    e[h].counter > 0 && e[h].value <= addr && addr + len <= e[h].value + e[h].count * size
  }

  /** Embedding is containment of address ranges. */
  lemma EmbedsIsContains(e: seq<Entry>, size: nat, h: nat, addr: nat, len: nat)
    requires size > 0 && len > 0 && h < |e| && e[h].count <= |e| && e[h].value % size == 0
    ensures Embeds(e, size, h, Base(size, addr), Segments(size, addr, len)) <==> Contains(e, size, h, addr, len)
  {
    var base, segs, value := Base(size, addr), Segments(size, addr, len), e[h].value;
    SegmentsExactly(size, addr, len);
    var a, v := addr / size, value / size;
    assert base == a * size by { assert addr == a * size + addr % size; }
    assert value == v * size by { assert value == v * size + value % size; }
    if v <= a {
      QuotientOf(size, a, v);
      RangeFits(size, a, v, segs, e[h].count, addr + len);
    } else {
      After(size, a, v);
    }
  }

  lemma QuotientOf(size: nat, a: nat, v: nat)
    requires size > 0 && v <= a
    ensures v * size <= a * size && (a * size - v * size) / size == a - v
  {
    MulMonotone(v, a, size);
    assert a * size - v * size == (a - v) * size;
    UniqueMod(a * size - v * size, size, a - v, 0);
  }

  lemma After(size: nat, a: nat, v: nat)
    requires size > 0 && v > a
    ensures v * size >= a * size + size
  {
    MulMonotone(a + 1, v, size);
    assert (a + 1) * size == a * size + size;
  }

  lemma RangeFits(size: nat, a: nat, v: nat, segs: nat, c: nat, end: nat)
    requires size > 0 && v <= a && segs > 0 && a * size + (segs - 1) * size < end <= a * size + segs * size
    ensures a - v + segs <= c <==> end <= v * size + c * size
  {
    assert a * size + segs * size == (a + segs) * size && a * size + (segs - 1) * size == (a + segs - 1) * size;
    assert v * size + c * size == (v + c) * size;
    if a + segs <= v + c { MulMonotone(a + segs, v + c, size); } else { MulMonotone(v + c, a + segs - 1, size); }
  }

  /** Segment `j` is free once all unused groups count as free. */
  ghost predicate Available(e: seq<Entry>, j: int)
    requires 0 <= j < |e|
  {
    forall h :: Covers(e, h, j) ==> e[h].counter == 1
  }

  ghost predicate AvailableRun(e: seq<Entry>, k: int, n: nat) {
    0 <= k && k + n <= |e| && forall j :: k <= j < k + n ==> Available(e, j)
  }

  lemma ReclaimMakesAvailable(e: seq<Entry>, k: int, n: nat)
    requires WellFormed(e)
    ensures FreeRun(Reclaimed(e), k, n) <==> AvailableRun(e, k, n)
    ensures FreeRun(e, k, n) ==> AvailableRun(e, k, n)
  {
    ReclaimFrees(e);
    forall j | 0 <= j < |e|
      ensures Free(Reclaimed(e), j) <==> Available(e, j)
      ensures Free(e, j) ==> Available(e, j)
    {
      FreeMeansUncovered(e, j);
      if Unused(e, j) {
        forall h | Covers(e, h, j) ensures e[h].counter == 1 { assert MemberOk(e, h, j); }
      }
    }
  }

  /** The exact cases in which a request fails. */
  lemma NoMemoryExactly(e: seq<Entry>, size: nat, addr: nat, len: nat)
    requires WellFormed(e) && size > 0
    ensures
      var base, segs := Base(size, addr), Segments(size, addr, len);
      AddSpec(e, size, addr, len).rc == NoMemory <==>
      || len == 0
      || len > size * |e|
      || (&& (forall h :: 0 <= h < |e| ==> !Embeds(e, size, h, base, segs))
          && (forall k :: !AvailableRun(e, k, segs)))
  {
    var base, segs := Base(size, addr), Segments(size, addr, len);
    if 0 < len <= size * |e| {
      SegmentsPositive(size, addr, len);
      forall k
        ensures FreeRun(Reclaimed(e), k, segs) <==> AvailableRun(e, k, segs)
        ensures FreeRun(e, k, segs) ==> AvailableRun(e, k, segs)
      {
        ReclaimMakesAvailable(e, k, segs);
      }
      var r := Reclaimed(e);
      var k, k' := FirstRun(e, segs, 0), FirstRun(r, segs, 0);
      if k < |e| { assert AvailableRun(e, k, segs); }
      if k' < |e| { assert AvailableRun(e, k', segs); }
      assert forall x :: AvailableRun(e, x, segs) ==> FreeRun(r, x, segs) && 0 <= x < |e|;
    }
  }

  /** When no group has users, everything can be evicted: only the size of a request matters. */
  lemma UnusedAccepts(e: seq<Entry>, size: nat, addr: nat, len: nat)
    requires WellFormed(e) && size > 0 && forall h :: 0 <= h < |e| ==> e[h].counter <= 1
    ensures AddSpec(e, size, addr, len).rc != NoMemory <==> 0 < len <= size * |e| && Segments(size, addr, len) <= |e|
  {
    var base, segs := Base(size, addr), Segments(size, addr, len);
    NoMemoryExactly(e, size, addr, len);
    if segs <= |e| { assert AvailableRun(e, 0, segs); }
    forall h | 0 <= h < |e| && Embeds(e, size, h, base, segs) ensures segs <= |e| {
      EmbedsFits(e, size, h, base, segs);
    }
  }

  lemma EmbedsFits(e: seq<Entry>, size: nat, h: nat, base: nat, segs: nat)
    requires WellFormed(e) && h < |e| && size > 0 && Embeds(e, size, h, base, segs)
    ensures segs <= |e|
  {
    assert HeadOk(e, h);
  }

  /** No group before `h` contains the request, and the one at `h` does. */
  ghost predicate FirstContaining(e: seq<Entry>, size: nat, h: nat, addr: nat, len: nat) {
    && h < |e| && Contains(e, size, h, addr, len)
    && forall g :: 0 <= g < h ==> !Contains(e, size, g, addr, len)
  }

  lemma ContainsMeansEmbeds(e: seq<Entry>, size: nat, addr: nat, len: nat)
    requires WellFormed(e) && size > 0 && Aligned(e, size) && len > 0
    ensures forall h :: 0 <= h < |e| ==>
              (Embeds(e, size, h, Base(size, addr), Segments(size, addr, len)) <==> Contains(e, size, h, addr, len))
  {
    forall h | 0 <= h < |e|
      ensures Embeds(e, size, h, Base(size, addr), Segments(size, addr, len)) <==> Contains(e, size, h, addr, len)
    {
      assert HeadOk(e, h);
      if e[h].counter > 0 { EmbedsIsContains(e, size, h, addr, len); }
    }
  }

  /** Reuse by addresses: a request is served by an existing group exactly when the addresses of some group
      include all its bytes. */
  lemma ReusedExactly(e: seq<Entry>, size: nat, addr: nat, len: nat)
    requires WellFormed(e) && size > 0 && Aligned(e, size) && 0 < len <= size * |e|
    ensures AddSpec(e, size, addr, len).rc == Exists <==>
            exists h :: 0 <= h < |e| && Contains(e, size, h, addr, len)
  {
    ContainsMeansEmbeds(e, size, addr, len);
    var k := FirstGroup(e, size, Base(size, addr), Segments(size, addr, len), 0);
    if k < |e| { assert Contains(e, size, k, addr, len); }
  }

  /** The first such group gets one more user, and the segment handed out is the one that translates the
      start of the request. */
  lemma ReusedBy(e: seq<Entry>, size: nat, addr: nat, len: nat, h: nat)
    requires WellFormed(e) && size > 0 && Aligned(e, size) && 0 < len <= size * |e|
    requires FirstContaining(e, size, h, addr, len)
    ensures var r := AddSpec(e, size, addr, len);
            && r.rc == Exists && r.num == Segments(size, addr, len)
            && h <= r.id && e[h].value + (r.id - h) * size <= addr < e[h].value + (r.id - h) * size + size
            && r.entries == e[h := e[h].(counter := (e[h].counter + 1) % U16)]
  {
    ContainsMeansEmbeds(e, size, addr, len);
    var base, segs := Base(size, addr), Segments(size, addr, len);
    var k := FirstGroup(e, size, base, segs, 0);
    assert Embeds(e, size, h, base, segs) && k == h;
    HandedOut(size, addr, e[h].value);
  }

  lemma HandedOut(size: nat, addr: nat, value: nat)
    requires size > 0 && value % size == 0 && value <= Base(size, addr)
    ensures var i := (Base(size, addr) - value) / size; i >= 0 && value + i * size <= addr < value + i * size + size
  {
    var a, v := addr / size, value / size;
    assert addr == a * size + addr % size && value == v * size;
    if a < v { After(size, a, v); }
    QuotientOf(size, a, v);
    assert (a - v) * size == a * size - v * size;
  }

  /** A new group goes to the first free run if there is one, and then no other entry changes; only
      otherwise unused groups are dropped, and it goes to the first run that this frees. */
  lemma FirstFit(e: seq<Entry>, size: nat, addr: nat, len: nat)
    requires WellFormed(e) && size > 0 && AddSpec(e, size, addr, len).rc == Ok
    ensures var r, segs := AddSpec(e, size, addr, len), Segments(size, addr, len);
            if exists k :: FreeRun(e, k, segs) then
              && FreeRun(e, r.id, segs) && (forall k :: k < r.id ==> !FreeRun(e, k, segs))
              && forall j :: 0 <= j < |e| && !(r.id <= j < r.id + segs) ==> r.entries[j] == e[j]
            else
              && AvailableRun(e, r.id, segs) && forall k :: k < r.id ==> !AvailableRun(e, k, segs)
  {
    var segs := Segments(size, addr, len);
    var k := FirstRun(e, segs, 0);
    SegmentsPositive(size, addr, len);
    if k == |e| {
      forall i ensures !FreeRun(e, i, segs) {}
      forall i ensures FreeRun(Reclaimed(e), i, segs) <==> AvailableRun(e, i, segs) {
        ReclaimMakesAvailable(e, i, segs);
      }
    }
  }

  /** A request that fails hands out nothing, and drops at most the unused groups: all of them, unless its size
      was wrong to begin with. */
  lemma FailedRequest(e: seq<Entry>, size: nat, addr: nat, len: nat)
    requires WellFormed(e) && size > 0 && AddSpec(e, size, addr, len).rc == NoMemory
    ensures var r := AddSpec(e, size, addr, len);
            && r.id == 0 && r.num == 0 && |r.entries| == |e|
            && r.entries == (if len == 0 || len > size * |e| then e else Reclaimed(e))
            && forall h :: 0 <= h < |e| && e[h].counter != 1 && e[h].counter > 0 ==> r.entries[h] == e[h]
  {
    forall h | 0 <= h < |e| && e[h].counter > 1 ensures !Unused(e, h) { CounterMarksHead(e, h); }
  }

  /** A new group is made only when no group embeds the range, and then from segments that no
      live group covers; every group in use keeps its translation and its users. */
  lemma NewGroupTakesNothingLive(e: seq<Entry>, size: nat, addr: nat, len: nat)
    requires WellFormed(e) && size > 0
    requires AddSpec(e, size, addr, len).rc == Ok
    ensures
      var base, segs := Base(size, addr), Segments(size, addr, len);
      var r := AddSpec(e, size, addr, len);
      && segs > 0 && r.num == segs && AvailableRun(e, r.id, segs)
      && (forall h :: 0 <= h < |e| ==> !Embeds(e, size, h, base, segs))
      && r.entries[r.id] == Entry(base, 2, segs, r.id)
      && WellFormed(r.entries)
      && (forall h :: 0 <= h < |e| && e[h].counter > 1 ==> r.entries[h] == e[h])
      && (forall h, j :: Covers(r.entries, h, j) ==>
            if h == r.id then r.id <= j < r.id + segs else Covers(e, h, j) && r.entries[h] == e[h])
      && (forall h, j :: Covers(e, h, j) && e[h].counter > 1 ==> Covers(r.entries, h, j) && h != r.id)
  {
    var base, segs := Base(size, addr), Segments(size, addr, len);
    SegmentsPositive(size, addr, len);
    var k := FirstRun(e, segs, 0);
    if k < |e| {
      ReclaimMakesAvailable(e, k, segs);
      PlacedWellFormed(e, k, segs, base);
      PlacedKeepsGroups(e, k, segs, base);
    } else {
      var r := Reclaimed(e);
      k := FirstRun(r, segs, 0);
      ReclaimMakesAvailable(e, k, segs);
      ReclaimWellFormed(e);
      ReclaimFrees(e);
      PlacedWellFormed(r, k, segs, base);
      PlacedKeepsGroups(r, k, segs, base);
      forall h | 0 <= h < |e| && e[h].counter > 0
        ensures e[h].counter > 1 ==> r[h] == e[h] && r[h].counter > 0
        ensures r[h].counter > 0 ==> r[h] == e[h]
      {
        CounterMarksHead(e, h);
      }
    }
  }

  lemma PlacedKeepsGroups(e: seq<Entry>, k: nat, n: nat, base: nat)
    requires WellFormed(e) && n > 0 && FreeRun(e, k, n)
    ensures forall h :: 0 <= h < |e| && e[h].counter > 0 ==> h != k && Placed(e, k, n, base)[h] == e[h]
  {
    forall h | 0 <= h < |e| && e[h].counter > 0
      ensures !(k <= h < k + n)
    {
      CounterMarksHead(e, h);
    }
  }

  /** Releasing a reference never touches another group. */
  lemma DelKeepsWellFormed(e: seq<Entry>, seg: nat)
    requires WellFormed(e) && seg < |e| && !Free(e, seg)
    ensures Deletable(e, seg) && WellFormed(DelSpec(e, seg))
    ensures var h, r := e[seg].start, DelSpec(e, seg);
            && (e[h].counter > 1 ==> r == e[h := e[h].(counter := e[h].counter - 1)])
            && forall g, j :: Covers(r, g, j) <==> Covers(e, g, j) && (g != h || e[h].counter > 1)
  {
    var h := e[seg].start;
    assert HeadOk(e, h);
    var r := DelSpec(e, seg);
    if e[h].counter > 1 {
      RecountWellFormed(e, h, e[h].counter - 1);
    } else {
      var n := e[h].count;
      forall j | h <= j < h + n
        ensures e[j].start == h
      {
        assert Covers(e, h, j);
      }
      forall g, j | Covers(e, g, j) && g != h
        ensures !(h <= j < h + n) && !(h <= g < h + n)
      {
        assert MemberOk(e, g, j);
        assert HeadOk(e, g) && Covers(e, g, g) && MemberOk(e, g, g);
      }
      forall g | 0 <= g < |r| ensures HeadOk(r, g) { assert HeadOk(e, g); }
      forall g, j | Covers(r, g, j) ensures Covers(e, g, j) && g != h && MemberOk(r, g, j) {
        assert MemberOk(e, g, j);
      }
      forall j | 0 <= j < |r| && Free(r, j)
        ensures r[j] == EMPTY
      {
        if !(h <= j < h + n) && Covers(e, e[j].start, j) { assert Covers(r, r[j].start, j); }
      }
    }
  }

  // ---------------------------------------------------------------- the debug check

  /** The first `i` segments are tiled by checked groups and blank entries. */
  ghost predicate CheckedTo(e: seq<Entry>, i: int) {
    && 0 <= i <= |e|
    && (forall h :: 0 <= h < i && e[h].counter > 0 ==> 1 <= e[h].count && h + e[h].count <= i)
    && (forall h, j :: 0 <= h < i && Covers(e, h, j) ==> MemberOk(e, h, j))
    && (forall j :: 0 <= j < i && Free(e, j) ==> e[j] == EMPTY)
  }

  lemma CheckedNext(e: seq<Entry>, i: int)
    requires CheckedTo(e, i) && i < |e|
    ensures e[i].counter == 0 && e[i] != EMPTY ==> !WellFormed(e)
    ensures e[i].counter == 0 && e[i] == EMPTY ==> CheckedTo(e, i + 1)
    ensures e[i].counter > 0 && !HeadOk(e, i) ==> !WellFormed(e)
    ensures e[i].counter > 0 && HeadOk(e, i) && (forall j :: i <= j < i + e[i].count ==> MemberOk(e, i, j)) ==>
              CheckedTo(e, i + e[i].count)
  {
    assert forall h {:trigger Covers(e, h, i)} :: Covers(e, h, i) ==> h == i;
    assert e[i].counter == 0 ==> Free(e, i);
    if e[i].counter > 0 && HeadOk(e, i) && (forall j :: i <= j < i + e[i].count ==> MemberOk(e, i, j)) {
      forall j | i <= j < i + e[i].count
        ensures !Free(e, j) && (j != i ==> e[j].counter == 0)
      {
        assert MemberOk(e, i, j);
      }
    }
  }

  lemma CheckedAll(e: seq<Entry>)
    requires CheckedTo(e, |e|)
    ensures WellFormed(e)
  {
  }

  // ---------------------------------------------------------------- the manager

  class Manager {
    const segmentsNum: nat
    const segmentSize: nat
    var entries: array<Entry>

    ghost predicate Valid()
      reads this, entries
    {
      && entries.Length == segmentsNum
      && Geometry(segmentsNum, segmentSize)
      && WellFormed(entries[..])
    }

    constructor (numNtbs: nat, aperLen: nat)
      requires numNtbs == 1 || numNtbs == 2
      requires IsPow2(aperLen) && 256 <= aperLen < U64
      ensures Valid() && fresh(entries)
      ensures segmentsNum == 256 / numNtbs && segmentsNum * segmentSize == aperLen
      ensures forall j :: 0 <= j < segmentsNum ==> entries[j] == EMPTY
    {
      segmentsNum := 256 / numNtbs;
      segmentSize := aperLen / (256 / numNtbs);
      entries := new Entry[256 / numNtbs](_ => EMPTY);
      new;
      ApertureGeometry(numNtbs, aperLen);
    }

    method ClearEntries(begin: nat, num: nat)
      requires begin + num <= entries.Length
      modifies entries
      ensures entries[..] == Cleared(old(entries[..]), begin, num)
    {
      forall j | begin <= j < begin + num {
        entries[j] := EMPTY;
      }
    }

    method Reset()
      requires Valid()
      modifies entries
      ensures Valid()
      ensures forall j :: 0 <= j < segmentsNum ==> entries[j] == EMPTY
    {
      ClearEntries(0, segmentsNum);
    }

    /** Whether the group at `i` embeds the request, and at which of its segments. */
    method Fits(i: nat, base: nat, segments: nat) returns (hit: bool, idx: nat)
      requires i < entries.Length == segmentsNum && segmentSize > 0 && entries[i].counter > 0
      ensures hit == Embeds(entries[..], segmentSize, i, base, segments)
      ensures idx == if hit then (base - entries[i].value) / segmentSize else 0
    {
      hit, idx := false, 0;
      if base >= entries[i].value {
        idx := (base - entries[i].value) / segmentSize;
        if idx < segmentsNum && idx + segments <= entries[i].count {
          hit := true;
        } else {
          idx := 0;
        }
      }
    }

    /** The scan of plx_alm_add_entry: the first group that embeds the request, else the first run. */
    method Scan(base: nat, segments: nat) returns (match_: int, idx: nat)
      requires Valid() && segments > 0
      ensures
        var e := entries[..];
        var h := FirstGroup(e, segmentSize, base, segments, 0);
        var k := FirstRun(e, segments, 0);
        if h < |e| then match_ == h && idx == (base - e[h].value) / segmentSize
        else idx == 0 && match_ == if k < |e| then k else -1
    {
      ghost var e, size := entries[..], segmentSize;
      var i, freeSlots := 0, 0;
      match_, idx := -1, 0;
      while i < segmentsNum
        invariant idx == 0 && ScanInv(e, size, base, segments, i, match_, freeSlots)
      {
        if entries[i].counter == 0 {
          ScanFree(e, size, base, segments, i, match_, freeSlots);
          if match_ == -1 {
            freeSlots := freeSlots + 1;
            if freeSlots == segments {
              match_ := i - segments + 1;
            }
          }
          i := i + 1;
        } else {
          var hit;
          hit, idx := Fits(i, base, segments);
          if hit {
            ScanHit(e, size, base, segments, i, match_, freeSlots);
            match_ := i;
            return;
          }
          ScanGroup(e, size, base, segments, i, match_, freeSlots);
          freeSlots := 0;
          i := i + entries[i].count;
        }
      }
      ScanEnd(e, size, base, segments, match_, freeSlots);
    }

    /** plx_alm_del_entry; the outputs stay 0 while the group is still referenced. */
    method DelEntry(segment: nat) returns (startId: nat, num: nat)
      requires Deletable(entries[..], segment)
      modifies entries
      ensures entries[..] == DelSpec(old(entries[..]), segment)
      ensures
        var e, h := old(entries[..]), old(entries[segment].start);
        if e[h].counter == 1 then startId == h && num == e[h].count else startId == 0 && num == 0
    {
      startId, num := 0, 0;
      var start := entries[segment].start;
      entries[start] := entries[start].(counter := entries[start].counter - 1);
      if entries[start].counter == 0 {
        startId, num := start, entries[start].count;
        ClearEntries(startId, num);
      }
    }

    method CleanupUnused() returns (nums: nat)
      requires Valid()
      modifies entries
      ensures entries[..] == Reclaimed(old(entries[..]))
      ensures nums == |UnusedHeads(old(entries[..]), segmentsNum)|
      ensures nums > 0 <==> HasUnused(old(entries[..]))
    {
      ghost var e := entries[..];
      var i: nat := 0;
      nums := 0;
      while i < segmentsNum
        invariant i <= segmentsNum
        invariant entries[..] == ReclaimedBelow(e, i)
        invariant nums == |UnusedHeads(e, i)| && (nums > 0 <==> UnusedBelow(e, i))
      {
        ReclaimStep(e, i);
        OneMoreHead(e, i);
        if entries[i].counter == 1 {
          var _, _ := DelEntry(i);
          nums := nums + 1;
        }
        i := i + 1;
      }
    }

    /** Address masks and segment count, in 64-bit arithmetic with a 32-bit result. */
    method Split(addr: nat, len: nat) returns (addrMasked: nat, segments: nat)
      requires Geometry(segmentsNum, segmentSize) && addr < U64 && len < U64
      ensures addrMasked == Base(segmentSize, addr)
      ensures 0 < len <= segmentSize * segmentsNum ==>
                segments == Segments(segmentSize, addr, len) && 0 < segments <= segmentsNum + 1
    {
      SizeSmall(segmentsNum, segmentSize);
      MaskSplit(addr, segmentSize);
      addrMasked := And(addr, U64 - segmentSize);
      var offset := And(addr, segmentSize - 1);
      segments := (offset + len + segmentSize - 1) % U64 / segmentSize % U32;
      if 0 < len <= segmentSize * segmentsNum {
        SegmentsNoWrap(segmentsNum, segmentSize, addr, len);
      }
    }

    /** The entries of a new group, not yet counted. */
    method NewGroup(m: nat, addrMasked: nat, segments: nat)
      requires 0 < segments && m + segments <= entries.Length
      requires FreeRun(entries[..], m, segments) && entries[m].counter == 0
      modifies entries
      ensures entries[..] == Placed(old(entries[..]), m, segments, addrMasked)[m := Entry(addrMasked, 0, segments, m)]
    {
      assert Free(entries[..], m);
      entries[m] := entries[m].(value := addrMasked, count := segments);
      forall j | m <= j < m + segments {
        entries[j] := entries[j].(start := m);
      }
    }

    /** One more user; the first one of a group is counted as 2, because 1 stands for unused. */
    method CountUser(m: nat)
      requires m < entries.Length
      modifies entries
      ensures var c := old(entries[m].counter);
              entries[..] == old(entries[..])[m := old(entries[m]).(counter := ((if c == 0 then 1 else c) + 1) % U16)]
    {
      if entries[m].counter == 0 {
        entries[m] := entries[m].(counter := 1);
      }
      entries[m] := entries[m].(counter := (entries[m].counter + 1) % U16);
    }

    /** The bookkeeping of plx_alm_add_entry once a position is chosen. */
    method Occupy(m: nat, addrMasked: nat, segments: nat) returns (rc: Status)
      requires Valid() && 0 < segments && m + segments <= segmentsNum
      requires entries[m].counter == 0 ==> FreeRun(entries[..], m, segments)
      modifies entries
      ensures
        var e := old(entries[..]);
        if e[m].counter == 0 then rc == Ok && entries[..] == Placed(e, m, segments, addrMasked)
        else rc == Exists && entries[..] == e[m := e[m].(counter := (e[m].counter + 1) % U16)]
    {
      rc := Ok;
      if entries[m].counter == 0 {
        NewGroup(m, addrMasked, segments);
      } else {
        rc := Exists;
      }
      CountUser(m);
    }

    /** plx_alm_add_entry. `nested` counts the recursive calls made after an eviction. */
    method AddEntry(addr: nat, len: nat) returns (rc: Status, id: nat, num: nat, ghost nested: nat)
      requires Valid() && addr < U64 && len < U64
      modifies entries
      ensures AddSpec(old(entries[..]), segmentSize, addr, len) ==
              AddResult(entries[..], rc, id, num)
      ensures nested <= 1 && (nested > 0 ==> old(HasUnused(entries[..])))
      decreases HasUnused(entries[..])
    {
      ghost var e := entries[..];
      var addrMasked, segments := Split(addr, len);
      if len == 0 || len > segmentSize * segmentsNum {
        return NoMemory, 0, 0, 0;
      }
      var m, idx := Scan(addrMasked, segments);
      if m != -1 {
        ScanRoom(e, segmentSize, addrMasked, segments);
        rc := Occupy(m, addrMasked, segments);
        id, num, nested := m + idx, segments, 0;
      } else {
        SecondTry(e, segmentSize, addr, len);
        ReclaimWellFormed(e);
        var nums := CleanupUnused();
        if nums > 0 {
          rc, id, num, nested := AddEntry(addr, len);
          nested := nested + 1;
        } else {
          rc, id, num, nested := NoMemory, 0, 0, 0;
        }
      }
    }

    /** plx_alm_check: the debug scan accepts exactly the well-formed tables. */
    method Check() returns (ok: bool)
      requires entries.Length == segmentsNum
      ensures ok <==> WellFormed(entries[..])
    {
      ghost var e := entries[..];
      var i := 0;
      ok := true;
      while i < segmentsNum
        invariant i <= segmentsNum && e == entries[..]
        invariant if ok then CheckedTo(e, i) else !WellFormed(e)
      {
        if ok { CheckedNext(e, i); }
        if entries[i].counter == 0 {
          if entries[i].count != 0 || entries[i].start != 0 || entries[i].value != 0 {
            ok := false;
          }
          i := i + 1;
          continue;
        }
        var segments := entries[i].count;
        if segments == 0 || segments + i > segmentsNum {
          ok := false;
          i := i + 1;
          continue;
        }
        var j, good := i, true;
        while j < i + segments && good
          invariant i <= j <= i + segments
          invariant good ==> forall k :: i <= k < j ==> MemberOk(e, i, k)
          invariant !good ==> exists k :: i <= k < i + segments && !MemberOk(e, i, k)
          decreases i + segments - j, good
        {
          if entries[j].start != i || (j != i && (entries[j].counter != 0 || entries[j].count != 0)) {
            assert !MemberOk(e, i, j);
            good := false;
          } else {
            j := j + 1;
          }
        }
        if !good {
          assert exists k :: Covers(e, i, k) && !MemberOk(e, i, k);
          ok := false;
        }
        i := i + segments;
      }
      if ok { CheckedAll(e); }
    }
  }
}
