/**
 The hardware side of the A-LUT: translation and permission registers, programmed only when
 the manager makes a new group. A mapping that reuses a group therefore depends on registers
 written at any earlier time.
 */
module AddressLut {
  import opened Bits
  import opened AlutManager
  import opened Wrappers

  const LOWER: nat := 0x0
  const HIGHER: nat := 0x400
  const PERMISSION: nat := 0x800
  const ARRAY_OFFSET: nat := 0x1000
  const MAX_ARRAY: nat := 128
  const READ_WRITE: nat := 3

  // ---------------------------------------------------------------- registers

  type Mmio = map<nat, nat>

  function Reg(m: Mmio, a: nat): nat {
    if a in m then m[a] else 0
  }

  function EntryOffset(idx: nat): nat {
    (if idx >= MAX_ARRAY then ARRAY_OFFSET else 0) + (idx % MAX_ARRAY) * 4
  }

  const SUBARRAYS: set<nat> := {LOWER, HIGHER, PERMISSION}

  function Register(idx: nat, subarray: nat): nat {
    EntryOffset(idx) + subarray
  }

  /** No two of the 256 entries share a register, in any of the three sub-arrays. */
  lemma EntryOffsetInjective(i: nat, j: nat, s: nat, t: nat)
    requires i < 256 && j < 256 && s in SUBARRAYS && t in SUBARRAYS && Register(i, s) == Register(j, t)
    ensures i == j && s == t
  {
    LinearOffset(i);
    LinearOffset(j);
  }

  lemma LinearOffset(i: nat)
    requires i < 256
    ensures EntryOffset(i) == if i >= MAX_ARRAY then ARRAY_OFFSET + 4 * (i - MAX_ARRAY) else 4 * i
  {
  }

  function Target(m: Mmio, base: nat, j: nat): nat {
    Reg(m, base + Register(j, HIGHER)) * U32 + Reg(m, base + Register(j, LOWER))
  }

  function Permission(m: Mmio, base: nat, j: nat): nat {
    Reg(m, base + Register(j, PERMISSION))
  }

  function ProgramOne(m: Mmio, base: nat, j: nat, a: nat): Mmio {
    m[base + Register(j, HIGHER) := a / U32]
     [base + Register(j, LOWER) := a % U32]
     [base + Register(j, PERMISSION) := READ_WRITE]
  }

  /** The translation address after `k` steps of one segment, in 64-bit arithmetic. */
  function Nth(a: nat, k: nat, size: nat): nat {
    if k == 0 then a else (Nth(a, k - 1, size) + size) % U64
  }

  function Program(m: Mmio, base: nat, id: nat, n: nat, a: nat, size: nat): Mmio {
    if n == 0 then m
    else ProgramOne(Program(m, base, id, n - 1, a, size), base, id + n - 1, Nth(a, n - 1, size))
  }

  lemma ProgramOneEffect(m: Mmio, base: nat, j: nat, a: nat, i: nat)
    requires i < 256 && j < 256 && a < U64
    ensures var m' := ProgramOne(m, base, j, a);
            if i == j then Target(m', base, i) == a && Permission(m', base, i) == READ_WRITE
            else Target(m', base, i) == Target(m, base, i) && Permission(m', base, i) == Permission(m, base, i)
  {
    forall s, t | s in SUBARRAYS && t in SUBARRAYS && Register(i, s) == Register(j, t) ensures i == j && s == t {
      EntryOffsetInjective(i, j, s, t);
    }
    assert forall s, t :: s in SUBARRAYS && t in SUBARRAYS && Register(i, s) == Register(j, t) ==> i == j && s == t;
  }

  lemma {:induction false} ProgramEffect(m: Mmio, base: nat, id: nat, n: nat, a: nat, size: nat, i: nat)
    requires id + n <= 256 && i < 256 && a < U64
    ensures var m' := Program(m, base, id, n, a, size);
            if id <= i < id + n then
              Target(m', base, i) == Nth(a, i - id, size) && Permission(m', base, i) == READ_WRITE
            else Target(m', base, i) == Target(m, base, i) && Permission(m', base, i) == Permission(m, base, i)
    decreases n
  {
    if n > 0 {
      var m1, a1 := Program(m, base, id, n - 1, a, size), Nth(a, n - 1, size);
      var m' := ProgramOne(m1, base, id + n - 1, a1);
      ProgramEffect(m, base, id, n - 1, a, size, i);
      ProgramOneEffect(m1, base, id + n - 1, a1, i);
      if i == id + n - 1 {
        assert Target(m', base, i) == a1 && i - id == n - 1;
      } else {
        assert Target(m', base, i) == Target(m1, base, i) && Permission(m', base, i) == Permission(m1, base, i);
      }
    }
  }

  /** Taking the permissions of `n` entries away. */
  function Revoke(m: Mmio, base: nat, id: nat, n: nat): Mmio {
    if n == 0 then m else Revoke(m, base, id, n - 1)[base + Register(id + n - 1, PERMISSION) := 0]
  }

  /** Where the registers of entry `i` are: two arrays of 128 entries, each in three parts. */
  function PlaceOf(i: nat): nat {
    if i < 128 then 4 * i else 0x1000 + 4 * (i - 128)
  }

  lemma RegisterPlaces(i: nat)
    requires i < 256
    ensures Register(i, LOWER) == PlaceOf(i) && Register(i, HIGHER) == PlaceOf(i) + 0x400
    ensures Register(i, PERMISSION) == PlaceOf(i) + 0x800
  {
    LinearOffset(i);
  }

  /** The registers of entry `i` hold address `x` and both permissions. */
  predicate HoldsAddress(m: Mmio, base: nat, i: nat, x: nat) {
    var r := base + PlaceOf(i);
    Reg(m, r + 0x400) == x / 0x1_0000_0000 && Reg(m, r) == x % 0x1_0000_0000 && Reg(m, r + 0x800) == 3
  }

  lemma ProgramOneHolds(m: Mmio, base: nat, j: nat, a: nat, i: nat, x: nat)
    requires i < 256 && j < 256
    ensures i == j && x == a ==> HoldsAddress(ProgramOne(m, base, j, a), base, i, x)
    ensures i != j && HoldsAddress(m, base, i, x) ==> HoldsAddress(ProgramOne(m, base, j, a), base, i, x)
  {
    RegisterPlaces(i);
    RegisterPlaces(j);
  }

  lemma {:induction false} ProgramHolds(m: Mmio, base: nat, id: nat, n: nat, a: nat, size: nat, i: nat)
    requires id + n <= 256 && id <= i < id + n
    ensures HoldsAddress(Program(m, base, id, n, a, size), base, i, Nth(a, i - id, size))
    decreases n
  {
    var j := id + n - 1;
    if i < j { ProgramHolds(m, base, id, n - 1, a, size, i); }
    ProgramOneHolds(Program(m, base, id, n - 1, a, size), base, j, Nth(a, n - 1, size), i, Nth(a, i - id, size));
  }

  /** What programming writes where: the high and low words of each segment's address, and both permissions. */
  lemma ProgramRegisters(m: Mmio, base: nat, id: nat, n: nat, a: nat, size: nat, i: nat)
    requires id + n <= 256 && id <= i < id + n && a < U64
    ensures HoldsAddress(Program(m, base, id, n, a, size), base, i, (a + (i - id) * size) % U64)
  {
    NthIsSum(a, i - id, size);
    ProgramHolds(m, base, id, n, a, size, i);
  }

  /** Revoking clears exactly the permissions of its entries. */
  lemma {:induction false} RevokeEffect(m: Mmio, base: nat, id: nat, n: nat, i: nat)
    requires id + n <= 256 && i < 256
    ensures var m' := Revoke(m, base, id, n);
            && Target(m', base, i) == Target(m, base, i)
            && Reg(m', base + PlaceOf(i) + 0x800) ==
               if id <= i < id + n then 0 else Reg(m, base + PlaceOf(i) + 0x800)
    decreases n
  {
    RegisterPlaces(i);
    if n > 0 {
      RegisterPlaces(id + n - 1);
      RevokeEffect(m, base, id, n - 1, i);
    }
  }

  // ---------------------------------------------------------------- state and steps

  /** `len` bytes at `addr`, mapped at byte `rem` of segment `seg` over `segs` segments from `base` on. */
  datatype Mapping = Mapping(seg: nat, segs: nat, base: nat, rem: nat, addr: nat, len: nat)

  function NewMapping(size: nat, seg: nat, addr: nat, len: nat): Mapping
    requires size > 0
  {
    Mapping(seg, Segments(size, addr, len), Base(size, addr), addr % size, addr, len)
  }

  /** The aperture offset that the caller of a map gets. */
  function Offset(size: nat, m: Mapping): nat {
    m.seg * size + m.rem
  }

  /** `live` holds the mappings not yet unmapped, under the serial number of the call that made them. */
  datatype Lut = Lut(n: nat, size: nat, base: nat, entries: seq<Entry>, mmio: Mmio,
                     live: map<nat, Mapping>, next: nat)

  /** What the switch does with an access at aperture offset `o`. */
  function Switch(m: Mmio, base: nat, n: nat, size: nat, o: nat): Option<nat>
    requires size > 0
  {
    if o / size < n && Permission(m, base, o / size) == READ_WRITE
    then Some((Target(m, base, o / size) + o % size) % U64)
    else None
  }

  ghost function Lookup(s: Lut, o: nat): Option<nat>
    requires s.size > 0
  {
    Switch(s.mmio, s.base, s.n, s.size, o)
  }

  ghost function MapSpec(s: Lut, addr: nat, len: nat): (r: (Lut, bool))
    requires s.size > 0
  {
    var r := AddSpec(s.entries, s.size, addr, len);
    if r.rc == NoMemory then (s.(entries := r.entries), false)
    else
      var mmio := if r.rc == Ok then Program(s.mmio, s.base, r.id, r.num, Base(s.size, addr), s.size) else s.mmio;
      (s.(entries := r.entries, mmio := mmio,
          live := s.live[s.next := NewMapping(s.size, r.id, addr, len)], next := s.next + 1),
       true)
  }

  ghost function UnmapSpec(s: Lut, id: nat): Lut
    requires id in s.live && Deletable(s.entries, s.live[id].seg)
  {
    s.(entries := DelSpec(s.entries, s.live[id].seg), live := s.live - {id})
  }

  // ---------------------------------------------------------------- invariant

  ghost predicate ImageOk(s: Lut, h: int, j: int)
    requires Covers(s.entries, h, j)
  {
    && Target(s.mmio, s.base, j) == Nth(s.entries[h].value, j - h, s.size)
    && Permission(s.mmio, s.base, j) == READ_WRITE
  }

  /** The group at `h` translates the whole of mapping `m`. */
  ghost predicate Within(e: seq<Entry>, size: nat, m: Mapping, h: int) {
    && Covers(e, h, m.seg)
    && m.seg + m.segs <= h + e[h].count
    && Nth(e[h].value, m.seg - h, size) == m.base
  }

  ghost predicate MappingOk(s: Lut, m: Mapping) {
    m.seg < |s.entries| && Within(s.entries, s.size, m, s.entries[m.seg].start)
  }

  ghost predicate Shaped(size: nat, m: Mapping) {
    size > 0 && m.len > 0 && m.addr < U64 && m == NewMapping(size, m.seg, m.addr, m.len)
  }

  ghost function Users(s: Lut, h: int): set<nat> {
    set id | id in s.live && s.live[id].seg < |s.entries| && s.entries[s.live[id].seg].start == h
  }

  ghost predicate ImagesOk(s: Lut) {
    forall h, j :: Covers(s.entries, h, j) ==> ImageOk(s, h, j)
  }

  ghost predicate LiveOk(s: Lut) {
    && (forall id :: id in s.live ==> id < s.next && MappingOk(s, s.live[id]))
    && (forall id {:trigger Shaped(s.size, s.live[id])} :: id in s.live ==> Shaped(s.size, s.live[id]))
  }

  /** Each counter is 1 plus the number of live mappings of its group. */
  ghost predicate CountsOk(s: Lut) {
    forall h :: 0 <= h < |s.entries| && s.entries[h].counter > 0 ==> s.entries[h].counter == 1 + |Users(s, h)|
  }

  ghost predicate HeadValueOk(e: seq<Entry>, size: nat, h: int)
    requires 0 <= h < |e| && size > 0
  {
    e[h].counter > 0 ==> e[h].value < U64 && e[h].value % size == 0
  }

  ghost predicate TableOk(e: seq<Entry>, size: nat)
    requires size > 0
  {
    && WellFormed(e) && Counters16(e)
    && forall h :: 0 <= h < |e| ==> HeadValueOk(e, size, h)
  }

  ghost predicate Inv(s: Lut) {
    && Geometry(s.n, s.size) && |s.entries| == s.n && s.size > 0
    && TableOk(s.entries, s.size) && ImagesOk(s) && LiveOk(s) && CountsOk(s)
  }

  /** The group of a live mapping has a counter of at least 2. */
  lemma LiveGroup(s: Lut, id: nat)
    requires WellFormed(s.entries) && LiveOk(s) && CountsOk(s) && id in s.live
    ensures var h := s.entries[s.live[id].seg].start;
            && Within(s.entries, s.size, s.live[id], h)
            && s.entries[h].counter > 1
  {
    var h := s.entries[s.live[id].seg].start;
    assert MappingOk(s, s.live[id]);
    assert {id} <= Users(s, h);
    SubsetSize({id}, Users(s, h));
  }

  lemma {:induction false} SubsetSize(a: set<nat>, b: set<nat>)
    requires a <= b
    ensures |a| <= |b|
    decreases |a|
  {
    if a != {} {
      var x :| x in a;
      SubsetSize(a - {x}, b - {x});
    }
  }

  // ---------------------------------------------------------------- a lookup through a live mapping

  lemma {:induction false} NthAdd(a: nat, i: nat, k: nat, size: nat)
    ensures Nth(Nth(a, i, size), k, size) == Nth(a, i + k, size)
    decreases k
  {
    if k > 0 { NthAdd(a, i, k - 1, size); }
  }

  lemma {:induction false} NthIsSum(a: nat, k: nat, size: nat)
    requires a < U64
    ensures Nth(a, k, size) == (a + k * size) % U64
    decreases k
  {
    if k > 0 {
      NthIsSum(a, k - 1, size);
      ModShift(a + (k - 1) * size, size);
    }
  }

  lemma ModShift(x: nat, y: nat)
    ensures (x % U64 + y) % U64 == (x + y) % U64
  {
    var q := x / U64;
    assert x + y == q * U64 + (x % U64 + y);
    var z := x % U64 + y;
    UniqueMod(x + y, U64, q + z / U64, z % U64);
  }

  /** Where byte `d` of a mapping lies: its segment, its place there, and the address it stands for. */
  lemma BytePosition(size: nat, m: Mapping, d: nat) returns (k: nat, r: nat)
    requires d < m.len && Shaped(size, m)
    ensures (Offset(size, m) + d) / size == m.seg + k && (Offset(size, m) + d) % size == r
    ensures k < m.segs && m.base < U64 && m.base + k * size + r == m.addr + d
  {
    k, r := (m.rem + d) / size, (m.rem + d) % size;
    assert m.rem + d == k * size + r;
    Distribute(m.seg, k, size);
    UniqueMod(Offset(size, m) + d, size, m.seg + k, r);
    ByteInSegments(size, m.rem, m.len, d);
  }

  lemma ByteInSegments(size: nat, rem: nat, len: nat, d: nat)
    requires size > 0 && d < len
    ensures 0 <= (rem + d) / size < (rem + len + size - 1) / size
  {
    var k, t := (rem + d) / size, rem + len + size - 1;
    assert rem + d == k * size + (rem + d) % size;
    Distribute(k, 1, size);
    MulMonotone(1, size, t + 1);
    DivBounds(t, size, k + 1, t + 1);
  }

  /** The registers of segment `k` of mapping `m` hold its address. */
  ghost predicate Translates(s: Lut, m: Mapping, k: nat) {
    && m.seg + k < s.n
    && Permission(s.mmio, s.base, m.seg + k) == READ_WRITE
    && Target(s.mmio, s.base, m.seg + k) == Nth(m.base, k, s.size)
  }

  lemma GroupTranslates(s: Lut, m: Mapping, h: int, k: nat)
    requires ImagesOk(s) && |s.entries| == s.n && k < m.segs
    requires Within(s.entries, s.size, m, h) && HeadOk(s.entries, h)
    ensures Translates(s, m, k)
  {
    var j := m.seg + k;
    assert Covers(s.entries, h, j) && ImageOk(s, h, j);
    NthAdd(s.entries[h].value, m.seg - h, k, s.size);
  }

  lemma LiveTarget(s: Lut, id: nat, k: nat)
    requires Inv(s) && id in s.live && k < s.live[id].segs
    ensures Translates(s, s.live[id], k)
  {
    LiveGroup(s, id);
    GroupTranslates(s, s.live[id], s.entries[s.live[id].seg].start, k);
  }

  lemma LookupFromTarget(s: Lut, m: Mapping, o: nat, k: nat, r: nat, v: nat)
    requires s.size > 0 && o / s.size == m.seg + k && o % s.size == r
    requires Translates(s, m, k) && m.base < U64 && m.base + k * s.size + r == v
    ensures Lookup(s, o) == Some(v % U64)
  {
    NthIsSum(m.base, k, s.size);
    ModShift(m.base + k * s.size, r);
  }

  lemma LivePosition(s: Lut, id: nat, d: nat) returns (k: nat, r: nat)
    requires LiveOk(s) && id in s.live && d < s.live[id].len
    ensures s.size > 0
    ensures var m := s.live[id];
            && (Offset(s.size, m) + d) / s.size == m.seg + k && (Offset(s.size, m) + d) % s.size == r
            && k < m.segs && m.base < U64 && m.base + k * s.size + r == m.addr + d
  {
    assert Shaped(s.size, s.live[id]);
    k, r := BytePosition(s.size, s.live[id], d);
  }

  /** An access at byte `d` of the mapping's aperture range reaches byte `d` of its address range. */
  ghost predicate ByteTranslated(s: Lut, m: Mapping, d: nat) {
    s.size > 0 && Lookup(s, Offset(s.size, m) + d) == Some((m.addr + d) % U64)
  }

  /** Every byte of every live mapping is translated to its own address. */
  lemma LookupCorrect(s: Lut, id: nat, d: nat)
    requires Inv(s) && id in s.live && d < s.live[id].len
    ensures ByteTranslated(s, s.live[id], d)
  {
    var m := s.live[id];
    var k, r := LivePosition(s, id, d);
    LiveTarget(s, id, k);
    LookupFromTarget(s, m, Offset(s.size, m) + d, k, r, m.addr + d);
  }

  /** The same at register level, for an address range that does not wrap. */
  lemma SwitchCorrect(s: Lut, id: nat, d: nat)
    requires Inv(s) && id in s.live && d < s.live[id].len && s.live[id].addr + d < U64
    ensures Switch(s.mmio, s.base, s.n, s.size, Offset(s.size, s.live[id]) + d) == Some(s.live[id].addr + d)
  {
    var m := s.live[id];
    LookupCorrect(s, id, d);
    assert ByteTranslated(s, m, d);
    SmallMod(m.addr + d);
    assert Lookup(s, Offset(s.size, m) + d) == Some(m.addr + d);
  }

  lemma SmallMod(a: nat)
    requires a < U64
    ensures a % U64 == a
  {
  }

  lemma NextIsUnused(s: Lut)
    requires Inv(s)
    ensures s.next !in s.live
  {
  }

  // ---------------------------------------------------------------- steps keep the invariant

  lemma CarryMapping(e: seq<Entry>, e': seq<Entry>, size: nat, m: Mapping, h: int)
    requires Within(e, size, m, h)
    requires WellFormed(e') && |e'| == |e|
    requires e'[h].value == e[h].value && e'[h].count == e[h].count && e'[h].counter > 0
    ensures Within(e', size, m, h) && e'[m.seg].start == h
  {
    assert Covers(e', h, m.seg) && MemberOk(e', h, m.seg);
  }

  /** Groups with a user are in the new table as they were in the old one. */
  ghost predicate GroupsKept(e: seq<Entry>, e': seq<Entry>) {
    && |e'| == |e| && WellFormed(e')
    && forall h :: 0 <= h < |e| && e[h].counter > 1 ==>
         e'[h].value == e[h].value && e'[h].count == e[h].count && e'[h].counter > 0
  }

  /** Every live mapping keeps its group from `s` to `t`. */
  lemma CarryAll(s: Lut, t: Lut)
    requires Inv(s) && t.size == s.size && GroupsKept(s.entries, t.entries)
    ensures forall id :: id in s.live ==> MappingOk(t, s.live[id])
    ensures forall id :: id in s.live ==> t.entries[s.live[id].seg].start == s.entries[s.live[id].seg].start
  {
    forall id | id in s.live
      ensures MappingOk(t, s.live[id])
      ensures t.entries[s.live[id].seg].start == s.entries[s.live[id].seg].start
    {
      LiveGroup(s, id);
      CarryMapping(s.entries, t.entries, s.size, s.live[id], s.entries[s.live[id].seg].start);
    }
  }

  /** Same registers, no new cover, same values: the register image stays right. */
  lemma ImagesTransfer(s: Lut, t: Lut)
    requires ImagesOk(s) && t.mmio == s.mmio && t.base == s.base && t.size == s.size
    requires forall h, j :: Covers(t.entries, h, j) ==>
               Covers(s.entries, h, j) && t.entries[h].value == s.entries[h].value
    ensures ImagesOk(t)
  {
    forall h, j | Covers(t.entries, h, j)
      ensures ImageOk(t, h, j)
    {
      assert ImageOk(s, h, j);
    }
  }

  ghost predicate SameOwners(s: Lut, t: Lut) {
    && |t.entries| == |s.entries|
    && forall id :: id in s.live && s.live[id].seg < |s.entries| ==>
         t.entries[s.live[id].seg].start == s.entries[s.live[id].seg].start
  }

  lemma CountsTransfer(s: Lut, t: Lut)
    requires CountsOk(s) && SameOwners(s, t) && t.live == s.live
    requires forall h :: 0 <= h < |t.entries| && t.entries[h].counter > 0 ==>
               t.entries[h].counter == s.entries[h].counter
    ensures CountsOk(t)
  {
    forall h | 0 <= h < |t.entries| && t.entries[h].counter > 0
      ensures t.entries[h].counter == 1 + |Users(t, h)|
    {
      assert Users(t, h) == Users(s, h);
    }
  }

  lemma UsersAfterMap(s: Lut, t: Lut, m: Mapping, h: int, g: int)
    requires SameOwners(s, t) && s.next !in s.live && t.live == s.live[s.next := m]
    requires m.seg < |t.entries| && t.entries[m.seg].start == h
    ensures |Users(t, g)| == |Users(s, g)| + if g == h then 1 else 0
  {
    if g == h { assert Users(t, g) == Users(s, g) + {s.next}; } else { assert Users(t, g) == Users(s, g); }
  }

  lemma ReclaimKeepsTable(e: seq<Entry>, size: nat)
    requires size > 0 && TableOk(e, size)
    ensures var r := Reclaimed(e);
            && TableOk(r, size) && GroupsKept(e, r)
            && forall h :: 0 <= h < |e| && r[h].counter > 0 ==> r[h] == e[h]
  {
    var r := Reclaimed(e);
    ReclaimWellFormed(e);
    forall h | 0 <= h < |e|
      ensures r[h].counter > 0 ==> r[h] == e[h]
      ensures e[h].counter > 1 ==> r[h] == e[h]
      ensures HeadValueOk(r, size, h)
    {
      CounterMarksHead(e, h);
      assert HeadValueOk(e, size, h);
    }
  }

  lemma FailedMapKeepsInv(s: Lut)
    requires Inv(s)
    ensures Inv(s.(entries := Reclaimed(s.entries)))
  {
    var t := s.(entries := Reclaimed(s.entries));
    ReclaimKeepsTable(s.entries, s.size);
    ReclaimFrees(s.entries);
    CarryAll(s, t);
    ImagesTransfer(s, t);
    CountsTransfer(s, t);
  }

  lemma ExactDiv(a: nat, b: nat, size: nat)
    requires size > 0 && a >= b && a % size == 0 && b % size == 0
    ensures b + ((a - b) / size) * size == a
  {
    var x, y := a / size, b / size;
    assert a == x * size && b == y * size;
    assert a - b == (x - y) * size;
    UniqueMod(a - b, size, x - y, 0);
  }

  lemma BaseAligned(size: nat, addr: nat)
    requires size > 0
    ensures Base(size, addr) % size == 0
  {
    assert addr == (addr / size) * size + addr % size;
    UniqueMod(Base(size, addr), size, addr / size, 0);
  }

  /** A request embedded in group `h` finds its base address at the reused position. */
  lemma ReusedPosition(e: seq<Entry>, size: nat, h: nat, addr: nat, segs: nat)
    requires size > 0 && addr < U64 && segs > 0 && h < |e| && HeadOk(e, h) && HeadValueOk(e, size, h)
    requires Embeds(e, size, h, Base(size, addr), segs)
    ensures var idx := (Base(size, addr) - e[h].value) / size;
            && Covers(e, h, h + idx) && h + idx + segs <= h + e[h].count
            && Nth(e[h].value, idx, size) == Base(size, addr)
  {
    var base := Base(size, addr);
    var idx := (base - e[h].value) / size;
    BaseAligned(size, addr);
    ExactDiv(base, e[h].value, size);
    NthIsSum(e[h].value, idx, size);
  }

  /** What any successful map needs to keep the invariant. */
  lemma MapKeepsInvIf(s: Lut, t: Lut, m: Mapping, h: int)
    requires Inv(s)
    requires t == s.(entries := t.entries, mmio := t.mmio, live := s.live[s.next := m], next := s.next + 1)
    requires GroupsKept(s.entries, t.entries) && TableOk(t.entries, s.size) && ImagesOk(t)
    requires Shaped(s.size, m) && MappingOk(t, m) && t.entries[m.seg].start == h
    requires forall g :: 0 <= g < |t.entries| && t.entries[g].counter > 0 ==>
                         t.entries[g].counter == 1 + |Users(s, g)| + if g == h then 1 else 0
    ensures Inv(t)
  {
    CarryAll(s, t);
    forall g | 0 <= g < |t.entries| && t.entries[g].counter > 0
      ensures t.entries[g].counter == 1 + |Users(t, g)|
    {
      UsersAfterMap(s, t, m, h, g);
    }
  }

  lemma RecountKeepsTable(e: seq<Entry>, size: nat, h: nat, c: nat)
    requires size > 0 && TableOk(e, size) && h < |e| && e[h].counter > 0 && 0 < c < U16
    ensures var e' := e[h := e[h].(counter := c)];
            && TableOk(e', size) && GroupsKept(e, e')
            && forall g, j :: Covers(e', g, j) <==> Covers(e, g, j)
  {
    var e' := e[h := e[h].(counter := c)];
    RecountWellFormed(e, h, c);
    forall g | 0 <= g < |e'| ensures HeadValueOk(e', size, g) { assert HeadValueOk(e, size, g); }
  }

  lemma ReuseKeepsInv(s: Lut, t: Lut, m: Mapping, h: nat)
    requires Inv(s) && Shaped(s.size, m) && h < s.n && s.entries[h].counter < U16 - 1
    requires t == s.(entries := s.entries[h := s.entries[h].(counter := s.entries[h].counter + 1)],
                     live := s.live[s.next := m], next := s.next + 1)
    requires Within(s.entries, s.size, m, h)
    ensures Inv(t)
  {
    RecountKeepsTable(s.entries, s.size, h, s.entries[h].counter + 1);
    assert Covers(t.entries, h, m.seg) && MemberOk(t.entries, h, m.seg);
    ImagesTransfer(s, t);
    MapKeepsInvIf(s, t, m, h);
  }

  /** Programming the new group's registers leaves the image of every other group intact. */
  lemma PlaceKeepsImages(s: Lut, t: Lut, id: nat, num: nat, a: nat)
    requires ImagesOk(s) && WellFormed(t.entries) && t.base == s.base && t.size == s.size
    requires id + num <= |t.entries| <= 256 && num > 0 && a < U64
    requires t.entries[id] == Entry(a, 2, num, id)
    requires forall h, j :: Covers(t.entries, h, j) && h != id ==>
               Covers(s.entries, h, j) && t.entries[h] == s.entries[h]
    requires t.mmio == Program(s.mmio, s.base, id, num, a, s.size)
    ensures ImagesOk(t)
  {
    forall h, j | Covers(t.entries, h, j)
      ensures ImageOk(t, h, j)
    {
      ProgramEffect(s.mmio, s.base, id, num, a, s.size, j);
      PlacedImage(s, t, id, num, h, j);
    }
  }

  lemma PlacedImage(s: Lut, t: Lut, id: nat, num: nat, h: int, j: int)
    requires ImagesOk(s) && WellFormed(t.entries) && t.base == s.base && t.size == s.size
    requires Covers(t.entries, h, j) && id < |t.entries| && t.entries[id].counter > 0 && t.entries[id].count == num
    requires h == id ==> id <= j < id + num
    requires h != id ==> Covers(s.entries, h, j) && t.entries[h] == s.entries[h]
    requires if id <= j < id + num then
               Target(t.mmio, s.base, j) == Nth(t.entries[id].value, j - id, s.size) &&
                 Permission(t.mmio, s.base, j) == READ_WRITE
             else Target(t.mmio, s.base, j) == Target(s.mmio, s.base, j) &&
                  Permission(t.mmio, s.base, j) == Permission(s.mmio, s.base, j)
    ensures ImageOk(t, h, j)
  {
    assert MemberOk(t.entries, h, j);
    assert id <= j < id + num ==> Covers(t.entries, id, j) && MemberOk(t.entries, id, j);
    if h != id {
      assert ImageOk(s, h, j);
    }
  }

  lemma PlaceKeepsTable(e: seq<Entry>, size: nat, addr: nat, len: nat)
    requires size > 0 && TableOk(e, size) && addr < U64
    requires AddSpec(e, size, addr, len).rc == Ok
    ensures var r := AddSpec(e, size, addr, len);
            && TableOk(r.entries, size) && GroupsKept(e, r.entries)
            && (forall h :: 0 <= h < |e| && r.entries[h].counter > 0 && h != r.id ==> r.entries[h] == e[h])
  {
    var r := AddSpec(e, size, addr, len);
    NewGroupTakesNothingLive(e, size, addr, len);
    BaseAligned(size, addr);
    forall h | 0 <= h < |e| && r.entries[h].counter > 0
      ensures h == r.id || r.entries[h] == e[h]
      ensures HeadValueOk(r.entries, size, h)
    {
      CounterMarksHead(r.entries, h);
      assert HeadValueOk(e, size, h);
    }
  }

  lemma PlaceKeepsInv(s: Lut, addr: nat, len: nat)
    requires Inv(s) && addr < U64
    requires AddSpec(s.entries, s.size, addr, len).rc == Ok
    ensures Inv(MapSpec(s, addr, len).0)
  {
    var r, t := AddSpec(s.entries, s.size, addr, len), MapSpec(s, addr, len).0;
    NewGroupTakesNothingLive(s.entries, s.size, addr, len);
    PlaceKeepsTable(s.entries, s.size, addr, len);
    PlaceKeepsImages(s, t, r.id, r.num, Base(s.size, addr));
    assert Covers(t.entries, r.id, r.id) && MemberOk(t.entries, r.id, r.id);
    forall id | id in s.live ensures s.entries[s.live[id].seg].start != r.id { LiveGroup(s, id); }
    assert Users(s, r.id) == {};
    MapKeepsInvIf(s, t, t.live[s.next], r.id);
  }

  /** The request does not push the counter of the group it reuses past 16 bits. */
  ghost predicate NoOverflow(s: Lut, addr: nat, len: nat)
    requires s.size > 0
  {
    var h := FirstGroup(s.entries, s.size, Base(s.size, addr), Segments(s.size, addr, len), 0);
    0 < len <= s.size * |s.entries| && h < |s.entries| ==> s.entries[h].counter < U16 - 1
  }

  /** With fewer than 65534 live mappings no counter can overflow. */
  lemma FewLiveNoOverflow(s: Lut, addr: nat, len: nat)
    requires Inv(s) && |s.live| < U16 - 2
    ensures NoOverflow(s, addr, len)
  {
    var h := FirstGroup(s.entries, s.size, Base(s.size, addr), Segments(s.size, addr, len), 0);
    if h < |s.entries| && s.entries[h].counter > 0 {
      SubsetSize(Users(s, h), s.live.Keys);
    }
  }

  lemma AddReuses(e: seq<Entry>, size: nat, addr: nat, len: nat) returns (h: nat, seg: nat)
    requires size > 0 && addr < U64 && TableOk(e, size)
    requires AddSpec(e, size, addr, len).rc == Exists
    ensures h == FirstGroup(e, size, Base(size, addr), Segments(size, addr, len), 0) < |e|
    ensures e[h].counter < U16 - 1 ==>
              AddSpec(e, size, addr, len) ==
              AddResult(e[h := e[h].(counter := e[h].counter + 1)], Exists, seg, Segments(size, addr, len))
    ensures len > 0 && Within(e, size, NewMapping(size, seg, addr, len), h)
  {
    var base, segs := Base(size, addr), Segments(size, addr, len);
    h := FirstGroup(e, size, base, segs, 0);
    seg := h + (base - e[h].value) / size;
    SegmentsPositive(size, addr, len);
    assert HeadOk(e, h) && HeadValueOk(e, size, h);
    ReusedPosition(e, size, h, addr, segs);
  }

  /** The mapping that a reusing request makes, and the group it lies in. */
  lemma ReuseShape(s: Lut, addr: nat, len: nat) returns (m: Mapping, h: nat)
    requires Inv(s) && addr < U64 && NoOverflow(s, addr, len)
    requires AddSpec(s.entries, s.size, addr, len).rc == Exists
    ensures h < s.n && s.entries[h].counter < U16 - 1
    ensures Shaped(s.size, m) && Within(s.entries, s.size, m, h)
    ensures MapSpec(s, addr, len).0 ==
            s.(entries := s.entries[h := s.entries[h].(counter := s.entries[h].counter + 1)],
               live := s.live[s.next := m], next := s.next + 1)
  {
    var seg;
    h, seg := AddReuses(s.entries, s.size, addr, len);
    m := NewMapping(s.size, seg, addr, len);
  }

  lemma MapKeepsInv(s: Lut, addr: nat, len: nat)
    requires Inv(s) && addr < U64 && NoOverflow(s, addr, len)
    ensures Inv(MapSpec(s, addr, len).0)
  {
    var r := AddSpec(s.entries, s.size, addr, len);
    if r.rc == Ok {
      PlaceKeepsInv(s, addr, len);
    } else if r.rc == Exists {
      var m, h := ReuseShape(s, addr, len);
      ReuseKeepsInv(s, MapSpec(s, addr, len).0, m, h);
    } else if r.entries != s.entries {
      FailedMapKeepsInv(s);
    }
  }

  /** Releasing a live mapping finds its own group, whose counter stays above 0: the driver's
      BUG_ON is unreachable and no permission register is cleared. */
  lemma UnmapKeepsInv(s: Lut, id: nat)
    requires Inv(s) && id in s.live
    ensures Deletable(s.entries, s.live[id].seg) && !Free(s.entries, s.live[id].seg)
    ensures s.entries[s.entries[s.live[id].seg].start].counter > 1
    ensures Inv(UnmapSpec(s, id))
  {
    LiveGroup(s, id);
    var e, h := s.entries, s.entries[s.live[id].seg].start;
    DelKeepsWellFormed(e, s.live[id].seg);
    var t := UnmapSpec(s, id);
    RecountKeepsTable(e, s.size, h, e[h].counter - 1);
    CarryAll(s, t);
    ImagesTransfer(s, t);
    forall g | 0 <= g < |e| && t.entries[g].counter > 0
      ensures t.entries[g].counter == 1 + |Users(t, g)|
    {
      UsersAfterUnmap(s, t, id, g);
    }
  }

  lemma UsersAfterUnmap(s: Lut, t: Lut, id: nat, g: int)
    requires SameOwners(s, t) && id in s.live && t.live == s.live - {id} && s.live[id].seg < |s.entries|
    ensures |Users(t, g)| == |Users(s, g)| - if g == s.entries[s.live[id].seg].start then 1 else 0
  {
    if g == s.entries[s.live[id].seg].start {
      assert Users(t, g) == Users(s, g) - {id};
    } else {
      assert Users(t, g) == Users(s, g);
    }
  }

  // ---------------------------------------------------------------- runs

  datatype Op = Map(addr: nat, len: nat) | Unmap(id: nat)

  ghost predicate Enabled(s: Lut, op: Op)
    requires Inv(s)
  {
    match op
    case Map(addr, len) => addr < U64 && NoOverflow(s, addr, len)
    case Unmap(id) => id in s.live
  }

  ghost function Step(s: Lut, op: Op): (t: Lut)
    requires Inv(s) && Enabled(s, op)
    ensures Inv(t)
  {
    match op
    case Map(addr, len) => MapKeepsInv(s, addr, len); MapSpec(s, addr, len).0
    case Unmap(id) => UnmapKeepsInv(s, id); UnmapSpec(s, id)
  }

  ghost predicate Legal(s: Lut, ops: seq<Op>)
    requires Inv(s)
    decreases |ops|
  {
    ops == [] || (Enabled(s, ops[0]) && Legal(Step(s, ops[0]), ops[1..]))
  }

  /** Every state of a legal run satisfies the invariant: the table is well-formed, each counter
      is 1 plus the live mappings of its group, and the registers translate every group. */
  ghost function Run(s: Lut, ops: seq<Op>): (t: Lut)
    requires Inv(s) && Legal(s, ops)
    ensures Inv(t)
    decreases |ops|
  {
    if ops == [] then s else Run(Step(s, ops[0]), ops[1..])
  }

  lemma StepKeepsMapping(s: Lut, op: Op, id: nat)
    requires Inv(s) && Enabled(s, op) && id in s.live && op != Unmap(id)
    ensures var t := Step(s, op); t.size == s.size && id in t.live && t.live[id] == s.live[id]
  {
    assert id < s.next;
  }

  lemma {:induction false} MappingSurvives(s: Lut, ops: seq<Op>, id: nat)
    requires Inv(s) && Legal(s, ops) && id in s.live && Unmap(id) !in ops
    ensures var t := Run(s, ops); t.size == s.size && id in t.live && t.live[id] == s.live[id]
    decreases |ops|
  {
    if ops != [] {
      assert ops[0] in ops;
      StepKeepsMapping(s, ops[0], id);
      MappingSurvives(Step(s, ops[0]), ops[1..], id);
    }
  }

  /** A freshly initialised table over registers with any contents. */
  ghost predicate Initial(s: Lut): (b: bool)
    ensures b ==> Inv(s)
  {
    && Geometry(s.n, s.size) && |s.entries| == s.n && s.size > 0
    && (forall j :: 0 <= j < s.n ==> s.entries[j] == EMPTY)
    && s.live == map[]
  }

  /** Without live mappings every group is unused, so a request is accepted exactly when its
      segments fit in the aperture, whatever groups are still cached. */
  lemma NoLiveAccepts(s: Lut, addr: nat, len: nat)
    requires Inv(s) && s.live == map[]
    ensures MapSpec(s, addr, len).1 <==> 0 < len <= s.size * s.n && Segments(s.size, addr, len) <= s.n
  {
    forall h | 0 <= h < |s.entries| ensures s.entries[h].counter <= 1 {
      if s.entries[h].counter > 0 { assert Users(s, h) == {}; }
    }
    UnusedAccepts(s.entries, s.size, addr, len);
  }

  /** A request whose bytes a group already translates is accepted without touching a register. */
  lemma ReuseWritesNothing(s: Lut, addr: nat, len: nat, h: nat)
    requires Inv(s) && 0 < len <= s.size * s.n && h < s.n && Contains(s.entries, s.size, h, addr, len)
    ensures MapSpec(s, addr, len).1 && MapSpec(s, addr, len).0.mmio == s.mmio
  {
    forall g | 0 <= g < |s.entries| && s.entries[g].counter > 0 ensures s.entries[g].value % s.size == 0 {
      assert HeadValueOk(s.entries, s.size, g);
    }
    ReusedExactly(s.entries, s.size, addr, len);
  }

  lemma MapMakesLive(s: Lut, addr: nat, len: nat)
    requires Inv(s) && addr < U64 && NoOverflow(s, addr, len) && MapSpec(s, addr, len).1
    ensures var t := Step(s, Map(addr, len));
            && s.next in t.live && t.size == s.size
            && t.live[s.next].addr == addr && t.live[s.next].len == len
  {
  }

  /** The main result. Whatever happened before a map and whatever happens after it, short of its
      own unmap, the switch translates every byte of the mapping to the address that was asked for. */
  lemma MappedBytesStayMapped(s0: Lut, before: seq<Op>, s: Lut, addr: nat, len: nat, t: Lut, after: seq<Op>, d: nat)
    requires Initial(s0) && Legal(s0, before) && s == Run(s0, before)
    requires addr < U64 && d < len && NoOverflow(s, addr, len) && MapSpec(s, addr, len).1
    requires t == Step(s, Map(addr, len)) && Legal(t, after) && Unmap(s.next) !in after
    ensures s.next in t.live
    ensures t.live[s.next].addr == addr && ByteTranslated(Run(t, after), t.live[s.next], d)
  {
    MapMakesLive(s, addr, len);
    MappingSurvives(t, after, s.next);
    LookupCorrect(Run(t, after), s.next, d);
  }

  // ---------------------------------------------------------------- the device

  class Device {
    const alm: Manager
    const aLut: bool
    const arrayBase: nat
    var mmio: Mmio
    ghost var live: map<nat, Mapping>
    ghost var next: nat

    ghost function Model(): Lut
      reads this, alm, alm.entries
    {
      Lut(alm.segmentsNum, alm.segmentSize, arrayBase, alm.entries[..], mmio, live, next)
    }

    ghost predicate Valid()
      reads this, alm, alm.entries
    {
      Inv(Model())
    }

    constructor (numNtbs: nat, aperLen: nat, aLut: bool, arrayBase: nat, mmio: Mmio)
      requires numNtbs == 1 || numNtbs == 2
      requires IsPow2(aperLen) && 256 <= aperLen < U64
      ensures Valid() && Initial(Model()) && fresh(alm) && fresh(alm.entries)
      ensures alm.segmentsNum * alm.segmentSize == aperLen && this.mmio == mmio
    {
      alm := new Manager(numNtbs, aperLen);
      this.aLut, this.arrayBase, this.mmio := aLut, arrayBase, mmio;
      live, next := map[], 0;
      new;
      SizeSmall(alm.segmentsNum, alm.segmentSize);
    }

    /** plx_add_a_lut_entry. */
    method AddAlutEntry(addr: nat, size: nat) returns (out: Option<nat>)
      requires Valid() && addr < U64 && size < U64 && NoOverflow(Model(), addr, size)
      modifies this, alm.entries
      ensures alm.entries == old(alm.entries)
      ensures Model() == MapSpec(old(Model()), addr, size).0
      ensures out.Some? <==> MapSpec(old(Model()), addr, size).1
      ensures out.Some? ==> old(next) in live && out.value == Offset(alm.segmentSize, live[old(next)])
    {
      ghost var s := Model();
      var addrMasked, rem := Masks(addr);
      var err, id, num, _ := alm.AddEntry(addr, size);
      if err == NoMemory {
        assert Model() == MapSpec(s, addr, size).0;
        return None;
      }
      if err == Ok {
        ProgramEntries(id, num, addrMasked);
      }
      live, next := live[next := NewMapping(alm.segmentSize, id, addr, size)], next + 1;
      assert Model() == MapSpec(s, addr, size).0;
      var offset := SegmentAddress(id, rem);
      out := Some(offset);
    }

    method SegmentAddress(id: nat, rem: nat) returns (o: nat)
      ensures o == id * alm.segmentSize + rem
    {
      o := id * alm.segmentSize + rem;
    }

    method Masks(addr: nat) returns (addrMasked: nat, rem: nat)
      requires Geometry(alm.segmentsNum, alm.segmentSize) && alm.segmentSize > 0 && addr < U64
      ensures addrMasked == Base(alm.segmentSize, addr) && rem == addr % alm.segmentSize
    {
      SizeSmall(alm.segmentsNum, alm.segmentSize);
      MaskSplit(addr, alm.segmentSize);
      addrMasked := And(addr, U64 - alm.segmentSize);
      rem := And(addr, alm.segmentSize - 1);
    }

    method ProgramEntries(id: nat, num: nat, addrMasked: nat)
      modifies this`mmio
      ensures mmio == Program(old(mmio), arrayBase, id, num, addrMasked, alm.segmentSize)
    {
      var i, a := id, addrMasked;
      while i < id + num
        invariant id <= i <= id + num && a == Nth(addrMasked, i - id, alm.segmentSize)
        invariant mmio == Program(old(mmio), arrayBase, id, i - id, addrMasked, alm.segmentSize)
      {
        var entry := arrayBase + EntryOffset(i);
        mmio := mmio[entry + HIGHER := a / U32];
        mmio := mmio[entry + LOWER := a % U32];
        mmio := mmio[entry + PERMISSION := READ_WRITE];
        a := (a + alm.segmentSize) % U64;
        i := i + 1;
      }
    }

    /** plx_del_a_lut_entry, for a segment that some group covers. */
    method DelAlutEntry(addr: nat)
      requires alm.segmentSize > 0 && alm.entries.Length == alm.segmentsNum
      requires addr / alm.segmentSize < alm.segmentsNum ==> Deletable(alm.entries[..], addr / alm.segmentSize)
      modifies this`mmio, alm.entries
      ensures addr / alm.segmentSize >= alm.segmentsNum ==> alm.entries[..] == old(alm.entries[..]) && mmio == old(mmio)
      ensures addr / alm.segmentSize < alm.segmentsNum ==>
        var e, h := old(alm.entries[..]), old(alm.entries[addr / alm.segmentSize].start);
        && alm.entries[..] == DelSpec(e, addr / alm.segmentSize)
        && mmio == if e[h].counter == 1 then Revoke(old(mmio), arrayBase, h, e[h].count) else old(mmio)
    {
      var segment := addr / alm.segmentSize;
      if addr >= alm.segmentsNum * alm.segmentSize {
        OutOfAperture(addr, alm.segmentsNum, alm.segmentSize);
        return;
      }
      DivBounds(addr, alm.segmentSize, 0, alm.segmentsNum);
      var start, num := alm.DelEntry(segment);
      var i := start;
      while i < start + num
        modifies this`mmio
        invariant start <= i <= start + num && mmio == Revoke(old(mmio), arrayBase, start, i - start)
      {
        mmio := mmio[arrayBase + EntryOffset(i) + PERMISSION := 0];
        i := i + 1;
      }
    }

    /** plx_ioremap: the offset from the start of the aperture, or nothing. */
    method Ioremap(pa: nat, len: nat) returns (off: Option<nat>)
      requires Valid() && pa < U64 && len < U64 && NoOverflow(Model(), pa, len)
      modifies this, alm.entries
      ensures Valid() && alm.entries == old(alm.entries)
      ensures !aLut ==> off == Some(pa) && Model() == old(Model())
      ensures aLut ==> Model() == MapSpec(old(Model()), pa, len).0 && (off.Some? <==> MapSpec(old(Model()), pa, len).1)
      ensures aLut && off.Some? ==>
                && old(next) in live && live == old(live)[old(next) := live[old(next)]]
                && off.value == Offset(alm.segmentSize, live[old(next)])
                && live[old(next)].addr == pa && live[old(next)].len == len
      ensures aLut && off.None? ==> live == old(live)
    {
      off := Some(pa);
      if aLut {
        MapKeepsInv(Model(), pa, len);
        off := AddAlutEntry(pa, len);
      }
    }

    /** plx_iounmap of the mapping with serial number `id`. */
    method Iounmap(off: nat, ghost id: nat)
      requires Valid()
      requires aLut ==> id in live && off == Offset(alm.segmentSize, live[id])
      modifies this, alm.entries
      ensures Valid() && alm.entries == old(alm.entries)
      ensures !aLut ==> Model() == old(Model())
      ensures aLut ==> live == old(live) - {id} && next == old(next) && mmio == old(mmio)
      ensures aLut ==> old(Deletable(alm.entries[..], live[id].seg)) && Model() == UnmapSpec(old(Model()), id)
    {
      if aLut {
        UnmapKeepsInv(Model(), id);
        OffsetSegment(Model(), id);
        DelAlutEntry(off);
        live := live - {id};
      }
    }
  }

  lemma OutOfAperture(addr: nat, n: nat, size: nat)
    requires size > 0 && addr >= n * size
    ensures addr / size >= n
  {
    MulMonotone(1, size, addr + 1);
    DivBounds(addr, size, n, addr + 1);
  }

  lemma OffsetSegment(s: Lut, id: nat)
    requires LiveOk(s) && id in s.live
    ensures s.size > 0 && Offset(s.size, s.live[id]) / s.size == s.live[id].seg < |s.entries|
  {
    var m := s.live[id];
    assert Shaped(s.size, m) && MappingOk(s, m);
    UniqueMod(Offset(s.size, m), s.size, m.seg, m.rem);
  }
}
