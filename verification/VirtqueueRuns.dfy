/**
 Whole runs of a virtqueue: what an arbitrary device can and cannot make the driver do, and what
 driver and device achieve together when the device follows the protocol.
 */
module VirtqueueRuns {
  import opened Bits
  import opened VirtqueueSpec
  import opened Wrappers
  import VirtqueueProtocol

  // ---------------------------------------------------------------- any device at all

  /** A driver call, with everything that the device and the allocator decide about it. */
  datatype Call =
    | AddBuf(buf: seq<Piece>, token: Token, table: Option<nat>, needed: bool, notifyOk: bool)
    | GetBuf(usedIdx: nat, id: nat)
    | DetachUnusedBuf(h: nat)
    | KickQueue(kickNeeded: bool, kickOk: bool)
    | Callbacks(noInterrupt: bool, event: nat)

  /** Where an added buffer is now: in the queue, or the `i`-th to have been handed back. */
  datatype Fate = Held(head: nat) | Back(i: nat)

  /** `added` and `handed` are the tokens given to and taken from the queue; `out[i]` is the serial
      number of the buffer whose token was the `i`-th to be handed back. */
  datatype Ledger = Ledger(q: Queue, added: seq<Token>, handed: seq<Token>, out: seq<nat>, fate: seq<Fate>)

  ghost predicate AddOk(q: Queue, buf: seq<Piece>, table: Option<nat>) {
    !q.broken && |buf| > 0 && Used(buf, table) <= |q.free|
  }

  /** Calls that fail their checks leave the ledger as it is. */
  ghost function Apply(l: Ledger, c: Call): Ledger
    requires Inv(l.q)
  {
    match c
    case AddBuf(buf, token, table, needed, ok) =>
      if !AddOk(l.q, buf, table) then l
      else l.(q := Add(l.q, buf, token, table, needed, ok), added := l.added + [token],
              fate := l.fate + [Held(l.q.free[0])])
    case GetBuf(usedIdx, id) =>
      var r := Get(l.q, usedIdx, id);
      if r.1.None? then l.(q := r.0) else HandBack(l, r.0, id, r.1.value)
    case DetachUnusedBuf(h) =>
      if !IsLowest(l.q, h) then l else HandBack(l, DetachUnused(l.q, h), h, l.q.chains[h].token)
    case KickQueue(needed, ok) => l.(q := Kick(l.q, needed, ok))
    case Callbacks(noInterrupt, event) =>
      if event < U16 then l.(q := l.q.(noInterrupt := noInterrupt, usedEvent := event)) else l
  }

  ghost function HandBack(l: Ledger, q: Queue, h: nat, token: Token): Ledger
    requires h in l.q.chains
  {
    var s := l.q.chains[h].serial;
    l.(q := q, handed := l.handed + [token], out := l.out + [s],
       fate := if s < |l.fate| then l.fate[s := Back(|l.out|)] else l.fate)
  }

  ghost predicate FateOk(l: Ledger, s: nat)
    requires s < |l.fate|
  {
    match l.fate[s]
    case Held(h) => h in l.q.chains && l.q.chains[h].serial == s
    case Back(i) => i < |l.out| && l.out[i] == s
  }

  ghost predicate HeldOk(l: Ledger, h: nat)
    requires h in l.q.chains
  {
    var c := l.q.chains[h];
    c.serial < |l.added| == |l.fate| && l.added[c.serial] == c.token && l.fate[c.serial] == Held(h)
  }

  ghost predicate BackOk(l: Ledger, i: nat)
    requires i < |l.out| == |l.handed|
  {
    l.out[i] < |l.added| == |l.fate| && l.handed[i] == l.added[l.out[i]] && l.fate[l.out[i]] == Back(i)
  }

  ghost predicate LedgerInv(l: Ledger) {
    && Inv(l.q) && Settled(l.q)
    && |l.added| == |l.fate| == l.q.serial && |l.out| == |l.handed|
    && (forall s :: 0 <= s < |l.fate| ==> FateOk(l, s))
    && (forall h :: h in l.q.chains ==> HeldOk(l, h))
    && (forall i :: 0 <= i < |l.out| ==> BackOk(l, i))
  }

  lemma HandBackKeepsLedger(l: Ledger, q: Queue, h: nat)
    requires LedgerInv(l) && h in l.q.chains && Inv(q) && Settled(q)
    requires q.chains == l.q.chains - {h} && q.serial == l.q.serial
    ensures LedgerInv(HandBack(l, q, h, l.q.chains[h].token))
  {
    var m := HandBack(l, q, h, l.q.chains[h].token);
    assert HeldOk(l, h);
    forall s | 0 <= s < |m.fate| ensures FateOk(m, s) { assert FateOk(l, s); }
    forall g | g in m.q.chains ensures HeldOk(m, g) { assert HeldOk(l, g); }
    forall i | 0 <= i < |m.out| ensures BackOk(m, i) { if i < |l.out| { assert BackOk(l, i); } }
  }

  lemma SameChainsKeepLedger(l: Ledger, q: Queue)
    requires LedgerInv(l) && Inv(q) && Settled(q) && q.chains == l.q.chains && q.serial == l.q.serial
    ensures LedgerInv(l.(q := q))
  {
    var m := l.(q := q);
    forall s | 0 <= s < |m.fate| ensures FateOk(m, s) { assert FateOk(l, s); }
    forall g | g in m.q.chains ensures HeldOk(m, g) { assert HeldOk(l, g); }
    forall i | 0 <= i < |m.out| ensures BackOk(m, i) { assert BackOk(l, i); }
  }

  lemma AddKeepsLedger(l: Ledger, c: Call)
    requires LedgerInv(l) && c.AddBuf? && AddOk(l.q, c.buf, c.table)
    ensures LedgerInv(Apply(l, c))
  {
    var m := Apply(l, c);
    AddKeepsInv(l.q, c.buf, c.token, c.table, c.needed, c.notifyOk);
    AttachKeepsPartition(l.q, c.buf, c.token, c.table);
    forall s | 0 <= s < |m.fate| ensures FateOk(m, s) { if s < |l.fate| { assert FateOk(l, s); } }
    forall g | g in m.q.chains ensures HeldOk(m, g) { if g in l.q.chains { assert HeldOk(l, g); } }
    forall i | 0 <= i < |m.out| ensures BackOk(m, i) { assert BackOk(l, i); }
  }

  lemma ApplyKeepsLedger(l: Ledger, c: Call)
    requires LedgerInv(l)
    ensures LedgerInv(Apply(l, c))
  {
    match c
    case AddBuf(buf, token, table, needed, ok) =>
      if AddOk(l.q, buf, table) { AddKeepsLedger(l, c); }
    case GetBuf(usedIdx, id) =>
      var r := Get(l.q, usedIdx, id);
      GetKeepsInv(l.q, usedIdx, id);
      if r.1.Some? { HandBackKeepsLedger(l, r.0, id); } else { SameChainsKeepLedger(l, r.0); }
    case DetachUnusedBuf(h) =>
      if IsLowest(l.q, h) {
        var r := DetachUnused(l.q, h);
        DetachKeepsPartition(l.q, h);
        SamePartition(Detach(l.q, h), r);
        HandBackKeepsLedger(l, r, h);
      }
    case KickQueue(needed, ok) =>
      var r := Kick(l.q, needed, ok);
      SamePartition(l.q, r);
      SameChainsKeepLedger(l, r);
    case Callbacks(noInterrupt, event) =>
      if event < U16 {
        var r := l.q.(noInterrupt := noInterrupt, usedEvent := event);
        SamePartition(l.q, r);
        SameChainsKeepLedger(l, r);
      }
  }

  /** Every sequence of driver calls, with any device behaviour, ends in a state whose descriptors
      are partitioned and whose ledger balances. */
  ghost function RunCalls(l: Ledger, calls: seq<Call>): (m: Ledger)
    requires LedgerInv(l)
    ensures LedgerInv(m)
    decreases |calls|
  {
    if calls == [] then l else ApplyKeepsLedger(l, calls[0]); RunCalls(Apply(l, calls[0]), calls[1..])
  }

  /** The account of a new queue. */
  ghost function Opening(num: nat, noInterrupt: bool): (l: Ledger)
    requires IsPow2(num) && num <= 32768
    ensures LedgerInv(l)
  {
    FreshInv(num, noInterrupt);
    Ledger(Fresh(num, noInterrupt), [], [], [], [])
  }

  /** No buffer is handed back twice, what is handed back is the token that was added, and every
      added buffer is either outstanding or was handed back: nothing is lost or invented. */
  lemma BuffersAreConserved(num: nat, noInterrupt: bool, calls: seq<Call>)
    requires IsPow2(num) && num <= 32768
    ensures
      var m := RunCalls(Opening(num, noInterrupt), calls);
      && |m.out| == |m.handed|
      && (forall i, j :: 0 <= i < j < |m.out| ==> m.out[i] != m.out[j])
      && (forall i :: 0 <= i < |m.out| ==> m.out[i] < |m.added| && m.handed[i] == m.added[m.out[i]])
      && (forall i, h :: 0 <= i < |m.out| && h in m.q.chains ==> m.out[i] != m.q.chains[h].serial)
      && (forall s: nat :: s < |m.added| <==> s in m.out || exists h :: h in m.q.chains && m.q.chains[h].serial == s)
      && |m.added| == |m.handed| + |m.q.chains|
  {
    var m := RunCalls(Opening(num, noInterrupt), calls);
    LedgerMeaning(m);
    LedgerCount(m);
  }

  /** The calls take effect: a buffer that fits goes in, and the token of an outstanding head comes back. */
  lemma CallsTakeEffect(l: Ledger, c: Call)
    requires LedgerInv(l)
    ensures c.AddBuf? && !l.q.broken && 0 < |c.buf| && (if c.table.Some? then 1 else |c.buf|) <= |l.q.free| ==>
              Apply(l, c).added == l.added + [c.token] && |Apply(l, c).q.chains| == |l.q.chains| + 1
    ensures c.GetBuf? && !l.q.broken && c.usedIdx != l.q.lastUsed && c.id in l.q.chains ==>
              Apply(l, c).handed == l.handed + [l.q.chains[c.id].token] && !Apply(l, c).q.broken
    ensures c.GetBuf? && !l.q.broken && c.usedIdx != l.q.lastUsed && c.id !in l.q.chains ==> Apply(l, c).q.broken
    ensures c.DetachUnusedBuf? && IsLowest(l.q, c.h) ==>
              Apply(l, c).handed == l.handed + [l.q.chains[c.h].token]
  {
    ApplyKeepsLedger(l, c);
    LedgerCount(l);
    LedgerCount(Apply(l, c));
  }

  /** On a new queue every buffer of 1 to `num` pieces goes in. */
  lemma NewQueueAccepts(num: nat, noInterrupt: bool, c: Call)
    requires IsPow2(num) && num <= 32768 && c.AddBuf? && 0 < |c.buf| <= num
    ensures Apply(Opening(num, noInterrupt), c).added == [c.token]
  {
    CallsTakeEffect(Opening(num, noInterrupt), c);
  }

  /** Once broken, a queue stays broken through every sequence of calls: it takes no buffer, and
      hands none back except those that are withdrawn at shutdown. */
  lemma {:induction false} BrokenForGood(l: Ledger, calls: seq<Call>)
    requires LedgerInv(l) && l.q.broken
    ensures var m := RunCalls(l, calls);
            && m.q.broken && m.added == l.added
            && ((forall i :: 0 <= i < |calls| ==> !calls[i].DetachUnusedBuf?) ==>
                  m.handed == l.handed && m.q.free == l.q.free && m.q.chains == l.q.chains)
    decreases |calls|
  {
    if calls != [] {
      ApplyKeepsLedger(l, calls[0]);
      BrokenForGood(Apply(l, calls[0]), calls[1..]);
    }
  }

  lemma LedgerMeaning(m: Ledger)
    requires LedgerInv(m)
    ensures forall i, j :: 0 <= i < j < |m.out| ==> m.out[i] != m.out[j]
    ensures forall i :: 0 <= i < |m.out| ==> m.out[i] < |m.added| && m.handed[i] == m.added[m.out[i]]
    ensures forall i, h :: 0 <= i < |m.out| && h in m.q.chains ==> m.out[i] != m.q.chains[h].serial
    ensures forall s: nat :: s < |m.added| <==> s in m.out || exists h :: h in m.q.chains && m.q.chains[h].serial == s
  {
    forall i | 0 <= i < |m.out|
      ensures m.out[i] < |m.added| && m.handed[i] == m.added[m.out[i]] && m.fate[m.out[i]] == Back(i)
    {
      assert BackOk(m, i);
    }
    forall h | h in m.q.chains
      ensures m.q.chains[h].serial < |m.added| && m.fate[m.q.chains[h].serial] == Held(h)
    {
      assert HeldOk(m, h);
    }
    forall s: nat | s < |m.added|
      ensures s in m.out || exists h :: h in m.q.chains && m.q.chains[h].serial == s
    {
      assert FateOk(m, s);
    }
  }

  ghost function Serials(q: Queue): set<nat> {
    set h | h in q.chains :: q.chains[h].serial
  }

  lemma {:induction false} SerialsCount(chains: map<nat, Chain>, serials: set<nat>)
    requires forall h, g :: h in chains && g in chains && h != g ==> chains[h].serial != chains[g].serial
    requires forall h :: h in chains ==> chains[h].serial in serials
    requires forall s :: s in serials ==> exists h :: h in chains && chains[h].serial == s
    ensures |serials| == |chains|
    decreases |chains|
  {
    if chains == map[] {
      assert serials == {};
    } else {
      var h :| h in chains;
      var rest := chains - {h};
      forall s | s in serials - {chains[h].serial}
        ensures exists g :: g in rest && rest[g].serial == s
      {
        var g :| g in chains && chains[g].serial == s;
        assert g in rest && rest[g].serial == s;
      }
      SerialsCount(rest, serials - {chains[h].serial});
      assert chains.Keys == rest.Keys + {h};
    }
  }

  lemma LedgerCount(m: Ledger)
    requires LedgerInv(m)
    ensures |m.added| == |m.handed| + |m.q.chains|
  {
    LedgerMeaning(m);
    HeldDistinct(m);
    SerialsCount(m.q.chains, Serials(m.q));
    DistinctCount(m.out);
    assert Elements(m.out) !! Serials(m.q);
    RangeCount(Elements(m.out) + Serials(m.q), |m.added|);
  }

  lemma HeldDistinct(m: Ledger)
    requires LedgerInv(m)
    ensures forall h, g :: h in m.q.chains && g in m.q.chains && h != g ==> m.q.chains[h].serial != m.q.chains[g].serial
  {
    forall h, g | h in m.q.chains && g in m.q.chains && h != g
      ensures m.q.chains[h].serial != m.q.chains[g].serial
    {
      assert HeldOk(m, h) && HeldOk(m, g);
    }
  }

  // ---------------------------------------------------------------- shutdown

  lemma LowestExists(q: Queue) returns (h: nat)
    requires q.chains != map[]
    ensures IsLowest(q, h)
  {
    h :| h in q.chains;
    while exists g :: g in q.chains && g < h
      invariant h in q.chains
      decreases h
    {
      var g :| g in q.chains && g < h;
      h := g;
    }
  }

  /** The heads that repeated vca_virtqueue_detach_unused_buf calls release, and the final queue. */
  ghost predicate Drained(q: Queue, heads: seq<nat>, final: Queue)
    requires Partitioned(q)
    decreases |heads|
  {
    if heads == [] then q.chains == map[] && final == q
    else
      && IsLowest(q, heads[0])
      && Partitioned(DetachUnused(q, heads[0]))
      && Drained(DetachUnused(q, heads[0]), heads[1..], final)
  }

  lemma DetachUnusedKeeps(q: Queue, h: nat)
    requires Partitioned(q) && h in q.chains
    ensures var r := DetachUnused(q, h);
            && Partitioned(r) && r.num == q.num && r.chains == q.chains - {h} && |r.chains| == |q.chains| - 1
            && r.lastUsed == q.lastUsed && r.availIdx == (q.availIdx + U16 - 1) % U16
  {
    var r := DetachUnused(q, h);
    DetachKeepsPartition(q, h);
    SamePartition(Detach(q, h), r);
    assert q.chains.Keys == r.chains.Keys + {h};
  }

  lemma FirstThenRest<T>(m: map<nat, T>, h: nat, rest: seq<nat>)
    requires h in m && (forall g :: g in rest <==> g in m - {h})
    requires forall i, j :: 0 <= i < j < |rest| ==> rest[i] != rest[j]
    ensures forall g :: g in [h] + rest <==> g in m
    ensures forall i, j :: 0 <= i < j < |[h] + rest| ==> ([h] + rest)[i] != ([h] + rest)[j]
  {
    var all := [h] + rest;
    forall i, j | 0 <= i < j < |all| ensures all[i] != all[j] {
      assert all[j] == rest[j - 1] && rest[j - 1] in rest;
      if i > 0 { assert all[i] == rest[i - 1]; }
    }
  }

  /** Every released buffer takes the available index one back, in 16 bits, and the used position stays. */
  lemma {:induction false} DrainRetracts(q: Queue, heads: seq<nat>, final: Queue)
    requires Partitioned(q) && Drained(q, heads, final) && q.availIdx < U16
    ensures |heads| == |q.chains| && final.lastUsed == q.lastUsed
    ensures final.availIdx == StepsBack(q.availIdx, |heads|)
    decreases |heads|
  {
    if heads != [] {
      DetachUnusedKeeps(q, heads[0]);
      DrainRetracts(DetachUnused(q, heads[0]), heads[1..], final);
    }
  }

  /** An index after `n` decrements. */
  function StepsBack(a: nat, n: nat): nat
    decreases n
  {
    if n == 0 then a else StepsBack((a + U16 - 1) % U16, n - 1)
  }

  lemma {:induction false} StepsBackUndo(got: nat, n: nat)
    ensures StepsBack((got + n) % U16, n) == got % U16
    decreases n
  {
    if n > 0 {
      OneBack(got + n - 1);
      StepsBackUndo(got, n - 1);
    }
  }

  lemma OneBack(x: nat)
    ensures ((x + 1) % U16 + U16 - 1) % U16 == x % U16
  {
  }

  /** From a state of driver and protocol-following device, draining ends with both indices equal. */
  lemma DrainMeetsUsed(s: VirtqueueProtocol.Sys, heads: seq<nat>, final: Queue)
    requires VirtqueueProtocol.SysInv(s) && Drained(s.q, heads, final)
    ensures final.availIdx == final.lastUsed
  {
    DrainRetracts(s.q, heads, final);
    StepsBackUndo(s.got, |heads|);
  }

  /** Draining ends, releases every outstanding buffer exactly once, and frees every descriptor. */
  lemma {:induction false} DrainReleasesEverything(q: Queue) returns (heads: seq<nat>, final: Queue)
    requires Partitioned(q)
    ensures Drained(q, heads, final)
    ensures Partitioned(final) && final.chains == map[] && |final.free| == q.num
    ensures forall h :: h in heads <==> h in q.chains
    ensures forall i, j :: 0 <= i < j < |heads| ==> heads[i] != heads[j]
    decreases |q.chains|
  {
    if q.chains == map[] {
      heads, final := [], q;
      AllFree(q);
    } else {
      var h := LowestExists(q);
      var r := DetachUnused(q, h);
      DetachUnusedKeeps(q, h);
      var rest;
      rest, final := DrainReleasesEverything(r);
      heads := [h] + rest;
      FirstThenRest(q.chains, h, rest);
      assert heads[1..] == rest;
    }
  }
}
