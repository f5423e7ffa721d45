/**
Bounded IPv6 reassembly (section 4.5 of RFC 8200, section 4 of RFC 5722).

`Step` is the code: per datagram a zeroed buffer, a list of received runs, an optional total
length and a rejected flag. `ReferenceStep` is the meaning: per datagram the fragments
themselves, in the order of their offsets. `StepRefinesReference` says that the two answer
alike and stay related, for every fragment.
*/
module Reassembly {
  import opened Prelude
  import opened Ipv6Wire
  import opened Assembler

  const MAX_PACKETS := 64
  const MAX_PACKET := 65535
  const LIFETIME := 30_000_000_000   // nanoseconds

  datatype Assembly = Assembly(created: nat, prefix: seq<byte>, previous: nat, next: byte,
                               bytes: seq<byte>, received: seq<Run>, total: Option<nat>, rejected: bool)

  type Pending = map<Key, Assembly>

  /** The packet that is handed on, if any. */
  type Output = Option<seq<byte>>

  // ---------- the code ----------

  /** What `accept` keeps about every entry, so that its slices stay inside the buffers. */
  predicate Sane(v: Assembly) {
    !v.rejected ==>
      && HeaderFits(v.prefix, v.previous)
      && |v.bytes| + |v.prefix| == MAX_PACKET
      && (v.total.Some? ==> v.total.value <= |v.bytes|)
  }

  predicate AllSane(pending: Pending) {
    |pending| <= MAX_PACKETS && forall k :: k in pending ==> Sane(pending[k])
  }

  function Unexpired(pending: Pending, now: nat): (live: Pending)
    ensures forall k :: k in live <==> k in pending && now - pending[k].created < LIFETIME
    ensures forall k :: k in live ==> live[k] == pending[k]
    ensures |live| <= |pending|
  {
    var live := map k | k in pending && now - pending[k].created < LIFETIME :: pending[k];
    SubsetIsSmaller(live.Keys, pending.Keys);
    live
  }

  lemma {:induction false} SubsetIsSmaller<T>(a: set<T>, b: set<T>)
    requires a <= b
    ensures |a| <= |b|
  {
    assert |b| == |a| + |b - a| by { assert b == a + (b - a); }
  }

  function Fresh(f: Fragment, now: nat): Assembly
    requires |f.prefix| < MAX_PACKET
  {
    Assembly(now, f.prefix, f.previous, f.next, seq(MAX_PACKET - |f.prefix|, _ => 0), [], None, false)
  }

  predicate Invalid(v: Assembly, f: Fragment) {
    || f.payload == []
    || (f.more && |f.payload| % 8 != 0)
    || f.End() > |v.bytes|
    || |v.prefix| != |f.prefix|
    || v.previous != f.previous
    || v.next != f.next
    || (v.total.Some? && (f.End() > v.total.value || (!f.more && f.End() != v.total.value)
                          || (f.more && f.End() >= v.total.value)))
    || (!f.more && exists i :: 0 <= i < |v.received| && v.received[i].to > f.End())
    || (exists i :: 0 <= i < |v.received| && f.start < v.received[i].to && f.End() > v.received[i].from)
  }

  /** `bytes[start..end].copy_from_slice(payload)`. */
  function Pasted(bytes: seq<byte>, start: nat, payload: seq<byte>): (r: seq<byte>)
    requires start + |payload| <= |bytes|
    ensures |r| == |bytes|
  {
    bytes[..start] + payload + bytes[start + |payload|..]
  }

  lemma PasteIsLocal(bytes: seq<byte>, start: nat, payload: seq<byte>, from: nat, to: nat)
    requires start + |payload| <= |bytes| && from <= to <= |bytes|
    requires to <= start || start + |payload| <= from
    ensures Pasted(bytes, start, payload)[from..to] == bytes[from..to]
    ensures Pasted(bytes, start, payload)[start..start + |payload|] == payload
  {
    var r := Pasted(bytes, start, payload);
    assert forall i :: from <= i < to ==> r[i] == bytes[i];
  }

  /** The entry after a fragment that is neither invalid nor past the run cap. */
  function Stored(v: Assembly, f: Fragment): Assembly
    requires f.End() <= |v.bytes|
  {
    v.(prefix := if f.start == 0 then f.prefix else v.prefix,
       bytes := Pasted(v.bytes, f.start, f.payload),
       received := AddRun(v.received, f.start, f.End()),
       total := if f.more then v.total else Some(f.End()))
  }

  predicate Complete(v: Assembly) {
    v.total.Some? && Front(v.received) == v.total.value
  }

  /** A fragment at the entry of its datagram. */
  function EntryStep(cap: nat, v: Assembly, f: Fragment): (r: (Assembly, Output))
    requires Sane(v) && WellFormed(f)
    ensures Sane(r.0)
  {
    if v.rejected then (v, None)
    else if Invalid(v, f) || |AddRun(v.received, f.start, f.End())| > cap then
      (v.(rejected := true, bytes := []), None)
    else
      var v' := Stored(v, f);
      (v', if Complete(v') then Packet(v') else None)
  }

  /** A stored fragment: a complete entry has a packet. */
  lemma StoredEntry(cap: nat, v: Assembly, f: Fragment)
    requires Sane(v) && WellFormed(f) && !v.rejected
    requires !Invalid(v, f) && |AddRun(v.received, f.start, f.End())| <= cap
    ensures f.End() <= |v.bytes|
    ensures EntryStep(cap, v, f).0 == Stored(v, f)
    ensures EntryStep(cap, v, f).1 == if Complete(Stored(v, f)) then Packet(Stored(v, f)) else None
    ensures Complete(Stored(v, f)) ==> Packet(Stored(v, f)).Some?
  {
    hide AddRun, Rebuilt, Pasted, Front;
  }

  function Step(cap: nat, pending: Pending, f: Fragment, now: nat): (r: (Pending, Output))
    requires AllSane(pending) && WellFormed(f)
    ensures AllSane(r.0)
  {
    var live := Unexpired(pending, now);
    if f.key !in live && (|live| >= MAX_PACKETS || |f.prefix| >= MAX_PACKET) then (live, None)
    else
      var (v, packet) := EntryStep(cap, if f.key in live then live[f.key] else Fresh(f, now), f);
      (if packet.Some? then live - {f.key} else live[f.key := v], packet)
  }

  /** The packet of an entry whose buffer is full up to the total. */
  function Packet(v: Assembly): Output {
    if HeaderFits(v.prefix, v.previous) && v.total.Some? && v.total.value <= |v.bytes| then
      Some(Rebuilt(v.prefix, v.previous, v.next, v.bytes[..v.total.value]))
    else None
  }

  /** `accept`: only fragments of several-fragment datagrams touch the table. */
  function Accepted(cap: nat, pending: Pending, bytes: seq<byte>, now: nat): (r: (Pending, Output))
    requires AllSane(pending)
    ensures AllSane(r.0)
  {
    match Parse(bytes)
    case Foreign => (pending, Some(bytes))
    case Dropped => (pending, None)
    case Whole(packet) => (pending, Some(packet))
    case Part(f) =>
      if Atomic(f) then (pending, Some(Rebuilt(f.prefix, f.previous, f.next, f.payload)))
      else Step(cap, pending, f, now)
  }

  class Queue {
    const cap: nat
    var pending: Pending

    constructor (cap: nat)
      ensures pending == map[] && this.cap == cap
    {
      this.cap, pending := cap, map[];
    }

    method Expire(now: nat)
      modifies this
      ensures pending == Unexpired(old(pending), now)
    {
      pending := map k | k in pending && now - pending[k].created < LIFETIME :: pending[k];
    }

    method Accept(bytes: seq<byte>, now: nat) returns (packet: Output)
      requires AllSane(pending)
      modifies this
      ensures AllSane(pending)
      ensures (pending, packet) == Accepted(cap, old(pending), bytes, now)
    {
      if bytes == [] { return None; }
      if bytes[0] / 16 != 6 { return Some(bytes); }
      var checked := Checked(bytes);
      if checked.None? { return None; }
      var at := WalkHeaders(checked.value);
      if at.None? { return None; }
      if at.value.protocol != FRAGMENT { return Some(checked.value); }
      var parsed := ParseFragment(checked.value, at.value);
      if !parsed.Part? { return None; }
      var f := parsed.f;
      assert Parse(bytes) == Part(f);
      if Atomic(f) { return Some(Rebuilt(f.prefix, f.previous, f.next, f.payload)); }
      packet := AcceptFragment(f, now);
    }

    /** The part of `accept` that works on the table. */
    method AcceptFragment(f: Fragment, now: nat) returns (packet: Output)
      requires AllSane(pending) && WellFormed(f)
      modifies this
      ensures (pending, packet) == Step(cap, old(pending), f, now)
    {
      hide AddRun, Rebuilt, Pasted, Invalid, Complete, Packet, Stored;
      Expire(now);
      hide Unexpired;
      ghost var live := pending;
      if f.key !in pending {
        if |pending| >= MAX_PACKETS || |f.prefix| >= MAX_PACKET { return None; }
        pending := pending[f.key := Fresh(f, now)];
      }
      var value := pending[f.key];
      if value.rejected {
        assert pending == live[f.key := value];
        return None;
      }
      if Invalid(value, f) || |AddRun(value.received, f.start, f.End())| > cap {
        pending := pending[f.key := value.(rejected := true, bytes := [])];
        assert pending == live[f.key := value.(rejected := true, bytes := [])];
        return None;
      }
      StoredEntry(cap, value, f);
      value := Stored(value, f);
      pending := pending[f.key := value];
      assert pending == live[f.key := value];
      if !Complete(value) { return None; }
      pending := pending - {f.key};
      assert pending == live - {f.key};
      packet := Packet(value);
    }
  }

  // ---------- the meaning ----------

  /** A fragment and the time of its arrival. */
  datatype Piece = Piece(f: Fragment, at: nat)

  datatype Slot = Slot(created: nat, pieces: seq<Piece>, rejected: bool)

  type Slots = map<Key, Slot>

  /** In the order of their offsets, non-empty and disjoint. */
  predicate Disjoint(ps: seq<Piece>) {
    && (forall i :: 0 <= i < |ps| ==> ps[i].f.payload != [])
    && (forall i, j :: 0 <= i < j < |ps| ==> ps[i].f.End() <= ps[j].f.start)
  }

  /** The pieces fill [from, to) one after the other without a gap. */
  predicate Fill(ps: seq<Piece>, from: nat, to: nat) {
    if ps == [] then from == to else ps[0].f.start == from && Fill(ps[1..], ps[0].f.End(), to)
  }

  function Joined(ps: seq<Piece>): seq<byte> {
    if ps == [] then [] else ps[0].f.payload + Joined(ps[1..])
  }

  /** How many of the pieces start at or before the given one. */
  function Rank(ps: seq<Piece>, p: Piece): (k: nat)
    ensures k <= |ps|
    ensures forall i :: 0 <= i < k ==> ps[i].f.start <= p.f.start
    ensures k < |ps| ==> p.f.start < ps[k].f.start
  {
    if ps == [] || p.f.start < ps[0].f.start then 0
    else
      var k := Rank(ps[1..], p);
      assert forall i :: 1 <= i < k + 1 ==> ps[i] == ps[1..][i - 1];
      k + 1
  }

  /** The pieces with one more, in the order of their offsets. */
  function Insert(ps: seq<Piece>, p: Piece): (r: seq<Piece>)
    ensures |r| == |ps| + 1
  {
    var k := Rank(ps, p);
    ps[..k] + [p] + ps[k..]
  }

  function RunsOf(ps: seq<Piece>): seq<Run> {
    if ps == [] then [] else AddRun(RunsOf(ps[1..]), ps[0].f.start, ps[0].f.End())
  }

  predicate SameShape(f: Fragment, g: Fragment) {
    |f.prefix| == |g.prefix| && f.previous == g.previous && f.next == g.next
  }

  /** Two fragments of one datagram that can both be right. */
  predicate Agree(f: Fragment, g: Fragment) {
    && SameShape(f, g)
    && (f.End() <= g.start || g.End() <= f.start)
    && (!f.more ==> g.more && g.End() <= f.End())
    && (!g.more ==> f.more && f.End() <= g.End())
  }

  /** A fragment that can be right on its own. */
  predicate Acceptable(f: Fragment) {
    f.payload != [] && (f.more ==> |f.payload| % 8 == 0) && |f.prefix| + f.End() <= MAX_PACKET
  }

  predicate Fits(ps: seq<Piece>, f: Fragment) {
    Acceptable(f) && forall i :: 0 <= i < |ps| ==> Agree(ps[i].f, f)
  }

  predicate Tiled(ps: seq<Piece>) {
    ps != [] && !ps[|ps| - 1].f.more && Fill(ps, 0, ps[|ps| - 1].f.End())
  }

  lemma FitsAll(ps: seq<Piece>, f: Fragment)
    requires Fits(ps, f)
    ensures forall p :: p in ps ==> Agree(p.f, f)
  {
  }

  /** A fragment at the slot of its datagram. */
  function SlotStep(cap: nat, slot: Slot, f: Fragment, now: nat): (r: (Slot, Output))
    requires WellFormed(f) && PiecesFit(slot)
    ensures PiecesFit(r.0)
  {
    var ps := Insert(slot.pieces, Piece(f, now));
    InsertAddsOne(slot.pieces, Piece(f, now));
    assert Fits(slot.pieces, f) ==> PiecesFit(slot.(pieces := ps)) by {
      if Fits(slot.pieces, f) { FitsAll(slot.pieces, f); }
    }
    if slot.rejected then (slot, None)
    else if !Fits(slot.pieces, f) || |RunsOf(ps)| > cap then (Slot(slot.created, [], true), None)
    else (slot.(pieces := ps), if Tiled(ps) then Some(ReferencePacket(ps)) else None)
  }

  function ReferenceStep(cap: nat, slots: Slots, f: Fragment, now: nat): (r: (Slots, Output))
    requires WellFormed(f)
    requires forall k :: k in slots ==> PiecesFit(slots[k])
    ensures forall k :: k in r.0 ==> PiecesFit(r.0[k])
  {
    var live := LiveSlots(slots, now);
    if f.key !in live && (|live| >= MAX_PACKETS || |f.prefix| >= MAX_PACKET) then (live, None)
    else
      var (slot, packet) := SlotStep(cap, if f.key in live then live[f.key] else Slot(now, [], false), f, now);
      (if packet.Some? then live - {f.key} else live[f.key := slot], packet)
  }

  /** The header of the piece at offset zero, and the payloads in order. */
  function ReferencePacket(ps: seq<Piece>): seq<byte>
    requires ps != [] && WellFormed(ps[0].f)
  {
    Rebuilt(ps[0].f.prefix, ps[0].f.previous, ps[0].f.next, Joined(ps))
  }

  predicate PiecesFit(slot: Slot) {
    && (forall p :: p in slot.pieces ==> WellFormed(p.f) && Acceptable(p.f))
    && (forall p, q :: p in slot.pieces && q in slot.pieces ==> SameShape(p.f, q.f))
  }

  function LiveSlots(slots: Slots, now: nat): Slots {
    map k | k in slots && now - slots[k].created < LIFETIME :: slots[k]
  }

  // ---------- runs and pieces ----------

  predicate InPieces(ps: seq<Piece>, x: int) {
    exists i :: 0 <= i < |ps| && ps[i].f.start <= x < ps[i].f.End()
  }

  lemma InPiecesSplit(ps: seq<Piece>, x: int)
    requires ps != []
    ensures InPieces(ps, x) <==> ps[0].f.start <= x < ps[0].f.End() || InPieces(ps[1..], x)
  {
    if InPieces(ps, x) {
      var i :| 0 <= i < |ps| && ps[i].f.start <= x < ps[i].f.End();
      assert i > 0 ==> ps[1..][i - 1] == ps[i];
    }
    if InPieces(ps[1..], x) {
      var i :| 0 <= i < |ps[1..]| && ps[1..][i].f.start <= x < ps[1..][i].f.End();
      assert ps[i + 1] == ps[1..][i];
    }
  }

  lemma {:induction false} RunsOfCoversPieces(ps: seq<Piece>)
    requires forall i :: 0 <= i < |ps| ==> ps[i].f.payload != []
    ensures Canonical(RunsOf(ps))
    ensures forall x :: Covers(RunsOf(ps), x) <==> InPieces(ps, x)
  {
    if ps != [] {
      RunsOfCoversPieces(ps[1..]);
      AddRunAdds(RunsOf(ps[1..]), ps[0].f.start, ps[0].f.End());
      forall x ensures Covers(RunsOf(ps), x) <==> InPieces(ps, x) { InPiecesSplit(ps, x); }
    }
  }

  /** Apart from every piece: before or after it. */
  predicate Apart(ps: seq<Piece>, f: Fragment) {
    f.payload != [] && forall i :: 0 <= i < |ps| ==> ps[i].f.End() <= f.start || f.End() <= ps[i].f.start
  }

  lemma InsertShape(ps: seq<Piece>, p: Piece)
    ensures var r, k := Insert(ps, p), Rank(ps, p);
            && r[k] == p
            && (forall i :: 0 <= i < k ==> r[i] == ps[i])
            && (forall i :: k < i < |r| ==> r[i] == ps[i - 1])
  {
  }

  lemma InsertKeepsOrder(ps: seq<Piece>, p: Piece)
    requires Disjoint(ps) && Apart(ps, p.f)
    ensures Disjoint(Insert(ps, p))
  {
    var r, k := Insert(ps, p), Rank(ps, p);
    InsertShape(ps, p);
    forall i, j | 0 <= i < j < |r| ensures r[i].f.End() <= r[j].f.start {
      if j == k {
        assert ps[i].f.start <= p.f.start;
      } else if i == k {
        assert k < j - 1 ==> ps[k].f.End() <= ps[j - 1].f.start;
      }
    }
  }

  lemma InsertAddsOne(ps: seq<Piece>, p: Piece)
    ensures forall q :: q in Insert(ps, p) <==> q in ps || q == p
  {
    var r, k := Insert(ps, p), Rank(ps, p);
    assert multiset(r) == multiset(ps[..k] + ps[k..]) + multiset{p};
    assert ps[..k] + ps[k..] == ps;
    assert forall q :: q in r <==> q in multiset(r);
  }

  lemma InsertCovers(ps: seq<Piece>, p: Piece)
    ensures forall x :: InPieces(Insert(ps, p), x) <==> InPieces(ps, x) || p.f.start <= x < p.f.End()
  {
    InsertAddsOne(ps, p);
    forall x ensures InPieces(Insert(ps, p), x) <==> InPieces(ps, x) || p.f.start <= x < p.f.End() {
      PiecesAsElements(Insert(ps, p), x);
      PiecesAsElements(ps, x);
    }
  }

  lemma PiecesAsElements(ps: seq<Piece>, x: int)
    ensures InPieces(ps, x) <==> exists q :: q in ps && q.f.start <= x < q.f.End()
  {
    if InPieces(ps, x) {
      var i :| 0 <= i < |ps| && ps[i].f.start <= x < ps[i].f.End();
      assert ps[i] in ps;
    }
  }

  /** The assembler keeps the runs of the pieces, whatever their order of arrival. */
  lemma AddRunFollowsInsert(ps: seq<Piece>, p: Piece)
    requires Disjoint(ps) && Apart(ps, p.f)
    ensures AddRun(RunsOf(ps), p.f.start, p.f.End()) == RunsOf(Insert(ps, p))
  {
    InsertKeepsOrder(ps, p);
    InsertCovers(ps, p);
    RunsOfCoversPieces(ps);
    RunsOfCoversPieces(Insert(ps, p));
    AddRunAdds(RunsOf(ps), p.f.start, p.f.End());
    CanonicalIsUnique(AddRun(RunsOf(ps), p.f.start, p.f.End()), RunsOf(Insert(ps, p)));
  }

  // ---------- tiling ----------

  /** Disjoint pieces that cover [from, to) and stay inside it fill it in order. */
  lemma {:induction false} CoverIsFill(ps: seq<Piece>, from: nat, to: nat)
    requires Disjoint(ps) && from <= to
    requires forall i :: 0 <= i < |ps| ==> from <= ps[i].f.start && ps[i].f.End() <= to
    requires forall x :: from <= x < to ==> InPieces(ps, x)
    ensures Fill(ps, from, to)
  {
    if ps == [] {
      assert from < to ==> InPieces(ps, from);
    } else {
      assert InPieces(ps, from);
      assert ps[0].f.start == from;
      forall x | ps[0].f.End() <= x < to ensures InPieces(ps[1..], x) { InPiecesSplit(ps, x); }
      assert forall i :: 0 <= i < |ps[1..]| ==> ps[1..][i] == ps[i + 1];
      CoverIsFill(ps[1..], ps[0].f.End(), to);
    }
  }

  lemma {:induction false} FillIsCover(ps: seq<Piece>, from: nat, to: nat)
    requires Fill(ps, from, to)
    ensures from <= to && forall x :: from <= x < to ==> InPieces(ps, x)
  {
    if ps != [] {
      FillIsCover(ps[1..], ps[0].f.End(), to);
      forall x | from <= x < to ensures InPieces(ps, x) { InPiecesSplit(ps, x); }
    }
  }

  /** A buffer that holds every piece at its offset holds their concatenation. */
  lemma {:induction false} FillIsJoined(ps: seq<Piece>, from: nat, to: nat, bytes: seq<byte>)
    requires Fill(ps, from, to) && to <= |bytes|
    requires forall i :: 0 <= i < |ps| ==> Holds(bytes, ps[i].f)
    ensures from <= to && Joined(ps) == bytes[from..to]
  {
    FillIsCover(ps, from, to);
    if ps != [] {
      assert forall i :: 0 <= i < |ps[1..]| ==> ps[1..][i] == ps[i + 1];
      FillIsCover(ps[1..], ps[0].f.End(), to);
      FillIsJoined(ps[1..], ps[0].f.End(), to, bytes);
      assert bytes[from..to] == bytes[from..ps[0].f.End()] + bytes[ps[0].f.End()..to];
    }
  }

  predicate Holds(bytes: seq<byte>, f: Fragment) {
    f.End() <= |bytes| && bytes[f.start..f.End()] == f.payload
  }
}
