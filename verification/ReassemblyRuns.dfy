/** What every run of the reassembly queue hands on, and what it never does. */
module ReassemblyRuns {
  import opened Prelude
  import opened Ipv6Wire
  import opened Assembler
  import opened Reassembly
  import opened ReassemblyRefinement

  datatype Input = Accept(bytes: seq<byte>, now: nat) | Expire(now: nat)

  /** The clock is monotonic. */
  predicate Ordered(inputs: seq<Input>) {
    forall i, j :: 0 <= i < j < |inputs| ==> inputs[i].now <= inputs[j].now
  }

  function Fed(cap: nat, pending: Pending, input: Input): (r: (Pending, Output))
    requires AllSane(pending)
    ensures AllSane(r.0)
  {
    match input
    case Accept(bytes, now) => Accepted(cap, pending, bytes, now)
    case Expire(now) => (Unexpired(pending, now), None)
  }

  /** The table after a run; it never holds more than the allowed number of datagrams. */
  function After(cap: nat, start: Pending, inputs: seq<Input>): (r: Pending)
    requires AllSane(start)
    ensures AllSane(r) && |r| <= MAX_PACKETS
  {
    if inputs == [] then start
    else Fed(cap, After(cap, start, inputs[..|inputs| - 1]), inputs[|inputs| - 1]).0
  }

  /** The answer to the last input of a run. */
  function Answer(cap: nat, start: Pending, inputs: seq<Input>): Output
    requires AllSane(start) && inputs != []
  {
    Fed(cap, After(cap, start, inputs[..|inputs| - 1]), inputs[|inputs| - 1]).1
  }

  predicate IsPart(input: Input, f: Fragment) {
    input.Accept? && Parse(input.bytes) == Part(f) && !Atomic(f)
  }

  predicate Partial(input: Input) {
    input.Accept? && Parse(input.bytes).Part? && !Atomic(Parse(input.bytes).f)
  }

  function PartOf(input: Input): Fragment
    requires Partial(input)
  {
    Parse(input.bytes).f
  }

  // ---------- the reference run ----------

  ghost function ReferenceFed(cap: nat, slots: Slots, input: Input): (r: (Slots, Output))
    requires forall k :: k in slots ==> PiecesFit(slots[k])
    ensures forall k :: k in r.0 ==> PiecesFit(r.0[k])
  {
    match input
    case Expire(now) => (LiveSlots(slots, now), None)
    case Accept(bytes, now) =>
      match Parse(bytes)
      case Part(f) => if Atomic(f) then (slots, None) else ReferenceStep(cap, slots, f, now)
      case _ => (slots, None)
  }

  ghost function ReferenceAfter(cap: nat, inputs: seq<Input>): (r: Slots)
    ensures forall k :: k in r ==> PiecesFit(r[k])
  {
    if inputs == [] then map[]
    else ReferenceFed(cap, ReferenceAfter(cap, inputs[..|inputs| - 1]), inputs[|inputs| - 1]).0
  }

  lemma FedAgrees(cap: nat, pending: Pending, slots: Slots, input: Input)
    requires AllSane(pending) && (forall k :: k in slots ==> PiecesFit(slots[k])) && Related(pending, slots)
    ensures Related(Fed(cap, pending, input).0, ReferenceFed(cap, slots, input).0)
    ensures Partial(input) ==> Fed(cap, pending, input).1 == ReferenceFed(cap, slots, input).1
  {
    hide Parse, Step, ReferenceStep, Related, Atomic, Rebuilt;
    ExpiryKeepsRelated(pending, slots, input.now);
    if input.Accept? && Parse(input.bytes).Part? {
      StepRefinesReference(cap, pending, slots, Parse(input.bytes).f, input.now);
    }
  }

  /** The code and the reference stay related over every run, and answer fragments alike. */
  lemma {:induction false} RunsAgree(cap: nat, inputs: seq<Input>)
    ensures Related(After(cap, map[], inputs), ReferenceAfter(cap, inputs))
    ensures inputs != [] && Partial(inputs[|inputs| - 1]) ==>
              Answer(cap, map[], inputs)
              == ReferenceFed(cap, ReferenceAfter(cap, inputs[..|inputs| - 1]), inputs[|inputs| - 1]).1
  {
    if inputs != [] {
      var n := |inputs| - 1;
      RunsAgree(cap, inputs[..n]);
      FedAgrees(cap, After(cap, map[], inputs[..n]), ReferenceAfter(cap, inputs[..n]), inputs[n]);
      hide Fed, ReferenceFed, Related, AllSane, PiecesFit, Partial;
    }
  }

  /** Where the pieces of a slot come from. */
  ghost predicate Sourced(inputs: seq<Input>, p: Piece) {
    exists i :: 0 <= i < |inputs| && IsPart(inputs[i], p.f) && inputs[i].now == p.at
  }

  ghost predicate Timely(created: nat, ps: seq<Piece>) {
    && (forall p :: p in ps ==> created <= p.at < created + LIFETIME)
    && (ps != [] ==> exists p :: p in ps && p.at == created)
  }

  ghost predicate Explained(inputs: seq<Input>, k: Key, slot: Slot) {
    && (forall p :: p in slot.pieces ==> p.f.key == k && Sourced(inputs, p))
    && Timely(slot.created, slot.pieces)
    && (inputs != [] ==> slot.created <= inputs[|inputs| - 1].now)
  }

  lemma ExplainedLater(inputs: seq<Input>, input: Input, k: Key, slot: Slot)
    requires Explained(inputs, k, slot)
    requires inputs != [] && inputs[|inputs| - 1].now <= input.now
    ensures Explained(inputs + [input], k, slot)
  {
    var later := inputs + [input];
    forall p | p in slot.pieces ensures Sourced(later, p) {
      var i :| 0 <= i < |inputs| && IsPart(inputs[i], p.f) && inputs[i].now == p.at;
      assert later[i] == inputs[i];
    }
  }

  /** One more piece, from the input that has just arrived, at an entry that has not expired. */
  lemma ExplainedPiece(inputs: seq<Input>, k: Key, slot: Slot, f: Fragment)
    requires inputs != [] && IsPart(inputs[|inputs| - 1], f) && f.key == k
    requires Explained(inputs, k, slot)
    requires inputs[|inputs| - 1].now - slot.created < LIFETIME
    requires slot.pieces == [] ==> slot.created == inputs[|inputs| - 1].now
    ensures Explained(inputs, k, slot.(pieces := Insert(slot.pieces, Piece(f, inputs[|inputs| - 1].now))))
  {
    hide Parse, Insert, Atomic;
    var p := Piece(f, inputs[|inputs| - 1].now);
    InsertAddsOne(slot.pieces, p);
    assert Sourced(inputs, p);
    if slot.pieces == [] { assert p in Insert(slot.pieces, p); }
  }

  /** The slot that a fragment meets. */
  ghost function Met(slots: Slots, k: Key, now: nat): Slot {
    if k in LiveSlots(slots, now) then slots[k] else Slot(now, [], false)
  }

  /** One input either keeps the slot of a key or takes a step at it. */
  lemma SlotAfter(cap: nat, slots: Slots, input: Input, k: Key)
    requires forall k :: k in slots ==> PiecesFit(slots[k])
    requires k in ReferenceFed(cap, slots, input).0
    ensures var after := ReferenceFed(cap, slots, input).0[k];
            || (k in slots && after == slots[k])
            || (Partial(input) && PartOf(input).key == k
                && after == SlotStep(cap, Met(slots, k, input.now), PartOf(input), input.now).0)
  {
  }

  lemma ExplainedStep(cap: nat, inputs: seq<Input>, slots: Slots, k: Key)
    requires inputs != [] && Partial(inputs[|inputs| - 1]) && PartOf(inputs[|inputs| - 1]).key == k
    requires k in slots ==> PiecesFit(slots[k]) && Explained(inputs, k, slots[k])
                            && (!slots[k].rejected ==> slots[k].pieces != [])
    ensures var now := inputs[|inputs| - 1].now;
            Explained(inputs, k, SlotStep(cap, Met(slots, k, now), PartOf(inputs[|inputs| - 1]), now).0)
  {
    hide Parse, Fits, Tiled, RunsOf, Insert;
    var f, now := PartOf(inputs[|inputs| - 1]), inputs[|inputs| - 1].now;
    if !Met(slots, k, now).rejected { ExplainedPiece(inputs, k, Met(slots, k, now), f); }
  }

  lemma {:induction false} EveryRunIsExplained(cap: nat, inputs: seq<Input>)
    requires Ordered(inputs)
    ensures forall k :: k in ReferenceAfter(cap, inputs) ==> Explained(inputs, k, ReferenceAfter(cap, inputs)[k])
  {
    hide Explained, PiecesFit, Parse, SlotStep, Explains;
    if inputs != [] {
      var n := |inputs| - 1;
      EveryRunIsExplained(cap, inputs[..n]);
      RunsAgree(cap, inputs[..n]);
      var before, after := ReferenceAfter(cap, inputs[..n]), ReferenceAfter(cap, inputs);
      assert inputs == inputs[..n] + [inputs[n]];
      forall k | k in after ensures Explained(inputs, k, after[k]) {
        if k in before { ExplainedLater(inputs[..n], inputs[n], k, before[k]); }
        SlotAfter(cap, before, inputs[n], k);
        if !(k in before && after[k] == before[k]) { ExplainedStep(cap, inputs, before, k); }
      }
    }
  }

  // ---------- what a run hands on ----------

  /**
  Whenever a run completes a datagram from several fragments, the packet is the header of the
  fragment at offset zero and the concatenation of disjoint fragments that tile the datagram.
  All of them arrived in this run, carry the same key, and lie within one lifetime of the first;
  the packet stays within the limit, so its 16-bit length is exact.
  */
  lemma CompletedDatagram(cap: nat, inputs: seq<Input>) returns (ps: seq<Piece>)
    requires Ordered(inputs) && inputs != [] && Partial(inputs[|inputs| - 1])
    requires Answer(cap, map[], inputs).Some?
    ensures ps != [] && WellFormed(ps[0].f) && Answer(cap, map[], inputs) == Some(ReferencePacket(ps))
    ensures Disjoint(ps) && Tiled(ps)
    ensures forall p :: p in ps ==> p.f.key == PartOf(inputs[|inputs| - 1]).key && Sourced(inputs, p)
    ensures exists first :: first in ps && forall p :: p in ps ==> first.at <= p.at < first.at + LIFETIME
    ensures |ReferencePacket(ps)| <= MAX_PACKET
    ensures PayloadLength(ReferencePacket(ps)) == |ReferencePacket(ps)| - HEADER
  {
    hide *;
    var n := |inputs| - 1;
    var f, now := PartOf(inputs[n]), inputs[n].now;
    var slot := Met(ReferenceAfter(cap, inputs[..n]), f.key, now);
    AnswerAtSlot(cap, inputs);
    MetIsExplained(cap, inputs);
    ps := CompletedSlot(cap, slot, f, now);
    ExplainedFacts(inputs, f.key, slot.(pieces := ps));
  }

  lemma ExplainedFacts(inputs: seq<Input>, k: Key, slot: Slot)
    requires Explained(inputs, k, slot)
    ensures forall p :: p in slot.pieces ==> p.f.key == k && Sourced(inputs, p)
    ensures slot.pieces != [] ==>
              exists first :: first in slot.pieces && forall p :: p in slot.pieces ==> first.at <= p.at < first.at + LIFETIME
  {
  }

  lemma AnswerAtSlot(cap: nat, inputs: seq<Input>)
    requires inputs != [] && Partial(inputs[|inputs| - 1])
    ensures var f, now := PartOf(inputs[|inputs| - 1]), inputs[|inputs| - 1].now;
            var slot := Met(ReferenceAfter(cap, inputs[..|inputs| - 1]), f.key, now);
            && PiecesFit(slot) && WellFormed(f)
            && (Answer(cap, map[], inputs).Some? ==> Answer(cap, map[], inputs) == SlotStep(cap, slot, f, now).1)
  {
    hide SlotStep, Parse, Answer;
    RunsAgree(cap, inputs);
  }

  /** Whether a fragment finds its entry or a place for a new one. */
  ghost predicate FindsPlace(cap: nat, inputs: seq<Input>, f: Fragment, now: nat) {
    var live := LiveSlots(ReferenceAfter(cap, inputs), now);
    f.key in live || (|live| < MAX_PACKETS && |f.prefix| < MAX_PACKET)
  }

  lemma FragmentMeetsSlot(cap: nat, inputs: seq<Input>)
    requires inputs != [] && Partial(inputs[|inputs| - 1])
    requires FindsPlace(cap, inputs[..|inputs| - 1], PartOf(inputs[|inputs| - 1]), inputs[|inputs| - 1].now)
    ensures var f, now := PartOf(inputs[|inputs| - 1]), inputs[|inputs| - 1].now;
            var slot := Met(ReferenceAfter(cap, inputs[..|inputs| - 1]), f.key, now);
            && PiecesFit(slot) && WellFormed(f)
            && Answer(cap, map[], inputs) == SlotStep(cap, slot, f, now).1
            && (Answer(cap, map[], inputs).None? ==>
                  f.key in ReferenceAfter(cap, inputs)
                  && ReferenceAfter(cap, inputs)[f.key] == SlotStep(cap, slot, f, now).0)
  {
    hide SlotStep, Parse, Answer, PiecesFit, Explains, Insert, WellFormed;
    var n := |inputs| - 1;
    var f, now, slots := PartOf(inputs[n]), inputs[n].now, ReferenceAfter(cap, inputs[..n]);
    MetFits(slots, f.key, now);
    RunsAgree(cap, inputs);
    assert ReferenceFed(cap, slots, inputs[n]) == ReferenceStep(cap, slots, f, now);
  }

  lemma MetFits(slots: Slots, k: Key, now: nat)
    requires forall k :: k in slots ==> PiecesFit(slots[k])
    ensures PiecesFit(Met(slots, k, now))
  {
  }

  lemma MetIsExplained(cap: nat, inputs: seq<Input>)
    requires Ordered(inputs) && inputs != [] && Partial(inputs[|inputs| - 1])
    ensures var f, now := PartOf(inputs[|inputs| - 1]), inputs[|inputs| - 1].now;
            var slot := Met(ReferenceAfter(cap, inputs[..|inputs| - 1]), f.key, now);
            PiecesFit(slot) && WellFormed(f) && Explained(inputs, f.key, SlotStep(cap, slot, f, now).0)
  {
    hide SlotStep, Parse, Explains;
    var n := |inputs| - 1;
    var before, k := ReferenceAfter(cap, inputs[..n]), PartOf(inputs[n]).key;
    RunsAgree(cap, inputs[..n]);
    EveryRunIsExplained(cap, inputs[..n]);
    assert inputs == inputs[..n] + [inputs[n]];
    if k in before { ExplainedLater(inputs[..n], inputs[n], k, before[k]); }
    ExplainedStep(cap, inputs, before, k);
  }

  lemma CompletedSlot(cap: nat, slot: Slot, f: Fragment, now: nat) returns (ps: seq<Piece>)
    requires WellFormed(f) && PiecesFit(slot) && SlotStep(cap, slot, f, now).1.Some?
    ensures ps != [] && WellFormed(ps[0].f) && Disjoint(ps) && Tiled(ps)
    ensures SlotStep(cap, slot, f, now) == (slot.(pieces := ps), Some(ReferencePacket(ps)))
    ensures |ReferencePacket(ps)| <= MAX_PACKET
    ensures PayloadLength(ReferencePacket(ps)) == |ReferencePacket(ps)| - HEADER
  {
    ps := Insert(slot.pieces, Piece(f, now));
    PacketLimit(slot.(pieces := ps));
    TilingIsDisjoint(ps, 0, ps[|ps| - 1].f.End());
  }

  /** Pieces that fit and tile stay within the packet limit. */
  lemma PacketLimit(slot: Slot)
    requires PiecesFit(slot) && Tiled(slot.pieces)
    ensures |ReferencePacket(slot.pieces)| <= MAX_PACKET
    ensures PayloadLength(ReferencePacket(slot.pieces)) == |ReferencePacket(slot.pieces)| - HEADER
  {
    var ps := slot.pieces;
    var first, last := ps[0], ps[|ps| - 1];
    FillLength(ps, 0, last.f.End());
    assert first in ps && last in ps;
    assert SameShape(first.f, last.f) && Acceptable(last.f);
    RebuiltStatesItsLength(first.f.prefix, first.f.previous, first.f.next, Joined(ps));
  }

  lemma {:induction false} TilingIsDisjoint(ps: seq<Piece>, from: nat, to: nat)
    requires Fill(ps, from, to) && forall p :: p in ps ==> p.f.payload != []
    ensures Disjoint(ps) && forall i :: 0 <= i < |ps| ==> from <= ps[i].f.start
  {
    if ps != [] {
      TilingIsDisjoint(ps[1..], ps[0].f.End(), to);
      assert forall i :: 1 <= i < |ps| ==> ps[i] == ps[1..][i - 1];
    }
  }

  lemma {:induction false} FillLength(ps: seq<Piece>, from: nat, to: nat)
    requires Fill(ps, from, to)
    ensures |Joined(ps)| == to - from
  {
    if ps != [] { FillLength(ps[1..], ps[0].f.End(), to); }
  }

  // ---------- rejection ----------

  /** The slot is rejected, the fragment does not fit its pieces, or it makes too many runs. */
  ghost predicate Refused(cap: nat, slot: Slot, f: Fragment, now: nat) {
    slot.rejected || !Fits(slot.pieces, f) || |RunsOf(Insert(slot.pieces, Piece(f, now)))| > cap
  }

  lemma SlotStepRejectsIff(cap: nat, slot: Slot, f: Fragment, now: nat)
    requires WellFormed(f) && PiecesFit(slot)
    ensures SlotStep(cap, slot, f, now).0.rejected <==> Refused(cap, slot, f, now)
    ensures Refused(cap, slot, f, now) ==> SlotStep(cap, slot, f, now).1 == None
    ensures SlotStep(cap, slot, f, now).0.created == slot.created
  {
    hide Fits, RunsOf, Insert, Tiled;
  }

  /**
  A fragment that finds its entry, or a place for one, leaves a rejected datagram exactly if it is
  malformed, overlaps or contradicts a stored one, makes too many runs, or met a rejected datagram.
  */
  lemma RejectsIffRefused(cap: nat, inputs: seq<Input>)
    requires inputs != [] && Partial(inputs[|inputs| - 1])
    requires FindsPlace(cap, inputs[..|inputs| - 1], PartOf(inputs[|inputs| - 1]), inputs[|inputs| - 1].now)
    ensures var f, now, after := PartOf(inputs[|inputs| - 1]), inputs[|inputs| - 1].now, After(cap, map[], inputs);
            var slot := Met(ReferenceAfter(cap, inputs[..|inputs| - 1]), f.key, now);
            && (f.key in after && after[f.key].rejected <==> Refused(cap, slot, f, now))
            && (Refused(cap, slot, f, now) ==>
                  Answer(cap, map[], inputs) == None && after[f.key].created == slot.created)
  {
    hide Parse, Answer, After, PiecesFit, Refused, SlotStep, Explains, WellFormed;
    var n := |inputs| - 1;
    var f, now, slots := PartOf(inputs[n]), inputs[n].now, ReferenceAfter(cap, inputs[..n]);
    FragmentMeetsSlot(cap, inputs);
    RunsAgree(cap, inputs);
    SlotStepRejectsIff(cap, Met(slots, f.key, now), f, now);
    assert ReferenceAfter(cap, inputs) == ReferenceStep(cap, slots, f, now).0;
  }

  lemma {:induction false} AfterAppend(cap: nat, start: Pending, a: seq<Input>, b: seq<Input>)
    requires AllSane(start)
    ensures After(cap, start, a + b) == After(cap, After(cap, start, a), b)
    ensures b != [] ==> Answer(cap, start, a + b) == Answer(cap, After(cap, start, a), b)
    decreases |b|
  {
    hide Fed, AllSane;
    if b == [] {
      assert a + b == a;
    } else {
      var n := |b| - 1;
      assert (a + b)[..|a + b| - 1] == a + b[..n] && (a + b)[|a + b| - 1] == b[n];
      AfterAppend(cap, start, a, b[..n]);
    }
  }

  /** After such a fragment nothing is handed on for its datagram, whatever arrives, until the entry expires. */
  lemma RefusedSilences(cap: nat, inputs: seq<Input>, later: seq<Input>)
    requires inputs != [] && Partial(inputs[|inputs| - 1]) && later != []
    requires FindsPlace(cap, inputs[..|inputs| - 1], PartOf(inputs[|inputs| - 1]), inputs[|inputs| - 1].now)
    requires var f, now := PartOf(inputs[|inputs| - 1]), inputs[|inputs| - 1].now;
             var slot := Met(ReferenceAfter(cap, inputs[..|inputs| - 1]), f.key, now);
             && Refused(cap, slot, f, now)
             && (forall i :: 0 <= i < |later| ==> later[i].now - slot.created < LIFETIME)
    requires Partial(later[|later| - 1]) && PartOf(later[|later| - 1]).key == PartOf(inputs[|inputs| - 1]).key
    ensures Answer(cap, map[], inputs + later) == None
  {
    hide Parse, Answer, After, Refused, Met, FindsPlace, ReferenceAfter, Partial, PartOf;
    RejectsIffRefused(cap, inputs);
    AfterAppend(cap, map[], inputs, later);
    RejectedUntilExpiry(cap, After(cap, map[], inputs), PartOf(inputs[|inputs| - 1]).key, later);
  }

  /** A rejected datagram stays rejected, and hands nothing on, until its entry expires. */
  lemma {:induction false} RejectedUntilExpiry(cap: nat, start: Pending, k: Key, inputs: seq<Input>)
    requires AllSane(start) && k in start && start[k].rejected
    requires forall i :: 0 <= i < |inputs| ==> inputs[i].now - start[k].created < LIFETIME
    ensures k in After(cap, start, inputs) && After(cap, start, inputs)[k] == start[k]
    ensures inputs != [] && Partial(inputs[|inputs| - 1]) && PartOf(inputs[|inputs| - 1]).key == k ==>
              Answer(cap, start, inputs) == None
  {
    hide Fed, Parse;
    if inputs != [] {
      var n := |inputs| - 1;
      RejectedUntilExpiry(cap, start, k, inputs[..n]);
      RejectedStep(cap, After(cap, start, inputs[..n]), k, inputs[n]);
    }
  }

  lemma RejectedStep(cap: nat, pending: Pending, k: Key, input: Input)
    requires AllSane(pending) && k in pending && pending[k].rejected
    requires input.now - pending[k].created < LIFETIME
    ensures k in Fed(cap, pending, input).0 && Fed(cap, pending, input).0[k] == pending[k]
    ensures Partial(input) && PartOf(input).key == k ==> Fed(cap, pending, input).1 == None
  {
    hide Parse, Invalid, Stored, Complete, Packet;
  }

  // ---------- expiry ----------

  lemma UnexpiredTwice(pending: Pending, early: nat, late: nat)
    requires early <= late
    ensures Unexpired(Unexpired(pending, early), late) == Unexpired(pending, late)
  {
  }

  /** Only what is alive matters to an input, and to what is alive afterwards. */
  lemma FedSeesLive(cap: nat, p: Pending, q: Pending, input: Input)
    requires AllSane(p) && AllSane(q) && Unexpired(p, input.now) == Unexpired(q, input.now)
    ensures Fed(cap, p, input).1 == Fed(cap, q, input).1
    ensures Unexpired(Fed(cap, p, input).0, input.now) == Unexpired(Fed(cap, q, input).0, input.now)
  {
    hide Parse, Step, Rebuilt, AllSane, Atomic;
    UnexpiredTwice(p, input.now, input.now);
    UnexpiredTwice(q, input.now, input.now);
    hide Unexpired;
    if Partial(input) { StepSeesLive(cap, p, q, PartOf(input), input.now); }
  }

  lemma StepSeesLive(cap: nat, p: Pending, q: Pending, f: Fragment, now: nat)
    requires AllSane(p) && AllSane(q) && Unexpired(p, now) == Unexpired(q, now) && WellFormed(f)
    ensures Step(cap, p, f, now) == Step(cap, q, f, now)
  {
    hide EntryStep, Fresh;
  }

  lemma {:induction false} RunSeesLive(cap: nat, p: Pending, q: Pending, now: nat, inputs: seq<Input>)
    requires AllSane(p) && AllSane(q) && Unexpired(p, now) == Unexpired(q, now)
    requires Ordered(inputs) && inputs != [] && now <= inputs[0].now
    ensures Answer(cap, p, inputs) == Answer(cap, q, inputs)
    ensures var late := inputs[|inputs| - 1].now;
            Unexpired(After(cap, p, inputs), late) == Unexpired(After(cap, q, inputs), late)
    decreases |inputs|
  {
    hide Fed, AllSane, Unexpired;
    var n := |inputs| - 1;
    var p', q' := After(cap, p, inputs[..n]), After(cap, q, inputs[..n]);
    var early, late := if n == 0 then now else inputs[n - 1].now, inputs[n].now;
    if n > 0 { RunSeesLive(cap, p, q, now, inputs[..n]); }
    assert Unexpired(p', early) == Unexpired(q', early);
    UnexpiredTwice(p', early, late);
    UnexpiredTwice(q', early, late);
    FedSeesLive(cap, p', q', inputs[n]);
  }

  /** A call of `expire` anywhere in a run changes no answer: an entry that is due never takes part. */
  lemma ExpireIsInvisible(cap: nat, before: seq<Input>, now: nat, later: seq<Input>)
    requires Ordered(before + [Expire(now)] + later) && later != []
    ensures Answer(cap, map[], before + [Expire(now)] + later) == Answer(cap, map[], before + later)
  {
    hide Answer, Parse;
    var all, n := before + [Expire(now)] + later, |before|;
    var p, q := After(cap, map[], before), After(cap, map[], before + [Expire(now)]);
    assert (before + [Expire(now)])[..n] == before && (before + [Expire(now)])[n] == Expire(now);
    assert q == Unexpired(p, now);
    UnexpiredTwice(p, now, now);
    assert all[n] == Expire(now) && forall i :: 0 <= i < |later| ==> later[i] == all[n + 1 + i];
    hide After, Unexpired;
    RunSeesLive(cap, q, p, now, later);
    AfterAppend(cap, map[], before + [Expire(now)], later);
    AfterAppend(cap, map[], before, later);
  }
}
