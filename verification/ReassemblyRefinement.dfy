/** Reassembly as the code does it answers like reassembly as the fragments mean it. */
module ReassemblyRefinement {
  import opened Prelude
  import opened Ipv6Wire
  import opened Assembler
  import opened Reassembly

  /** An entry of the code that stores exactly these pieces. */
  predicate Explains(v: Assembly, ps: seq<Piece>) {
    && Disjoint(ps)
    && v.received == RunsOf(ps)
    && HeaderFits(v.prefix, v.previous) && |v.bytes| + |v.prefix| == MAX_PACKET
    && (forall i :: 0 <= i < |ps| ==> LooksLike(v, ps[i].f) && Holds(v.bytes, ps[i].f))
    && (forall i :: 0 <= i < |ps| - 1 ==> ps[i].f.more)
    && (ps != [] && ps[0].f.start == 0 ==> v.prefix == ps[0].f.prefix)
    && v.total == (if ps != [] && !ps[|ps| - 1].f.more then Some(ps[|ps| - 1].f.End()) else None)
  }

  predicate LooksLike(v: Assembly, f: Fragment) {
    WellFormed(f) && |v.prefix| == |f.prefix| && v.previous == f.previous && v.next == f.next
  }

  // ---------- the tests on runs are tests on pieces ----------

  lemma OverlapInRuns(runs: seq<Run>, from: nat, to: nat)
    requires Canonical(runs) && from < to
    ensures (exists i :: 0 <= i < |runs| && from < runs[i].to && to > runs[i].from)
            <==> exists x :: from <= x < to && Covers(runs, x)
  {
    if i :| 0 <= i < |runs| && from < runs[i].to && to > runs[i].from {
      assert Covers(runs, Max(from, runs[i].from));
    }
  }

  lemma BeyondInRuns(runs: seq<Run>, to: nat)
    requires Canonical(runs)
    ensures (exists i :: 0 <= i < |runs| && runs[i].to > to) <==> exists x :: to <= x && Covers(runs, x)
  {
    if i :| 0 <= i < |runs| && runs[i].to > to {
      assert Covers(runs, Max(to, runs[i].from));
    }
  }

  lemma OverlapInPieces(ps: seq<Piece>, f: Fragment)
    requires Disjoint(ps) && f.payload != []
    ensures Apart(ps, f) <==> !exists x :: f.start <= x < f.End() && InPieces(ps, x)
  {
    if i :| 0 <= i < |ps| && ps[i].f.End() > f.start && f.End() > ps[i].f.start {
      assert InPieces(ps, Max(f.start, ps[i].f.start));
    }
  }

  lemma BeyondInPieces(ps: seq<Piece>, to: nat)
    requires Disjoint(ps)
    ensures (exists i :: 0 <= i < |ps| && ps[i].f.End() > to) <==> exists x :: to <= x && InPieces(ps, x)
  {
    if i :| 0 <= i < |ps| && ps[i].f.End() > to {
      assert InPieces(ps, Max(to, ps[i].f.start));
    }
  }

  lemma RunTests(v: Assembly, ps: seq<Piece>, f: Fragment)
    requires Explains(v, ps) && f.payload != []
    ensures (exists i :: 0 <= i < |v.received| && f.start < v.received[i].to && f.End() > v.received[i].from)
            <==> !Apart(ps, f)
    ensures (exists i :: 0 <= i < |v.received| && v.received[i].to > f.End())
            <==> exists i :: 0 <= i < |ps| && ps[i].f.End() > f.End()
  {
    RunsOfCoversPieces(ps);
    OverlapInRuns(v.received, f.start, f.End());
    OverlapInPieces(ps, f);
    BeyondInRuns(v.received, f.End());
    BeyondInPieces(ps, f.End());
  }

  /** The validity test of the code is exactly whether the fragment fits the stored ones. */
  lemma InvalidIffMisfit(v: Assembly, ps: seq<Piece>, f: Fragment)
    requires Explains(v, ps) && WellFormed(f)
    requires ps == [] ==> LooksLike(v, f)
    ensures Invalid(v, f) <==> !Fits(ps, f)
  {
    if f.payload != [] {
      RunTests(v, ps, f);
      if ps != [] {
        var last := ps[|ps| - 1].f;
        assert forall i :: 0 <= i < |ps| ==> ps[i].f.End() <= last.End();
        if Fits(ps, f) {
          assert Agree(last, f);
        } else if !Invalid(v, f) {
          forall i | 0 <= i < |ps| ensures Agree(ps[i].f, f) { }
        }
      }
    }
  }

  // ---------- one step ----------

  /** Storing a fragment that fits: the entry now stores one piece more. */
  lemma StoredExplains(v: Assembly, ps: seq<Piece>, p: Piece)
    requires Explains(v, ps) && Fits(ps, p.f) && LooksLike(v, p.f)
    ensures Explains(Stored(v, p.f), Insert(ps, p))
  {
    var r := Insert(ps, p);
    InsertKeepsOrder(ps, p);
    AddRunFollowsInsert(ps, p);
    forall i | 0 <= i < |r| ensures LooksLike(Stored(v, p.f), r[i].f) && Holds(Stored(v, p.f).bytes, r[i].f) {
      StoredHolds(v, ps, p, i);
    }
    forall i | 0 <= i < |r| - 1 ensures r[i].f.more { InsertedEnds(ps, p, i); }
    InsertedEnds(ps, p, |ps|);
    StoredHeader(v, ps, p);
  }

  lemma StoredHolds(v: Assembly, ps: seq<Piece>, p: Piece, i: nat)
    requires Explains(v, ps) && Fits(ps, p.f) && LooksLike(v, p.f) && i <= |ps|
    ensures LooksLike(Stored(v, p.f), Insert(ps, p)[i].f) && Holds(Stored(v, p.f).bytes, Insert(ps, p)[i].f)
  {
    var k := Rank(ps, p);
    InsertShape(ps, p);
    if i != k {
      var q := ps[if i < k then i else i - 1].f;
      assert LooksLike(v, q) && Holds(v.bytes, q) && Agree(q, p.f);
      PasteIsLocal(v.bytes, p.f.start, p.f.payload, q.start, q.End());
    } else {
      PasteIsLocal(v.bytes, p.f.start, p.f.payload, 0, 0);
    }
  }

  lemma StoredHeader(v: Assembly, ps: seq<Piece>, p: Piece)
    requires Explains(v, ps) && Fits(ps, p.f) && LooksLike(v, p.f)
    ensures Insert(ps, p)[0].f.start == 0 ==> Stored(v, p.f).prefix == Insert(ps, p)[0].f.prefix
  {
    InsertShape(ps, p);
    if Rank(ps, p) > 0 { assert Agree(ps[0].f, p.f); }
  }

  /** Only the last piece can be a final fragment. */
  lemma InsertedEnds(ps: seq<Piece>, p: Piece, i: nat)
    requires Disjoint(ps) && Fits(ps, p.f) && i <= |ps|
    requires forall j :: 0 <= j < |ps| - 1 ==> ps[j].f.more
    ensures i < |ps| ==> Insert(ps, p)[i].f.more
    ensures i == |ps| ==>
              Insert(ps, p)[i].f.more
              == (p.f.more && (ps == [] || ps[|ps| - 1].f.more))
    ensures i == |ps| && !Insert(ps, p)[i].f.more ==>
              Insert(ps, p)[i].f.End() == (if p.f.more then ps[|ps| - 1].f.End() else p.f.End())
  {
    var k := Rank(ps, p);
    InsertShape(ps, p);
    if ps != [] {
      assert Agree(ps[|ps| - 1].f, p.f);
      if k < |ps| { assert Agree(ps[k].f, p.f); }
    }
  }

  /** The code hands a datagram on exactly when the pieces tile it, and then it is their concatenation. */
  lemma CompleteIffTiled(v: Assembly, ps: seq<Piece>)
    requires Explains(v, ps) && ps != []
    ensures Complete(v) <==> Tiled(ps)
    ensures WellFormed(ps[0].f)
    ensures Tiled(ps) ==> Packet(v) == Some(ReferencePacket(ps))
  {
    if v.total.Some? {
      var total := v.total.value;
      RunsOfCoversPieces(ps);
      FrontIsWholePrefix(v.received, total);
      if Complete(v) { CoverIsFill(ps, 0, total); }
      if Tiled(ps) {
        FillIsCover(ps, 0, total);
        FillIsJoined(ps, 0, total, v.bytes);
      }
    }
  }

  predicate Related(pending: Pending, slots: Slots) {
    && pending.Keys == slots.Keys
    && forall k :: k in pending ==> RelatedEntry(pending[k], slots[k])
  }

  predicate RelatedEntry(v: Assembly, slot: Slot) {
    && v.created == slot.created && v.rejected == slot.rejected
    && PiecesFit(slot)
    && (!v.rejected ==> slot.pieces != [] && Explains(v, slot.pieces))
  }

  lemma ExpiryKeepsRelated(pending: Pending, slots: Slots, now: nat)
    requires Related(pending, slots)
    ensures Related(Unexpired(pending, now), LiveSlots(slots, now))
    ensures |Unexpired(pending, now)| == |LiveSlots(slots, now)|
  {
    assert Unexpired(pending, now).Keys == LiveSlots(slots, now).Keys;
  }

  /** One fragment at one entry: the same packet, and related entries. */
  lemma EntryRefines(cap: nat, v: Assembly, slot: Slot, f: Fragment, now: nat)
    requires v.rejected == slot.rejected && v.created == slot.created && WellFormed(f) && Sane(v) && PiecesFit(slot)
    requires !v.rejected ==> Explains(v, slot.pieces) && (slot.pieces == [] ==> LooksLike(v, f))
    ensures EntryStep(cap, v, f).1 == SlotStep(cap, slot, f, now).1
    ensures RelatedEntry(EntryStep(cap, v, f).0, SlotStep(cap, slot, f, now).0)
  {
    hide Explains, PiecesFit, Sane, Invalid, Fits, Insert, AddRun, Tiled, Complete, Rebuilt, Disjoint, Apart;
    if !v.rejected {
      InvalidIffMisfit(v, slot.pieces, f);
      if Fits(slot.pieces, f) {
        var p := Piece(f, now);
        FitsLooksLike(v, slot.pieces, f);
        AddRunFollowsInsert(slot.pieces, p);
        StoredExplains(v, slot.pieces, p);
        CompleteIffTiled(Stored(v, f), Insert(slot.pieces, p));
      }
    }
  }

  lemma FitsLooksLike(v: Assembly, ps: seq<Piece>, f: Fragment)
    requires Explains(v, ps) && Fits(ps, f) && WellFormed(f) && (ps == [] ==> LooksLike(v, f))
    ensures LooksLike(v, f) && Disjoint(ps) && Apart(ps, f) && v.received == RunsOf(ps) && f.End() <= |v.bytes|
  {
    assert ps != [] ==> Agree(ps[0].f, f);
  }

  lemma FreshExplains(f: Fragment, now: nat)
    requires WellFormed(f) && |f.prefix| < MAX_PACKET
    ensures Explains(Fresh(f, now), []) && LooksLike(Fresh(f, now), f) && PiecesFit(Slot(now, [], false))
    ensures Sane(Fresh(f, now)) && Fresh(f, now).created == now && !Fresh(f, now).rejected
  {
  }

  /** One fragment: the same answer, and the states stay related. */
  lemma StepRefinesReference(cap: nat, pending: Pending, slots: Slots, f: Fragment, now: nat)
    requires AllSane(pending) && Related(pending, slots) && WellFormed(f)
    ensures Step(cap, pending, f, now).1 == ReferenceStep(cap, slots, f, now).1
    ensures Related(Step(cap, pending, f, now).0, ReferenceStep(cap, slots, f, now).0)
  {
    hide Explains, PiecesFit, EntryStep, SlotStep, Sane, WellFormed, LooksLike, Fresh;
    var live, ref := Unexpired(pending, now), LiveSlots(slots, now);
    ExpiryKeepsRelated(pending, slots, now);
    if f.key in live {
      EntryRefines(cap, live[f.key], ref[f.key], f, now);
    } else if |live| < MAX_PACKETS && |f.prefix| < MAX_PACKET {
      FreshExplains(f, now);
      EntryRefines(cap, Fresh(f, now), Slot(now, [], false), f, now);
    }
  }
}
