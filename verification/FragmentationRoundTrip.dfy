/** Reassembly undoes fragmentation, for every order of arrival and every interleaving. */
module FragmentationRoundTrip {
  import opened Prelude
  import opened Ipv6Wire
  import opened Assembler
  import opened Reassembly
  import opened ReassemblyRefinement
  import opened ReassemblyRuns
  import opened Fragmentation

  /** A packet that `fragment` cuts, with its parameters. */
  datatype Job = Job(packet: seq<byte>, mtu: nat, ident: seq<byte>)
  {
    predicate Valid() {
      && mtu >= 1280 && |ident| == 4
      && Exact(packet) && mtu < |packet| <= MAX_PACKET && Fragmentable(packet[6])
    }

    function Length(): nat
      requires Valid()
    {
      |packet| - HEADER
    }

    function Starts(): seq<nat>
      requires Valid()
    {
      Offsets(StepOf(mtu), 0, Length())
    }

    function Part(at: nat): Fragment
      requires Valid() && at < Length()
    {
      PieceAt(packet, StepOf(mtu), ident, at)
    }

    function K(): Key
      requires Valid()
    {
      Key(packet[8..24], packet[24..40], ident)
    }

    /** One of the fragments that `fragment` produces. */
    predicate Own(f: Fragment)
      requires Valid()
    {
      f.start in Starts() && f.start < Length() && f == Part(f.start)
    }
  }

  /** Two different fragments of one packet agree. */
  lemma OwnPartsAgree(j: Job, f: Fragment, g: Fragment)
    requires j.Valid() && j.Own(f) && j.Own(g) && f.start != g.start
    ensures Agree(f, g)
  {
    OffsetsAreSpaced(StepOf(j.mtu), 0, j.Length());
    var o := j.Starts();
    var a :| 0 <= a < |o| && o[a] == f.start;
    var b :| 0 <= b < |o| && o[b] == g.start;
  }

  lemma OwnPartIsAcceptable(j: Job, f: Fragment)
    requires j.Valid() && j.Own(f)
    ensures WellFormed(f) && Acceptable(f) && f.key == j.K() && !Atomic(f)
  {
    hide Offsets, Frames, FrameOf, Exact;
  }

  lemma OwnPartIsHeld(j: Job, f: Fragment)
    requires j.Valid() && j.Own(f)
    ensures Holds(j.packet[HEADER..], f)
  {
    hide Offsets, PutBe16, Exact;
    assert j.packet[HEADER..][f.start..f.End()] == f.payload;
  }

  /** The stored pieces are the fragments at the offsets fed so far. */
  ghost predicate Half(j: Job, ps: seq<Piece>, fed: seq<nat>)
    requires j.Valid()
  {
    && Disjoint(ps)
    && (forall p :: p in ps ==> j.Own(p.f) && p.f.start in fed)
    && (forall a :: a in fed ==> exists p :: p in ps && p.f.start == a)
    && RunsOf(ps) == Arrival(j, fed)
  }

  /** The runs of the assembler after fragments have arrived in this order. */
  function Arrival(j: Job, fed: seq<nat>): seq<Run>
    requires j.Valid()
  {
    if fed == [] then []
    else
      var at := fed[|fed| - 1];
      AddRun(Arrival(j, fed[..|fed| - 1]), at, Min(at + StepOf(j.mtu), j.Length()))
  }

  predicate AllFed(j: Job, fed: seq<nat>)
    requires j.Valid()
  {
    forall a :: a in j.Starts() ==> a in fed
  }

  lemma HalfFits(j: Job, ps: seq<Piece>, fed: seq<nat>, f: Fragment)
    requires j.Valid() && Half(j, ps, fed) && j.Own(f) && f.start !in fed
    ensures Fits(ps, f)
  {
    OwnPartIsAcceptable(j, f);
    forall i | 0 <= i < |ps| ensures Agree(ps[i].f, f) {
      assert ps[i] in ps;
      OwnPartsAgree(j, ps[i].f, f);
    }
  }

  lemma HalfGrows(j: Job, ps: seq<Piece>, fed: seq<nat>, p: Piece)
    requires j.Valid() && Half(j, ps, fed) && j.Own(p.f) && p.f.start !in fed
    ensures Half(j, Insert(ps, p), fed + [p.f.start])
  {
    hide Offsets, Insert, Acceptable;
    HalfFits(j, ps, fed, p.f);
    InsertAddsOne(ps, p);
    InsertKeepsOrder(ps, p);
    ArrivalGrows(j, ps, fed, p);
    var fed' := fed + [p.f.start];
    forall a | a in fed' ensures exists q :: q in Insert(ps, p) && q.f.start == a {
      if a in fed {
        var q :| q in ps && q.f.start == a;
        assert q in Insert(ps, p);
      } else {
        assert p in Insert(ps, p);
      }
    }
  }

  lemma ArrivalGrows(j: Job, ps: seq<Piece>, fed: seq<nat>, p: Piece)
    requires j.Valid() && j.Own(p.f) && Disjoint(ps) && Apart(ps, p.f) && RunsOf(ps) == Arrival(j, fed)
    ensures RunsOf(Insert(ps, p)) == Arrival(j, fed + [p.f.start])
  {
    hide Offsets, Insert, AddRun, RunsOf;
    AddRunFollowsInsert(ps, p);
    assert (fed + [p.f.start])[..|fed|] == fed;
  }

  /** The pieces tile the datagram exactly when every fragment has arrived. */
  lemma TiledIffAllFed(j: Job, ps: seq<Piece>, fed: seq<nat>)
    requires j.Valid() && Half(j, ps, fed) && ps != []
    ensures Tiled(ps) <==> AllFed(j, fed)
  {
    if Tiled(ps) { TiledHasAll(j, ps, fed); }
    if AllFed(j, fed) { AllFedCovers(j, ps, fed); }
  }

  lemma TiledHasAll(j: Job, ps: seq<Piece>, fed: seq<nat>)
    requires j.Valid() && Half(j, ps, fed) && Tiled(ps)
    ensures AllFed(j, fed)
  {
    hide Offsets, RunsOf, Arrival, Fill;
    var last := ps[|ps| - 1];
    assert last in ps;
    FillIsCover(ps, 0, last.f.End());
    OffsetsAreSpaced(StepOf(j.mtu), 0, j.Length());
    forall a | a in j.Starts() ensures a in fed { CoveredIsFed(j, ps, fed, a); }
  }

  /** A chunk whose first byte is covered was fed. */
  lemma CoveredIsFed(j: Job, ps: seq<Piece>, fed: seq<nat>, a: nat)
    requires j.Valid() && Half(j, ps, fed) && a in j.Starts() && InPieces(ps, a)
    ensures a in fed
  {
    hide Offsets, RunsOf, Arrival, Disjoint;
    PiecesAsElements(ps, a);
    var p :| p in ps && p.f.start <= a < p.f.End();
    SameChunk(j, p.f.start, a);
  }

  lemma SameChunk(j: Job, a: nat, b: nat)
    requires j.Valid() && a in j.Starts() && b in j.Starts() && a <= b < a + StepOf(j.mtu)
    ensures a == b
  {
    OffsetsAreSpaced(StepOf(j.mtu), 0, j.Length());
  }

  lemma AllFedCovers(j: Job, ps: seq<Piece>, fed: seq<nat>)
    requires j.Valid() && Half(j, ps, fed) && AllFed(j, fed) && ps != []
    ensures Tiled(ps) && ps[|ps| - 1].f.End() == j.Length()
  {
    hide Offsets, RunsOf, Arrival;
    forall x | 0 <= x < j.Length() ensures InPieces(ps, x) { AllFedReach(j, ps, fed, x); }
    forall i | 0 <= i < |ps| ensures ps[i].f.End() <= j.Length() { assert ps[i] in ps; }
    CoverIsFill(ps, 0, j.Length());
    assert InPieces(ps, j.Length() - 1);
    var last := ps[|ps| - 1];
    assert last in ps;
    assert forall i :: 0 <= i < |ps| ==> ps[i].f.End() <= last.f.End();
  }

  lemma AllFedReach(j: Job, ps: seq<Piece>, fed: seq<nat>, x: nat)
    requires j.Valid() && Half(j, ps, fed) && AllFed(j, fed) && x < j.Length()
    ensures InPieces(ps, x)
  {
    hide Offsets, RunsOf, Arrival, Disjoint;
    OffsetsAreSpaced(StepOf(j.mtu), 0, j.Length());
    var o := j.Starts();
    assert Reached(o, StepOf(j.mtu), x);
    var i :| 0 <= i < |o| && o[i] <= x < o[i] + StepOf(j.mtu);
    assert o[i] in o;
    var p :| p in ps && p.f.start == o[i];
    PiecesAsElements(ps, x);
  }

  /** Then the packet that is handed on is the original. */
  lemma TiledGivesOriginal(j: Job, ps: seq<Piece>, fed: seq<nat>)
    requires j.Valid() && Half(j, ps, fed) && AllFed(j, fed) && ps != []
    ensures WellFormed(ps[0].f) && ReferencePacket(ps) == j.packet
  {
    hide Rebuilt, AllFed, WellFormed, RunsOf, Arrival;
    AllFedCovers(j, ps, fed);
    assert ps[0] in ps;
    OwnPartIsAcceptable(j, ps[0].f);
    OriginalRebuilt(j, ps[0].f);
    TiledJoins(j, ps, fed);
  }

  lemma TiledJoins(j: Job, ps: seq<Piece>, fed: seq<nat>)
    requires j.Valid() && Half(j, ps, fed) && Tiled(ps) && ps[|ps| - 1].f.End() == j.Length()
    ensures Joined(ps) == j.packet[HEADER..]
  {
    hide RunsOf, Arrival, Offsets;
    forall i | 0 <= i < |ps| ensures Holds(j.packet[HEADER..], ps[i].f) {
      assert ps[i] in ps;
      OwnPartIsHeld(j, ps[i].f);
    }
    FillIsJoined(ps, 0, j.Length(), j.packet[HEADER..]);
  }

  lemma OriginalRebuilt(j: Job, f: Fragment)
    requires j.Valid() && j.Own(f) && WellFormed(f)
    ensures Rebuilt(f.prefix, f.previous, f.next, j.packet[HEADER..]) == j.packet
  {
    hide PutBe16, Be16;
    var r, n := Rebuilt(f.prefix, f.previous, f.next, j.packet[HEADER..]), j.Length();
    Keeps16(n);
    PutUndoesBe(j.packet[4], j.packet[5]);
    assert forall i :: 0 <= i < |r| ==> r[i] == j.packet[i];
  }

  // ---------- one fragment at its slot ----------

  /** The last missing fragment hands the packet on; any other is stored. */
  lemma OwnStep(cap: nat, j: Job, slot: Slot, fed: seq<nat>, f: Fragment, now: nat)
    requires j.Valid() && PiecesFit(slot) && !slot.rejected && Half(j, slot.pieces, fed)
    requires j.Own(f) && f.start !in fed && |Arrival(j, fed + [f.start])| <= cap
    ensures WellFormed(f)
    ensures var r := SlotStep(cap, slot, f, now);
            && r.0.created == slot.created && !r.0.rejected && Half(j, r.0.pieces, fed + [f.start])
            && r.1 == (if AllFed(j, fed + [f.start]) then Some(j.packet) else None)
  {
    hide Half, Fits, Tiled, Insert, RunsOf, AllFed, ReferencePacket, WellFormed, Acceptable, Arrival, PiecesFit;
    var p := Piece(f, now);
    OwnPartIsAcceptable(j, f);
    HalfFits(j, slot.pieces, fed, f);
    HalfGrows(j, slot.pieces, fed, p);
    HalfRuns(j, Insert(slot.pieces, p), fed + [f.start]);
    TiledIffAllFed(j, Insert(slot.pieces, p), fed + [f.start]);
    if AllFed(j, fed + [f.start]) { TiledGivesOriginal(j, Insert(slot.pieces, p), fed + [f.start]); }
  }

  lemma HalfRuns(j: Job, ps: seq<Piece>, fed: seq<nat>)
    requires j.Valid() && Half(j, ps, fed)
    ensures RunsOf(ps) == Arrival(j, fed) && (fed != [] ==> ps != [])
  {
    SomeElement(fed);
  }

  lemma EmptyHalf(j: Job)
    requires j.Valid()
    ensures Half(j, [], [])
  {
  }

  // ---------- a whole delivery ----------

  predicate ForJob(j: Job, input: Input)
    requires j.Valid()
  {
    Partial(input) && PartOf(input).key == j.K()
  }

  /** The offsets of the packet's fragments among the inputs, in the order of arrival. */
  function FedBy(j: Job, inputs: seq<Input>): seq<nat>
    requires j.Valid()
  {
    if inputs == [] then []
    else
      var input := inputs[|inputs| - 1];
      FedBy(j, inputs[..|inputs| - 1]) + if ForJob(j, input) then [PartOf(input).start] else []
  }

  /**
  Fragments of the packet arrive in any order, each at most once, mixed with anything else.
  The first finds no live entry and a free place, all arrive within a lifetime of it, and the
  assembler never has more than `cap` runs.
  */
  ghost predicate Delivery(cap: nat, j: Job, before: seq<Input>, mixed: seq<Input>) {
    && j.Valid() && Ordered(before + mixed) && mixed != []
    && ForJob(j, mixed[0])
    && j.K() !in Unexpired(After(cap, map[], before), mixed[0].now)
    && |Unexpired(After(cap, map[], before), mixed[0].now)| < MAX_PACKETS
    && forall i :: 0 <= i < |mixed| ==> Arrives(cap, j, mixed, i)
  }

  ghost predicate Arrives(cap: nat, j: Job, mixed: seq<Input>, i: nat)
    requires j.Valid() && i < |mixed|
  {
    && mixed[i].now - mixed[0].now < LIFETIME
    && (ForJob(j, mixed[i]) ==>
          && j.Own(PartOf(mixed[i]))
          && PartOf(mixed[i]).start !in FedBy(j, mixed[..i])
          && |Arrival(j, FedBy(j, mixed[..i]) + [PartOf(mixed[i]).start])| <= cap)
  }

  lemma DeliveryIsValid(cap: nat, j: Job, before: seq<Input>, mixed: seq<Input>)
    requires Delivery(cap, j, before, mixed)
    ensures j.Valid() && mixed != [] && ForJob(j, mixed[0])
  {
  }

  lemma DeliveryPrefix(cap: nat, j: Job, before: seq<Input>, mixed: seq<Input>)
    requires Delivery(cap, j, before, mixed) && |mixed| > 1
    ensures Delivery(cap, j, before, mixed[..|mixed| - 1])
  {
    hide After, FedBy, Arrival, Parse;
    var less := mixed[..|mixed| - 1];
    assert before + less == (before + mixed)[..|before| + |less|];
    forall i | 0 <= i < |less| ensures Arrives(cap, j, less, i) {
      assert Arrives(cap, j, mixed, i) && less[..i] == mixed[..i];
    }
  }

  /** Anything but a fragment of the datagram leaves its live slot alone. */
  lemma OthersKeepSlot(cap: nat, slots: Slots, k: Key, input: Input)
    requires forall k :: k in slots ==> PiecesFit(slots[k])
    requires k in slots && input.now - slots[k].created < LIFETIME
    requires !(Partial(input) && PartOf(input).key == k)
    ensures k in ReferenceFed(cap, slots, input).0 && ReferenceFed(cap, slots, input).0[k] == slots[k]
  {
    hide SlotStep, PiecesFit, Parse;
    var live := LiveSlots(slots, input.now);
    assert k in live && live[k] == slots[k];
    if Partial(input) {
      StepElsewhere(cap, slots, k, PartOf(input), input.now);
    } else {
      assert ReferenceFed(cap, slots, input).0 == slots || ReferenceFed(cap, slots, input).0 == live;
    }
  }

  lemma StepElsewhere(cap: nat, slots: Slots, k: Key, f: Fragment, now: nat)
    requires WellFormed(f) && forall k :: k in slots ==> PiecesFit(slots[k])
    requires k in LiveSlots(slots, now) && f.key != k
    ensures k in ReferenceStep(cap, slots, f, now).0 && ReferenceStep(cap, slots, f, now).0[k] == slots[k]
  {
    hide SlotStep, PiecesFit;
  }

  /** The slot of the datagram while fragments are missing. */
  ghost predicate Waiting(cap: nat, j: Job, before: seq<Input>, mixed: seq<Input>)
    requires j.Valid() && mixed != []
  {
    var slots := ReferenceAfter(cap, before + mixed);
    && j.K() in slots && slots[j.K()].created == mixed[0].now && !slots[j.K()].rejected
    && Half(j, slots[j.K()].pieces, FedBy(j, mixed))
  }

  /** The slot that the last fragment of a delivery meets. */
  ghost predicate MeetsHalf(cap: nat, j: Job, before: seq<Input>, mixed: seq<Input>)
    requires j.Valid() && mixed != []
  {
    var n := |mixed| - 1;
    var slot := Met(ReferenceAfter(cap, before + mixed[..n]), j.K(), mixed[n].now);
    slot.created == mixed[0].now && !slot.rejected && Half(j, slot.pieces, FedBy(j, mixed[..n]))
  }

  lemma FirstMeetsHalf(cap: nat, j: Job, before: seq<Input>, mixed: seq<Input>)
    requires Delivery(cap, j, before, mixed) && |mixed| == 1
    ensures MeetsHalf(cap, j, before, mixed) && HasRoom(cap, j, before, mixed)
  {
    hide Half, Parse, After, ReferenceAfter, Explains;
    RunsAgree(cap, before);
    assert before + mixed[..0] == before;
    ExpiryKeepsRelated(After(cap, map[], before), ReferenceAfter(cap, before), mixed[0].now);
    EmptyHalf(j);
  }

  lemma NextMeetsHalf(cap: nat, j: Job, before: seq<Input>, mixed: seq<Input>)
    requires Delivery(cap, j, before, mixed) && |mixed| > 1
    requires Waiting(cap, j, before, mixed[..|mixed| - 1])
    ensures MeetsHalf(cap, j, before, mixed) && HasRoom(cap, j, before, mixed)
  {
    hide Half, Parse, After, ReferenceAfter;
    assert Arrives(cap, j, mixed, |mixed| - 1);
  }

  /** The reference run takes the last fragment to its slot. */
  ghost predicate HasRoom(cap: nat, j: Job, before: seq<Input>, mixed: seq<Input>)
    requires j.Valid() && mixed != []
  {
    var live := LiveSlots(ReferenceAfter(cap, before + mixed[..|mixed| - 1]), mixed[|mixed| - 1].now);
    j.K() in live || |live| < MAX_PACKETS
  }

  /** A fragment of the packet at the end of a delivery: the answer, and the slot if some are missing. */
  lemma LastFragment(cap: nat, j: Job, before: seq<Input>, mixed: seq<Input>)
    requires Delivery(cap, j, before, mixed) && ForJob(j, mixed[|mixed| - 1])
    requires MeetsHalf(cap, j, before, mixed) && HasRoom(cap, j, before, mixed)
    ensures Answer(cap, map[], before + mixed) == (if AllFed(j, FedBy(j, mixed)) then Some(j.packet) else None)
    ensures !AllFed(j, FedBy(j, mixed)) ==> Waiting(cap, j, before, mixed)
  {
    hide Half, Parse, Partial, PartOf, After, Answer, ReferenceAfter, SlotStep, AllFed, Arrival, PiecesFit, WellFormed, Met;
    DeliveryIsValid(cap, j, before, mixed);
    var n, all := |mixed| - 1, before + mixed;
    assert all[..|all| - 1] == before + mixed[..n] && all[|all| - 1] == mixed[n];
    assert Arrives(cap, j, mixed, n);
    var f, now := PartOf(mixed[n]), mixed[n].now;
    PrefixIsShort(j, f);
    FragmentMeetsSlot(cap, all);
    OwnStep(cap, j, Met(ReferenceAfter(cap, before + mixed[..n]), j.K(), now), FedBy(j, mixed[..n]), f, now);
  }

  lemma PrefixIsShort(j: Job, f: Fragment)
    requires j.Valid() && j.Own(f)
    ensures |f.prefix| < MAX_PACKET
  {
  }

  /** An input that is not for the packet. */
  lemma StaysWaiting(cap: nat, j: Job, before: seq<Input>, mixed: seq<Input>)
    requires Delivery(cap, j, before, mixed) && |mixed| > 1 && !ForJob(j, mixed[|mixed| - 1])
    requires Waiting(cap, j, before, mixed[..|mixed| - 1])
    ensures Waiting(cap, j, before, mixed)
  {
    hide Half, Parse, After, ReferenceFed, PiecesFit;
    var n, all := |mixed| - 1, before + mixed;
    assert all[..|all| - 1] == before + mixed[..n] && all[|all| - 1] == mixed[n];
    assert Arrives(cap, j, mixed, n);
    assert FedBy(j, mixed) == FedBy(j, mixed[..n]);
    OthersKeepSlot(cap, ReferenceAfter(cap, before + mixed[..n]), j.K(), mixed[n]);
  }

  lemma {:induction false} StillWaiting(cap: nat, j: Job, before: seq<Input>, mixed: seq<Input>)
    requires Delivery(cap, j, before, mixed) && !AllFed(j, FedBy(j, mixed))
    ensures Waiting(cap, j, before, mixed)
    decreases |mixed|
  {
    hide Delivery, Waiting, MeetsHalf, HasRoom, ReferenceAfter;
    DeliveryIsValid(cap, j, before, mixed);
    var n := |mixed| - 1;
    if n == 0 {
      FirstMeetsHalf(cap, j, before, mixed);
      LastFragment(cap, j, before, mixed);
    } else {
      DeliveryPrefix(cap, j, before, mixed);
      assert FedBy(j, mixed[..n]) <= FedBy(j, mixed);
      StillWaiting(cap, j, before, mixed[..n]);
      if ForJob(j, mixed[n]) {
        NextMeetsHalf(cap, j, before, mixed);
        LastFragment(cap, j, before, mixed);
      } else {
        StaysWaiting(cap, j, before, mixed);
      }
    }
  }

  /**
  Reassembly undoes fragmentation. In every delivery, a fragment of the packet is answered with
  nothing while fragments are missing, and the one that completes them with the original bytes.
  */
  lemma ReassemblyUndoesFragmentation(cap: nat, j: Job, before: seq<Input>, mixed: seq<Input>)
    requires Delivery(cap, j, before, mixed) && ForJob(j, mixed[|mixed| - 1])
    ensures Answer(cap, map[], before + mixed) == (if AllFed(j, FedBy(j, mixed)) then Some(j.packet) else None)
  {
    hide Half, Parse, After, Answer, SlotStep, Arrival, ReferenceAfter;
    var n := |mixed| - 1;
    if n == 0 {
      FirstMeetsHalf(cap, j, before, mixed);
    } else {
      DeliveryPrefix(cap, j, before, mixed);
      assert Arrives(cap, j, mixed, n);
      StillWaiting(cap, j, before, mixed[..n]);
      NextMeetsHalf(cap, j, before, mixed);
    }
    LastFragment(cap, j, before, mixed);
  }

  /** What `fragment` produces is what a delivery is made of: every frame is one fragment, within the MTU. */
  lemma FramesAreOwnParts(j: Job, i: nat)
    requires j.Valid() && i < |Frames(j.packet, StepOf(j.mtu), j.ident, 0)|
    ensures |Frames(j.packet, StepOf(j.mtu), j.ident, 0)| == |j.Starts()|
    ensures var frame := Frames(j.packet, StepOf(j.mtu), j.ident, 0)[i];
            && |frame| <= j.mtu
            && Parse(frame).Part? && j.Own(Parse(frame).f) && Parse(frame).f.key == j.K()
            && Parse(frame).f.start == j.Starts()[i] && !Atomic(Parse(frame).f)
  {
    hide Parse, FrameOf, Offsets, Frames;
    FramesFollowOffsets(j.packet, StepOf(j.mtu), j.ident, 0);
    FrameParses(j.packet, j.mtu, j.ident, j.Starts()[i]);
    OwnPartIsAcceptable(j, j.Part(j.Starts()[i]));
  }

  // ---------- the plainest delivery ----------

  /** The first n frames, in order, at one instant. */
  function InOrder(j: Job, n: nat): seq<Input>
    requires j.Valid() && n <= |Frames(j.packet, StepOf(j.mtu), j.ident, 0)|
  {
    seq(n, i requires 0 <= i < n => Accept(Frames(j.packet, StepOf(j.mtu), j.ident, 0)[i], 0))
  }

  lemma InOrderIsOwn(j: Job, n: nat, i: nat)
    requires j.Valid() && i < n <= |Frames(j.packet, StepOf(j.mtu), j.ident, 0)|
    ensures |Frames(j.packet, StepOf(j.mtu), j.ident, 0)| == |j.Starts()|
    ensures ForJob(j, InOrder(j, n)[i]) && j.Own(PartOf(InOrder(j, n)[i])) && PartOf(InOrder(j, n)[i]).start == j.Starts()[i]
  {
    hide Parse, Offsets, Frames;
    FramesAreOwnParts(j, i);
  }

  lemma {:induction false} InOrderFeeds(j: Job, n: nat)
    requires j.Valid() && n <= |Frames(j.packet, StepOf(j.mtu), j.ident, 0)| == |j.Starts()|
    ensures FedBy(j, InOrder(j, n)) == j.Starts()[..n]
  {
    hide Offsets, Frames, ForJob, PartOf, Partial;
    if n > 0 {
      assert InOrder(j, n)[..n - 1] == InOrder(j, n - 1);
      InOrderFeeds(j, n - 1);
      InOrderIsOwn(j, n, n - 1);
      assert j.Starts()[..n] == j.Starts()[..n - 1] + [j.Starts()[n - 1]];
    }
  }

  lemma {:induction false} OffsetsAreMultiples(step: nat, from: nat, length: nat, i: nat)
    requires step > 0 && i < |Offsets(step, from, length)|
    ensures Offsets(step, from, length)[i] == from + i * step
    ensures from + i * step < length && (i + 1 < |Offsets(step, from, length)| <==> from + i * step + step < length)
    decreases i
  {
    if i > 0 {
      OffsetsAreMultiples(step, from + step, length, i - 1);
      assert (i - 1) * step + step == i * step;
    }
  }

  lemma StartsFollow(j: Job, i: nat)
    requires j.Valid() && i < |j.Starts()|
    ensures j.Starts()[0] == 0 && j.Starts()[i] < j.Length()
    ensures i + 1 < |j.Starts()| ==> j.Starts()[i + 1] == j.Starts()[i] + StepOf(j.mtu) < j.Length()
  {
    var step, n := StepOf(j.mtu), j.Length();
    OffsetsAreMultiples(step, 0, n, 0);
    OffsetsAreMultiples(step, 0, n, i);
    if i + 1 < |j.Starts()| { OffsetsAreMultiples(step, 0, n, i + 1); }
  }

  lemma RunGrows(a: nat, b: nat)
    requires a <= b
    ensures AddRun([Run(0, a)], a, b) == [Run(0, b)]
  {
  }

  /** In order, the fragments make one run that grows from zero. */
  lemma {:induction false} InOrderIsOneRun(j: Job, n: nat)
    requires j.Valid() && 0 < n <= |j.Starts()|
    ensures Arrival(j, j.Starts()[..n]) == [Run(0, Min(j.Starts()[n - 1] + StepOf(j.mtu), j.Length()))]
  {
    hide Offsets, StepOf;
    var o := j.Starts();
    var last, end := o[n - 1], Min(o[n - 1] + StepOf(j.mtu), j.Length());
    assert o[..n][..n - 1] == o[..n - 1] && o[..n][n - 1] == last;
    assert Arrival(j, o[..n]) == AddRun(Arrival(j, o[..n - 1]), last, end);
    StartsFollow(j, n - 1);
    if n == 1 {
      assert o[..0] == [];
    } else {
      StartsFollow(j, n - 2);
      InOrderIsOneRun(j, n - 1);
      RunGrows(last, end);
    }
  }

  lemma InOrderIsDelivery(cap: nat, j: Job, n: nat)
    requires j.Valid() && cap >= 1 && 0 < n <= |Frames(j.packet, StepOf(j.mtu), j.ident, 0)|
    ensures n <= |j.Starts()| && FedBy(j, InOrder(j, n)) == j.Starts()[..n]
    ensures Delivery(cap, j, [], InOrder(j, n)) && ForJob(j, InOrder(j, n)[n - 1])
  {
    hide Offsets, Frames, ForJob, PartOf, Partial, FedBy, Arrival;
    var mixed := InOrder(j, n);
    assert [] + mixed == mixed;
    InOrderIsOwn(j, n, 0);
    InOrderIsOwn(j, n, n - 1);
    InOrderFeeds(j, n);
    forall i | 0 <= i < n ensures Arrives(cap, j, mixed, i) {
      InOrderIsOwn(j, n, i);
      InOrderArrives(cap, j, n, i);
    }
  }

  lemma InOrderArrives(cap: nat, j: Job, n: nat, i: nat)
    requires j.Valid() && cap >= 1 && i < n <= |Frames(j.packet, StepOf(j.mtu), j.ident, 0)| == |j.Starts()|
    ensures j.Starts()[i] !in FedBy(j, InOrder(j, n)[..i])
    ensures |Arrival(j, FedBy(j, InOrder(j, n)[..i]) + [j.Starts()[i]])| <= cap
  {
    hide Frames, Offsets, FedBy, Arrival;
    var o := j.Starts();
    assert InOrder(j, n)[..i] == InOrder(j, i);
    InOrderFeeds(j, i);
    OffsetsAreSpaced(StepOf(j.mtu), 0, j.Length());
    assert o[..i] + [o[i]] == o[..i + 1];
    InOrderIsOneRun(j, i + 1);
  }

  /** Frames that arrive in order need one run only: nothing until the last one, and then the packet. */
  lemma InOrderArrivalReassembles(cap: nat, j: Job, n: nat)
    requires j.Valid() && cap >= 1 && 0 < n <= |Frames(j.packet, StepOf(j.mtu), j.ident, 0)|
    ensures Answer(cap, map[], InOrder(j, n))
            == (if n == |Frames(j.packet, StepOf(j.mtu), j.ident, 0)| then Some(j.packet) else None)
  {
    hide Offsets, Frames, Answer, Delivery, FedBy;
    InOrderIsDelivery(cap, j, n);
    InOrderIsOwn(j, n, 0);
    ReassemblyUndoesFragmentation(cap, j, [], InOrder(j, n));
    assert [] + InOrder(j, n) == InOrder(j, n);
    PartOfStarts(j, n);
  }

  lemma PartOfStarts(j: Job, n: nat)
    requires j.Valid() && n <= |j.Starts()|
    ensures AllFed(j, j.Starts()[..n]) <==> n == |j.Starts()|
  {
    hide Offsets;
    var o := j.Starts();
    if n == |o| {
      assert o[..n] == o;
    } else {
      OffsetsAreSpaced(StepOf(j.mtu), 0, j.Length());
      assert o[n] in o && o[n] !in o[..n];
    }
  }
}
