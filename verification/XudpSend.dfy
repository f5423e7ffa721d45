/**
The shared writer of an XUDP multiplexer as a state machine over its steps. A send takes the lock
of its session, then the lock of the writer, writes its frame in any number of parts and commits;
it may fail or be cancelled anywhere. Close frames use the writer lock too, but `alive` is tested
for them before they wait for the lock.
*/
module XudpSend {
  import opened Prelude
  import opened XudpWire

  datatype Phase =
    | Idle
    | Waiting(payload: seq<byte>, frame: seq<byte>)                 // holds the session lock, waits for the writer
    | Writing(payload: seq<byte>, frame: seq<byte>, written: nat)   // holds both locks

  datatype Session = Session(id: u16, target: Target, globalId: Option<seq<byte>>,
                             first: bool, usable: bool, phase: Phase)

  datatype Holder = Nobody | Sender(session: nat) | Closer(frame: seq<byte>, written: nat)

  /** A contiguous part of the output: one frame, as far as it was written. */
  datatype Segment = Segment(owner: Option<nat>, status: byte, payload: seq<byte>, frame: seq<byte>, written: nat)
  {
    predicate Data() { owner.Some? }
    predicate Whole() { written == |frame| }
  }

  datatype State = State(sessions: seq<Session>, holder: Holder, alive: bool,
                         segments: seq<Segment>, wire: seq<byte>)

  datatype Action =
    | Register(id: u16, target: Target, globalId: Option<seq<byte>>)
    | Begin(i: nat, target: Target, payload: seq<byte>)
    | Acquire(i: nat)
    | Write(i: nat, n: nat)
    | Commit(i: nat)
    | Abort(i: nat)              // an I/O error or a cancellation while writing
    | Cancel(i: nat)             // a cancellation while waiting for the writer
    | CloseAcquire(id: u16)
    | CloseWrite(n: nat)
    | CloseDone
    | CloseFail
    | Fail                       // the reader failed, or the multiplexer was dropped

  const INITIAL := State([], Nobody, true, [], [])

  function CloseFrame(id: u16): seq<byte> {
    [0, 4] + PutBe16(id) + [END, 0]
  }

  function WithPhase(s: State, i: nat, phase: Phase): State
    requires i < |s.sessions|
  {
    s.(sessions := s.sessions[i := s.sessions[i].(phase := phase)])
  }

  /** The next bytes of the current frame. */
  function Extended(s: State, frame: seq<byte>, written: nat, n: nat): State
    requires s.segments != [] && written + n <= |frame|
  {
    var last := |s.segments| - 1;
    s.(segments := s.segments[last := s.segments[last].(written := written + n)],
       wire := s.wire + frame[written..written + n])
  }

  predicate IsWriting(s: State, i: nat) {
    i < |s.sessions| && s.sessions[i].phase.Writing?
  }

  predicate IsWaiting(s: State, i: nat) {
    i < |s.sessions| && s.sessions[i].phase.Waiting?
  }

  function Registered(s: State, id: u16, target: Target, globalId: Option<seq<byte>>): State {
    if globalId.Some? && |globalId.value| != 8 then s
    else s.(sessions := s.sessions + [Session(id, target, globalId, true, true, Idle)])
  }

  /**
  The session lock is taken, the frame is built, and the session is unusable until it commits.
  The test of `alive` before the lock may be stale by now, so it is no guard here.
  */
  function Begun(parse: HostParser, s: State, i: nat, target: Target, payload: seq<byte>): State {
    if i >= |s.sessions| || !s.sessions[i].phase.Idle? then s
    else
      var session := s.sessions[i];
      if target != session.target || !session.usable
         || (session.globalId.Some? && |session.globalId.value| != 8) then s
      else match Packet(parse, session.id, target, payload, session.first, session.globalId)
        case None => s
        case Some(frame) => s.(sessions := s.sessions[i := session.(usable := false, phase := Waiting(payload, frame))])
  }

  /** The writer lock is taken; `alive` is tested under it. */
  function Acquired(s: State, i: nat): State {
    if !IsWaiting(s, i) || !s.holder.Nobody? then s
    else if !s.alive then WithPhase(s, i, Idle)
    else
      var session := s.sessions[i];
      var Waiting(payload, frame) := session.phase;
      WithPhase(s, i, Writing(payload, frame, 0)).(
        holder := Sender(i),
        segments := s.segments + [Segment(Some(i), if session.first then NEW else KEEP, payload, frame, 0)])
  }

  function Wrote(s: State, i: nat, n: nat): State {
    if !IsWriting(s, i) || s.segments == [] then s
    else
      var Writing(payload, frame, written) := s.sessions[i].phase;
      if written + n > |frame| then s
      else Extended(WithPhase(s, i, Writing(payload, frame, written + n)), frame, written, n)
  }

  function Committed(s: State, i: nat): State {
    if !IsWriting(s, i) || s.sessions[i].phase.written != |s.sessions[i].phase.frame| then s
    else s.(sessions := s.sessions[i := s.sessions[i].(phase := Idle, first := false, usable := true)],
            holder := Nobody)
  }

  /** The write attempt is dropped before the writer guard: `alive` falls under the lock. */
  function Aborted(s: State, i: nat): State {
    if !IsWriting(s, i) then s else WithPhase(s, i, Idle).(holder := Nobody, alive := false)
  }

  function Cancelled(s: State, i: nat): State {
    if !IsWaiting(s, i) then s else WithPhase(s, i, Idle)
  }

  function CloseAcquired(s: State, id: u16): State {
    if !s.holder.Nobody? then s
    else s.(holder := Closer(CloseFrame(id), 0),
            segments := s.segments + [Segment(None, END, [], CloseFrame(id), 0)])
  }

  function CloseWrote(s: State, n: nat): State {
    if !s.holder.Closer? || s.segments == [] || s.holder.written + n > |s.holder.frame| then s
    else Extended(s, s.holder.frame, s.holder.written, n).(
           holder := Closer(s.holder.frame, s.holder.written + n))
  }

  /** One step; a step that is not enabled changes nothing. */
  function Next(parse: HostParser, s: State, a: Action): State {
    match a
    case Register(id, target, globalId) => Registered(s, id, target, globalId)
    case Begin(i, target, payload) => Begun(parse, s, i, target, payload)
    case Acquire(i) => Acquired(s, i)
    case Write(i, n) => Wrote(s, i, n)
    case Commit(i) => Committed(s, i)
    case Abort(i) => Aborted(s, i)
    case Cancel(i) => Cancelled(s, i)
    case CloseAcquire(id) => CloseAcquired(s, id)
    case CloseWrite(n) => CloseWrote(s, n)
    case CloseDone =>
      if !s.holder.Closer? || s.holder.written != |s.holder.frame| then s else s.(holder := Nobody)
    case CloseFail =>
      if !s.holder.Closer? then s else s.(holder := Nobody, alive := false)
    case Fail => s.(alive := false)
  }

  function Run(parse: HostParser, actions: seq<Action>): State {
    if actions == [] then INITIAL
    else Next(parse, Run(parse, actions[..|actions| - 1]), actions[|actions| - 1])
  }

  // ---------- what every step keeps ----------

  /** The bytes of the segments, one after the other. */
  function Flat(segments: seq<Segment>): seq<byte> {
    if segments == [] then []
    else
      var last := segments[|segments| - 1];
      Flat(segments[..|segments| - 1]) + if last.written <= |last.frame| then last.frame[..last.written] else []
  }

  /** The session has no data segment among the first n. */
  predicate Silent(segments: seq<Segment>, n: nat, i: nat)
    requires n <= |segments|
  {
    forall k :: 0 <= k < n ==> segments[k].owner != Some(i)
  }

  /** A data frame only starts behind whole frames. */
  predicate Orderly(segments: seq<Segment>) {
    forall j, k :: 0 <= j < k < |segments| && segments[k].Data() ==> segments[j].Whole()
  }

  /** The first data frame of a session is a NEW, every later one a KEEP. */
  predicate OneNew(segments: seq<Segment>) {
    forall k :: 0 <= k < |segments| && segments[k].Data() ==>
      segments[k].status == if Silent(segments, k, segments[k].owner.value) then NEW else KEEP
  }

  /** The status byte of the frame is the status of the segment. */
  predicate Labelled(segments: seq<Segment>) {
    forall k :: 0 <= k < |segments| ==>
      segments[k].written <= |segments[k].frame| && |segments[k].frame| >= 6
      && segments[k].frame[4] == segments[k].status
  }

  /** The lock, the phases and the last segment fit together. */
  predicate Locked(s: State) {
    && (forall i :: 0 <= i < |s.sessions| ==> (s.sessions[i].phase.Writing? <==> s.holder == Sender(i)))
    && (s.holder.Sender? ==> s.holder.session < |s.sessions| && s.segments != []
                             && var i, last := s.holder.session, s.segments[|s.segments| - 1];
                                last.owner == Some(i) && s.sessions[i].phase == Writing(last.payload, last.frame, last.written))
    && (s.holder.Closer? ==> s.segments != []
                             && var last := s.segments[|s.segments| - 1];
                                last.owner.None? && s.holder == Closer(last.frame, last.written))
  }

  /** While the multiplexer is alive, everything but the current frame is whole. */
  predicate WholeWhileAlive(s: State) {
    s.alive ==> forall k :: 0 <= k < |s.segments| - (if s.holder.Nobody? then 0 else 1) ==> s.segments[k].Whole()
  }

  /** A session in a phase, and what its flags mean while the multiplexer is alive. */
  predicate SessionOk(s: State, i: nat)
    requires i < |s.sessions|
  {
    var session, n := s.sessions[i], |s.segments| - (if s.holder == Sender(i) && s.segments != [] then 1 else 0);
    && (session.phase.Waiting? ==> |session.phase.frame| >= 6
                                   && session.phase.frame[4] == (if session.first then NEW else KEEP))
    && (s.alive ==> (session.first <==> Silent(s.segments, n, i)))
  }

  predicate Inv(s: State) {
    && Locked(s)
    && WholeWhileAlive(s)
    && Orderly(s.segments) && OneNew(s.segments) && Labelled(s.segments)
    && s.wire == Flat(s.segments)
    && (forall i :: 0 <= i < |s.sessions| ==> SessionOk(s, i))
    && (forall k :: 0 <= k < |s.segments| && s.segments[k].Data() ==> s.segments[k].owner.value < |s.sessions|)
  }

  lemma FlatAppend(segments: seq<Segment>, segment: Segment)
    requires segment.written == 0
    ensures Flat(segments + [segment]) == Flat(segments)
  {
    assert (segments + [segment])[..|segments|] == segments;
  }

  lemma FlatExtend(segments: seq<Segment>, n: nat)
    requires segments != []
    requires var last := segments[|segments| - 1]; last.written + n <= |last.frame|
    ensures var k := |segments| - 1;
            Flat(segments[k := segments[k].(written := segments[k].written + n)])
            == Flat(segments) + segments[k].frame[segments[k].written..segments[k].written + n]
  {
    var k := |segments| - 1;
    var last := segments[k];
    var more := segments[k := last.(written := last.written + n)];
    assert more[..k] == segments[..k];
    assert last.frame[..last.written + n] == last.frame[..last.written] + last.frame[last.written..last.written + n];
  }

  function Longer(segments: seq<Segment>, n: nat): seq<Segment>
    requires segments != []
  {
    var k := |segments| - 1;
    segments[k := segments[k].(written := segments[k].written + n)]
  }

  lemma SilentSame(a: seq<Segment>, b: seq<Segment>, n: nat, i: nat)
    requires n <= |a| && n <= |b|
    requires forall k :: 0 <= k < n ==> a[k].owner == b[k].owner
    ensures Silent(a, n, i) == Silent(b, n, i)
  {
  }

  lemma LongerKeepsShape(segments: seq<Segment>, n: nat)
    requires segments != []
    requires segments[|segments| - 1].written + n <= |segments[|segments| - 1].frame|
    requires Orderly(segments) && OneNew(segments) && Labelled(segments)
    ensures Orderly(Longer(segments, n)) && OneNew(Longer(segments, n)) && Labelled(Longer(segments, n))
  {
    var more := Longer(segments, n);
    forall k | 0 <= k < |more| && more[k].Data()
      ensures more[k].status == if Silent(more, k, more[k].owner.value) then NEW else KEEP
    {
      SilentSame(segments, more, k, more[k].owner.value);
    }
  }

  /** What a frame must be to start behind the given segments. */
  predicate MayStart(segments: seq<Segment>, next: Segment) {
    && next.written == 0 && |next.frame| >= 6 && next.frame[4] == next.status
    && (next.Data() ==> (forall k :: 0 <= k < |segments| ==> segments[k].Whole())
                        && next.status == if Silent(segments, |segments|, next.owner.value) then NEW else KEEP)
  }

  lemma StartKeepsShape(segments: seq<Segment>, next: Segment)
    requires Orderly(segments) && OneNew(segments) && Labelled(segments)
    requires MayStart(segments, next)
    ensures Orderly(segments + [next]) && OneNew(segments + [next]) && Labelled(segments + [next])
  {
    var more := segments + [next];
    forall k | 0 <= k < |more| && more[k].Data()
      ensures more[k].status == if Silent(more, k, more[k].owner.value) then NEW else KEEP
    {
      SilentSame(segments, more, k, more[k].owner.value);
    }
  }

  /** Steps that leave the owners of the segments before the current one alone. */
  lemma SessionKept(s: State, t: State, i: nat)
    requires i < |s.sessions| && i < |t.sessions| && SessionOk(s, i)
    requires t.alive ==> s.alive
    requires t.sessions[i].first == s.sessions[i].first
    requires t.sessions[i].phase.Waiting? ==> t.sessions[i].phase == s.sessions[i].phase
    requires |s.segments| == |t.segments| && (s.holder == Sender(i) <==> t.holder == Sender(i))
    requires forall k :: 0 <= k < |s.segments| ==> s.segments[k].owner == t.segments[k].owner
    ensures SessionOk(t, i)
  {
    SilentSame(s.segments, t.segments,
      |s.segments| - (if s.holder == Sender(i) && s.segments != [] then 1 else 0), i);
  }

  lemma SessionAtStart(s: State, t: State, next: Segment, i: nat)
    requires i < |s.sessions| && i < |t.sessions| && SessionOk(s, i)
    requires s.holder.Nobody? && t.segments == s.segments + [next] && (t.alive ==> s.alive)
    requires t.sessions[i].first == s.sessions[i].first
    requires t.sessions[i].phase.Waiting? ==> t.sessions[i].phase == s.sessions[i].phase
    requires next.owner == Some(i) <==> t.holder == Sender(i)
    ensures SessionOk(t, i)
  {
    var n := |s.segments|;
    SilentSame(s.segments, t.segments, n, i);
    assert t.holder != Sender(i) ==> t.segments[n].owner != Some(i);
  }

  lemma FirstFits(s: State, i: nat, next: Segment)
    requires Inv(s) && IsWaiting(s, i) && s.holder.Nobody? && s.alive
    requires next == Segment(Some(i), if s.sessions[i].first then NEW else KEEP,
                             s.sessions[i].phase.payload, s.sessions[i].phase.frame, 0)
    ensures MayStart(s.segments, next)
  {
    hide Orderly, OneNew, Labelled, Flat;
    assert SessionOk(s, i);
  }

  lemma AcquireKeepsInv(s: State, i: nat)
    requires Inv(s) && IsWaiting(s, i) && s.holder.Nobody? && s.alive
    ensures Inv(Acquired(s, i))
  {
    hide Orderly, OneNew, Labelled, Flat, MayStart, Silent, SessionOk;
    var t := Acquired(s, i);
    var next := t.segments[|s.segments|];
    assert next.written == 0;
    FirstFits(s, i, next);
    StartKeepsShape(s.segments, next);
    FlatAppend(s.segments, next);
    forall j | 0 <= j < |t.sessions| ensures SessionOk(t, j) { SessionAtStart(s, t, next, j); }
  }

  lemma WriteKeepsInv(s: State, i: nat, n: nat)
    requires Inv(s) && IsWriting(s, i)
    requires s.sessions[i].phase.written + n <= |s.sessions[i].phase.frame|
    ensures Inv(Wrote(s, i, n))
  {
    hide Orderly, OneNew, Labelled, Flat, SessionOk;
    var t := Wrote(s, i, n);
    FlatExtend(s.segments, n);
    LongerKeepsShape(s.segments, n);
    assert t.segments == Longer(s.segments, n);
    forall j | 0 <= j < |t.sessions| ensures SessionOk(t, j) { SessionKept(s, t, j); }
  }

  lemma CloseWriteKeepsInv(s: State, n: nat)
    requires Inv(s) && s.holder.Closer? && s.holder.written + n <= |s.holder.frame|
    ensures Inv(CloseWrote(s, n))
  {
    hide Orderly, OneNew, Labelled, Flat, SessionOk;
    var t := CloseWrote(s, n);
    FlatExtend(s.segments, n);
    LongerKeepsShape(s.segments, n);
    assert t.segments == Longer(s.segments, n);
    forall j | 0 <= j < |t.sessions| ensures SessionOk(t, j) { SessionKept(s, t, j); }
  }

  lemma CloseAcquireKeepsInv(s: State, id: u16)
    requires Inv(s) && s.holder.Nobody?
    ensures Inv(CloseAcquired(s, id))
  {
    hide Orderly, OneNew, Labelled, Flat, Silent, SessionOk;
    var t := CloseAcquired(s, id);
    var next := t.segments[|s.segments|];
    assert MayStart(s.segments, next);
    FlatAppend(s.segments, next);
    StartKeepsShape(s.segments, next);
    forall j | 0 <= j < |t.sessions| ensures SessionOk(t, j) { SessionAtStart(s, t, next, j); }
  }

  lemma CommitKeepsInv(s: State, i: nat)
    requires Inv(s) && IsWriting(s, i) && s.sessions[i].phase.written == |s.sessions[i].phase.frame|
    ensures Inv(Committed(s, i))
  {
    hide Orderly, OneNew, Labelled, Flat;
    var t := Committed(s, i);
    assert s.segments[|s.segments| - 1].owner == Some(i);
    forall j | 0 <= j < |t.sessions| ensures SessionOk(t, j) { assert SessionOk(s, j); }
  }

  lemma AbortKeepsInv(s: State, i: nat)
    requires Inv(s) && IsWriting(s, i)
    ensures Inv(Aborted(s, i))
  {
    hide Orderly, OneNew, Labelled, Flat;
    var t := Aborted(s, i);
    forall j | 0 <= j < |t.sessions| ensures SessionOk(t, j) { assert SessionOk(s, j); }
  }

  /** The steps that touch neither the writer nor the segments. */
  lemma QuietStepKeepsInv(parse: HostParser, s: State, a: Action)
    requires Inv(s) && (a.Register? || a.Begin? || a.Cancel? || a.CloseDone? || a.CloseFail? || a.Fail?)
    ensures Inv(Next(parse, s, a))
  {
    hide Orderly, OneNew, Labelled, Flat;
    var t := Next(parse, s, a);
    forall j | 0 <= j < |t.sessions| ensures SessionOk(t, j) {
      if j < |s.sessions| { assert SessionOk(s, j); }
    }
  }

  lemma StepKeepsInv(parse: HostParser, s: State, a: Action)
    requires Inv(s)
    ensures Inv(Next(parse, s, a))
  {
    hide Inv;
    match a
    case Acquire(i) =>
      if IsWaiting(s, i) && s.holder.Nobody? {
        if s.alive { AcquireKeepsInv(s, i); } else { QuietStepKeepsInv(parse, s, Cancel(i)); }
      }
    case Write(i, n) =>
      if IsWriting(s, i) && s.sessions[i].phase.written + n <= |s.sessions[i].phase.frame| {
        WriteKeepsInv(s, i, n);
      }
    case Commit(i) =>
      if IsWriting(s, i) && s.sessions[i].phase.written == |s.sessions[i].phase.frame| { CommitKeepsInv(s, i); }
    case Abort(i) => if IsWriting(s, i) { AbortKeepsInv(s, i); }
    case CloseAcquire(id) => if s.holder.Nobody? { CloseAcquireKeepsInv(s, id); }
    case CloseWrite(n) =>
      if s.holder.Closer? && s.holder.written + n <= |s.holder.frame| { CloseWriteKeepsInv(s, n); }
    case _ => QuietStepKeepsInv(parse, s, a);
  }

  // ---------- what the frames are ----------

  predicate IsPacketOf(parse: HostParser, session: Session, payload: seq<byte>, first: bool, frame: seq<byte>) {
    && (session.globalId.Some? ==> |session.globalId.value| == 8)
    && Packet(parse, session.id, session.target, payload, first, session.globalId) == Some(frame)
  }

  /** Every data frame is the packet of its session, and so is every frame that waits. */
  predicate Built(parse: HostParser, s: State) {
    && (forall k :: 0 <= k < |s.segments| && s.segments[k].Data() ==>
                      s.segments[k].owner.value < |s.sessions|
                      && IsPacketOf(parse, s.sessions[s.segments[k].owner.value], s.segments[k].payload,
                                    s.segments[k].status == NEW, s.segments[k].frame))
    && (forall i :: 0 <= i < |s.sessions| && s.sessions[i].phase.Waiting? ==>
                      IsPacketOf(parse, s.sessions[i], s.sessions[i].phase.payload,
                                 s.sessions[i].first, s.sessions[i].phase.frame))
  }

  lemma PacketsStay(parse: HostParser, a: Session, b: Session, payload: seq<byte>, first: bool, frame: seq<byte>)
    requires a.id == b.id && a.target == b.target && a.globalId == b.globalId
    ensures IsPacketOf(parse, a, payload, first, frame) == IsPacketOf(parse, b, payload, first, frame)
  {
    hide Packet;
  }

  /** A step never changes what identifies a session. */
  lemma SessionsStay(parse: HostParser, s: State, a: Action, i: nat)
    requires i < |s.sessions|
    ensures var t := Next(parse, s, a);
            i < |t.sessions| && t.sessions[i].id == s.sessions[i].id
            && t.sessions[i].target == s.sessions[i].target && t.sessions[i].globalId == s.sessions[i].globalId
  {
    hide Packet;
  }

  lemma StepKeepsBuilt(parse: HostParser, s: State, a: Action)
    requires Built(parse, s)
    ensures Built(parse, Next(parse, s, a))
  {
    var t := Next(parse, s, a);
    forall k | 0 <= k < |t.segments| && t.segments[k].Data()
      ensures t.segments[k].owner.value < |t.sessions|
      ensures IsPacketOf(parse, t.sessions[t.segments[k].owner.value], t.segments[k].payload,
                         t.segments[k].status == NEW, t.segments[k].frame)
    {
      SegmentStaysBuilt(parse, s, a, k);
    }
    forall i | 0 <= i < |t.sessions| && t.sessions[i].phase.Waiting?
      ensures IsPacketOf(parse, t.sessions[i], t.sessions[i].phase.payload, t.sessions[i].first, t.sessions[i].phase.frame)
    {
      WaitingStaysBuilt(parse, s, a, i);
    }
  }

  lemma SegmentStaysBuilt(parse: HostParser, s: State, a: Action, k: nat)
    requires Built(parse, s)
    requires var t := Next(parse, s, a); k < |t.segments| && t.segments[k].Data()
    ensures var t := Next(parse, s, a);
            t.segments[k].owner.value < |t.sessions|
            && IsPacketOf(parse, t.sessions[t.segments[k].owner.value], t.segments[k].payload,
                          t.segments[k].status == NEW, t.segments[k].frame)
  {
    hide Packet, IsPacketOf;
    var t := Next(parse, s, a);
    var i := t.segments[k].owner.value;
    if k < |s.segments| {
      assert t.segments[k] == s.segments[k].(written := t.segments[k].written);
    } else {
      assert a.Acquire? && a.i == i && IsWaiting(s, i);
    }
    SessionsStay(parse, s, a, i);
    PacketsStay(parse, s.sessions[i], t.sessions[i], t.segments[k].payload, t.segments[k].status == NEW, t.segments[k].frame);
  }

  lemma WaitingStaysBuilt(parse: HostParser, s: State, a: Action, i: nat)
    requires Built(parse, s)
    requires var t := Next(parse, s, a); i < |t.sessions| && t.sessions[i].phase.Waiting?
    ensures var t := Next(parse, s, a);
            IsPacketOf(parse, t.sessions[i], t.sessions[i].phase.payload, t.sessions[i].first, t.sessions[i].phase.frame)
  {
    hide Packet;
    var t := Next(parse, s, a);
    if t.sessions[i].phase != s.sessions[i].phase {
      assert a.Begin? && a.i == i;
    } else {
      SessionsStay(parse, s, a, i);
    }
  }

  // ---------- every run ----------

  /** The frames of one session, in the order in which they were started. */
  function FramesOf(segments: seq<Segment>, i: nat): seq<Segment> {
    if segments == [] then []
    else
      FramesOf(segments[..|segments| - 1], i)
      + if segments[|segments| - 1].owner == Some(i) then [segments[|segments| - 1]] else []
  }

  lemma OneNewOfFirst(segments: seq<Segment>, n: nat)
    requires OneNew(segments) && n <= |segments|
    ensures OneNew(segments[..n])
  {
    var rest := segments[..n];
    forall k | 0 <= k < |rest| && rest[k].Data()
      ensures rest[k].status == if Silent(rest, k, rest[k].owner.value) then NEW else KEEP
    {
      SilentSame(segments, rest, k, rest[k].owner.value);
    }
  }

  lemma StatusOf(segments: seq<Segment>, k: nat)
    requires OneNew(segments) && k < |segments| && segments[k].Data()
    ensures segments[k].status == if Silent(segments[..k], k, segments[k].owner.value) then NEW else KEEP
  {
    SilentSame(segments, segments[..k], k, segments[k].owner.value);
  }

  /** The frames really are the session's, and their status is the place they have. */
  predicate Leads(frames: seq<Segment>, i: nat) {
    forall k :: 0 <= k < |frames| ==> frames[k].owner == Some(i) && frames[k].status == if k == 0 then NEW else KEEP
  }

  lemma FramesOfLast(segments: seq<Segment>, i: nat)
    requires OneNew(segments) && segments != []
    requires var rest := segments[..|segments| - 1];
             Leads(FramesOf(rest, i), i) && (FramesOf(rest, i) == [] <==> Silent(rest, |rest|, i))
    ensures Leads(FramesOf(segments, i), i)
    ensures FramesOf(segments, i) == [] <==> Silent(segments, |segments|, i)
  {
    var n := |segments| - 1;
    SilentSame(segments, segments[..n], n, i);
    if segments[n].owner == Some(i) {
      StatusOf(segments, n);
    }
    hide OneNew;
  }

  lemma {:induction false} FramesOfLeads(segments: seq<Segment>, i: nat)
    requires OneNew(segments)
    ensures Leads(FramesOf(segments, i), i)
    ensures FramesOf(segments, i) == [] <==> Silent(segments, |segments|, i)
    ensures forall frame <- FramesOf(segments, i) :: frame in segments
  {
    if segments != [] {
      OneNewOfFirst(segments, |segments| - 1);
      FramesOfLeads(segments[..|segments| - 1], i);
      FramesOfLast(segments, i);
      hide OneNew, Silent, Leads;
    }
  }

  lemma {:induction false} RunKeepsInv(parse: HostParser, actions: seq<Action>)
    ensures Inv(Run(parse, actions)) && Built(parse, Run(parse, actions))
  {
    if actions != [] {
      var before := actions[..|actions| - 1];
      RunKeepsInv(parse, before);
      StepKeepsInv(parse, Run(parse, before), actions[|actions| - 1]);
      StepKeepsBuilt(parse, Run(parse, before), actions[|actions| - 1]);
    }
  }

  /** The frames of a session on the wire: its own packets, one NEW and then only KEEPs. */
  predicate OwnPackets(parse: HostParser, session: Session, frames: seq<Segment>) {
    forall k :: 0 <= k < |frames| ==> IsPacketOf(parse, session, frames[k].payload, k == 0, frames[k].frame)
  }

  lemma FrameIsOwnPacket(parse: HostParser, s: State, i: nat, k: nat)
    requires Built(parse, s) && i < |s.sessions| && k < |s.segments| && s.segments[k].owner == Some(i)
    ensures IsPacketOf(parse, s.sessions[i], s.segments[k].payload, s.segments[k].status == NEW, s.segments[k].frame)
  {
    hide IsPacketOf;
    assert s.segments[k].Data();
  }

  lemma FramesAreOwnPackets(parse: HostParser, s: State, i: nat)
    requires OneNew(s.segments) && Built(parse, s) && i < |s.sessions|
    ensures OwnPackets(parse, s.sessions[i], FramesOf(s.segments, i))
  {
    hide OneNew, Built, IsPacketOf, FramesOf, Silent;
    FramesOfLeads(s.segments, i);
    var frames := FramesOf(s.segments, i);
    forall k | 0 <= k < |frames|
      ensures IsPacketOf(parse, s.sessions[i], frames[k].payload, k == 0, frames[k].frame)
    {
      assert frames[k] in s.segments;
      var j :| 0 <= j < |s.segments| && s.segments[j] == frames[k];
      FrameIsOwnPacket(parse, s, i, j);
    }
  }

  /**
  Whatever the interleaving, the failures and the cancellations: the output is a row of frames,
  none mixed into another; a data frame only starts behind whole frames; and the frames of a
  session are packets of that session, one NEW and then only KEEPs.
  */
  lemma FramesNeverMix(parse: HostParser, actions: seq<Action>)
    ensures var s := Run(parse, actions);
            && s.wire == Flat(s.segments)
            && Orderly(s.segments)
            && (forall i :: 0 <= i < |s.sessions| ==> OwnPackets(parse, s.sessions[i], FramesOf(s.segments, i)))
  {
    RunKeepsInv(parse, actions);
    var s := Run(parse, actions);
    assert OneNew(s.segments) && s.wire == Flat(s.segments) && Orderly(s.segments);
    hide *;
    forall i | 0 <= i < |s.sessions| ensures OwnPackets(parse, s.sessions[i], FramesOf(s.segments, i)) {
      FramesAreOwnPackets(parse, s, i);
    }
  }

  /** A send that returns Ok has put its whole frame on the wire, right behind all earlier frames. */
  lemma CommitMeansWritten(parse: HostParser, actions: seq<Action>, i: nat)
    requires var s := Run(parse, actions);
             IsWriting(s, i) && s.sessions[i].phase.written == |s.sessions[i].phase.frame|
    ensures var s := Run(parse, actions);
            && s.segments != [] && s.segments[|s.segments| - 1].owner == Some(i)
            && s.wire == Flat(s.segments[..|s.segments| - 1]) + s.sessions[i].phase.frame
            && (forall k :: 0 <= k < |s.segments| ==> s.segments[k].Whole())
  {
    RunKeepsInv(parse, actions);
    var s := Run(parse, actions);
    var last := s.segments[|s.segments| - 1];
    assert last.frame[..last.written] == last.frame;
  }

  // ---------- after a failure ----------

  /** The segments behind the first n are close frames. */
  predicate OnlyCloses(s: State, n: nat) {
    n <= |s.segments| && forall k :: n <= k < |s.segments| ==> !s.segments[k].Data()
  }

  lemma DeadStep(parse: HostParser, s: State, a: Action, n: nat)
    requires !s.alive && OnlyCloses(s, n)
    ensures !Next(parse, s, a).alive && OnlyCloses(Next(parse, s, a), n)
  {
    hide Packet;
  }

  /** Once the multiplexer has failed no data frame is begun, whatever the sessions still try. */
  lemma {:induction false} NoFrameAfterFailure(parse: HostParser, actions: seq<Action>, more: seq<Action>)
    ensures !Run(parse, actions + [Fail] + more).alive
    ensures OnlyCloses(Run(parse, actions + [Fail] + more), |Run(parse, actions + [Fail]).segments|)
    decreases |more|
  {
    var dead := actions + [Fail];
    assert dead[..|actions|] == actions;
    if more == [] {
      assert dead + more == dead;
    } else {
      var n, all := |more| - 1, dead + more;
      assert all[..|all| - 1] == dead + more[..n] && all[|all| - 1] == more[n];
      NoFrameAfterFailure(parse, actions, more[..n]);
      hide Next;
      DeadStep(parse, Run(parse, dead + more[..n]), more[n], |Run(parse, dead).segments|);
    }
  }

  /** The reader of the other side takes a close frame for the end of the session. */
  lemma CloseFrameEnds(parse: HostParser, id: u16, rest: seq<byte>)
    ensures ReadFrame(parse, CloseFrame(id) + rest) == Some((Ended(id), |CloseFrame(id)|))
  {
    var stream := CloseFrame(id) + rest;
    assert stream[2..6] == PutBe16(id) + [END, 0];
  }

  // ---------- which session can send again ----------

  predicate IsIdle(s: State, i: nat) {
    i < |s.sessions| && s.sessions[i].phase.Idle?
  }

  predicate IsUsable(s: State, i: nat) {
    i < |s.sessions| && s.sessions[i].usable
  }

  /** Only an idle session is usable, and its global ID is one that can be sent. */
  predicate Sane(s: State, i: nat) {
    i < |s.sessions| ==>
      && (s.sessions[i].usable ==> s.sessions[i].phase.Idle?)
      && (s.sessions[i].globalId.Some? ==> |s.sessions[i].globalId.value| == 8)
  }

  lemma StepAndUsable(parse: HostParser, s: State, a: Action, i: nat)
    requires Sane(s, i)
    ensures Sane(Next(parse, s, a), i) && (Next(parse, s, a).alive ==> s.alive)
    ensures (IsIdle(s, i) ==> IsUsable(s, i)) && Next(parse, s, a).alive && a != Cancel(i) ==>
              (IsIdle(Next(parse, s, a), i) ==> IsUsable(Next(parse, s, a), i))
    ensures IsIdle(s, i) && !IsUsable(s, i) ==> IsIdle(Next(parse, s, a), i) && !IsUsable(Next(parse, s, a), i)
  {
    hide Packet;
  }

  /** Every run: on a live multiplexer a session between two sends can send, unless a send of it was cancelled. */
  lemma {:induction false} UsableWhileAlive(parse: HostParser, actions: seq<Action>, i: nat)
    ensures var s := Run(parse, actions);
            Sane(s, i) && (s.alive && Cancel(i) !in actions && IsIdle(s, i) ==> IsUsable(s, i))
  {
    if actions != [] {
      var n := |actions| - 1;
      var before := actions[..n];
      assert actions == before + [actions[n]];
      UsableWhileAlive(parse, before, i);
      StepAndUsable(parse, Run(parse, before), actions[n], i);
      hide Next, Sane;
    }
  }

  /** A session whose send was cut off never sends again. */
  lemma {:induction false} StuckForGood(parse: HostParser, actions: seq<Action>, more: seq<Action>, i: nat)
    requires IsIdle(Run(parse, actions), i) && !IsUsable(Run(parse, actions), i)
    ensures IsIdle(Run(parse, actions + more), i) && !IsUsable(Run(parse, actions + more), i)
    decreases |more|
  {
    if more == [] {
      assert actions + more == actions;
    } else {
      var n := |more| - 1;
      var all := actions + more;
      assert all[..|all| - 1] == actions + more[..n] && all[|all| - 1] == more[n];
      StuckForGood(parse, actions, more[..n], i);
      assert Run(parse, all) == Next(parse, Run(parse, actions + more[..n]), more[n]);
      hide *;
      UsableWhileAlive(parse, actions + more[..n], i);
      StepAndUsable(parse, Run(parse, actions + more[..n]), more[n], i);
    }
  }

  /** After a commit the session is free, the writer too, and the next packet goes out as a KEEP. */
  lemma SendsAgain(parse: HostParser, actions: seq<Action>, i: nat, payload: seq<byte>)
    requires var s := Run(parse, actions); IsWriting(s, i) && s.sessions[i].phase.written == |s.sessions[i].phase.frame|
    ensures var s := Run(parse, actions);
            var t := Next(parse, s, Commit(i));
            var session := t.sessions[i];
            && t.alive == s.alive && t.holder.Nobody? && IsIdle(t, i) && IsUsable(t, i) && Sane(t, i)
            && var next := Next(parse, t, Begin(i, session.target, payload));
               match Packet(parse, session.id, session.target, payload, false, session.globalId)
               case None => next == t
               case Some(frame) => next.sessions[i].phase == Waiting(payload, frame) && next.sessions[i].phase.frame[4] == KEEP
  {
    UsableWhileAlive(parse, actions, i);
    var s := Run(parse, actions);
    var t := Next(parse, s, Commit(i));
    var session := t.sessions[i];
    PacketStatus(parse, session.id, session.target, payload, session.globalId);
    hide Packet;
  }

  lemma PacketStatus(parse: HostParser, id: u16, target: Target, payload: seq<byte>, globalId: Option<seq<byte>>)
    requires globalId.Some? ==> |globalId.value| == 8
    ensures var packet := Packet(parse, id, target, payload, false, globalId);
            packet.Some? ==> |packet.value| > 4 && packet.value[4] == KEEP
  {
  }
}
