/**
The Vision stream: padding and unpadding driven by polls, with independent switches of the two
directions from the outer TLS stream to the raw socket.

The transport below answers every poll as it likes: it may be pending, fail, take any part of a
write and return any non-empty prefix of what is there. The TLS engine itself is not part of this
model; the transport keeps the bytes inside the outer TLS stream and the raw bytes apart.
*/
module Vision {
  import opened Prelude
  import opened TlsHello
  import opened VisionFrames

  datatype Poll<T> = Pending | Ready(value: T) | Failed(malformed: bool)

  // ---------- the sniffer that picks the command ----------

  datatype InnerTls = InnerTls(client: seq<byte>, server: Hello, tls: bool, tls13: bool, remaining: nat)

  const FRESH_SNIFF := InnerTls([], FRESH, false, false, 65536)

  function Observed(s: InnerTls, bytes: seq<byte>, fromServer: bool): (r: InnerTls)
    requires Open(s.server)
    ensures Open(r.server)
  {
    if s.remaining == 0 || s.tls13 then s
    else
      var remaining := if |bytes| < s.remaining then s.remaining - |bytes| else 0;
      if fromServer then
        var (server, verdict) := FeedAll(s.server, bytes);
        if verdict.Some? then s.(server := server, tls := true, tls13 := verdict.value, remaining := remaining)
        else s.(server := server, remaining := remaining)
      else
        var count := Min(|bytes|, if |s.client| < 8 then 8 - |s.client| else 0);
        var client := s.client + bytes[..count];
        var hello := |client| >= 6 && client[0] == 22 && client[1] == 3 && client[5] == 1;
        s.(client := client, tls := s.tls || hello, remaining := remaining)
  }

  /** The command of the frame that carries `bytes`, after they have been observed. */
  function CommandFor(s: InnerTls, bytes: seq<byte>): (c: byte)
    ensures c <= 2
  {
    if s.tls && [0x17, 3, 3] <= bytes then (if s.tls13 then 2 else 1)
    else if s.remaining == 0 || (!s.tls && |s.client| >= 8) then 1
    else 0
  }

  /** The padding, from a draw below 500 or 256. */
  function PaddingFor(s: InnerTls, length: nat, draw: nat): nat {
    if length >= 900 then 0 else if s.tls then 900 - length + draw % 500 else draw % 256
  }

  function FrameFor(s: InnerTls, bytes: seq<byte>, draw: nat): Frame {
    Frame(CommandFor(s, bytes), bytes, PaddingFor(s, |bytes|, draw))
  }

  lemma FrameForFits(s: InnerTls, bytes: seq<byte>, draw: nat)
    requires |bytes| <= 8192 - 21
    ensures Encodable(FrameFor(s, bytes, draw)) && FrameFor(s, bytes, draw).content == bytes
  {
  }

  // ---------- what the two directions show ----------

  const BUDGET := 65536
  const APPLICATION_DATA: seq<byte> := [0x17, 3, 3]

  predicate ClientHello(said: seq<byte>) {
    |said| >= 6 && said[0] == 22 && said[1] == 3 && said[5] == 1
  }

  /** Either side has begun a TLS handshake. */
  predicate IsTls(heard: seq<byte>, said: seq<byte>) {
    OneShot([], heard).Some? || ClientHello(said)
  }

  /** The sniffer after `heard` was delivered and `said` was framed, in any interleaving. */
  predicate Watched(s: InnerTls, heard: seq<byte>, said: seq<byte>) {
    var total := |heard| + |said|;
    && Open(s.server)
    && (s.tls13 ==> s.tls && OneShot([], heard) == Some(true))
    && (!s.tls13 && total >= BUDGET ==> s.remaining == 0)
    && (total < BUDGET ==>
          && s.remaining >= BUDGET - total
          && (s.tls13 <==> OneShot([], heard) == Some(true))
          && (s.tls <==> IsTls(heard, said)))
    && (total < BUDGET && !s.tls13 ==>
          && s.remaining == BUDGET - total
          && s.client == said[..Min(|said|, 8)]
          && s.server == FeedAll(FRESH, heard).0)
  }

  /** A verdict on a stream stands, whatever follows. */
  lemma VerdictStays(heard: seq<byte>, more: seq<byte>)
    ensures OneShot([], heard).Some? ==> OneShot([], heard + more) == OneShot([], heard)
    ensures OneShot([], heard).None? ==> OneShot([], heard + more) == FeedAll(FeedAll(FRESH, heard).0, more).1
    ensures OneShot([], heard).Some? ==> FeedAll(FeedAll(FRESH, heard).0, more) == (FeedAll(FRESH, heard).0, None)
    ensures FeedAll(FRESH, heard + more).0 == FeedAll(FeedAll(FRESH, heard).0, more).0
  {
    hide FeedAll, OneShot, Feed;
    BytesAgreeWithOneShot([], heard);
    BytesAgreeWithOneShot([], heard + more);
    FeedAllSplits(FRESH, heard, more);
    VerdictEnds(FRESH, heard);
    if OneShot([], heard).Some? { DoneIsSilent(FeedAll(FRESH, heard).0, more); }
  }

  lemma WatchesServer(s: InnerTls, heard: seq<byte>, said: seq<byte>, bytes: seq<byte>)
    requires Watched(s, heard, said)
    ensures Watched(Observed(s, bytes, true), heard + bytes, said)
  {
    hide FeedAll, OneShot, Open, ClientHello;
    VerdictStays(heard, bytes);
  }

  lemma WatchesClient(s: InnerTls, heard: seq<byte>, said: seq<byte>, bytes: seq<byte>)
    requires Watched(s, heard, said)
    ensures Watched(Observed(s, bytes, false), heard, said + bytes)
  {
    hide FeedAll, OneShot, Open;
    var all := said + bytes;
    assert ClientHello(said) ==> ClientHello(all);
    if !s.tls13 && |heard| + |said| < BUDGET {
      var count := Min(|bytes|, if |s.client| < 8 then 8 - |s.client| else 0);
      assert s.client + bytes[..count] == all[..Min(|all|, 8)];
    }
  }

  /**
  The command of a frame, and its padding, from the streams alone: what was delivered before it,
  and what was framed up to it and with it.
  */
  predicate Fitted(f: Frame, heard: seq<byte>, said: seq<byte>) {
    var data := APPLICATION_DATA <= f.content;
    var verdict := OneShot([], heard);
    && (f.command == 2 ==> data && verdict == Some(true))
    && (|heard| + |said| < BUDGET ==>
          && (f.command == 2 <==> data && verdict == Some(true))
          && (f.command == 1 <==> if IsTls(heard, said) then data && verdict != Some(true) else |said| >= 8)
          && (|f.content| < 900 ==> if IsTls(heard, said) then 900 <= |f.content| + f.padding < 1400 else f.padding < 256))
    && (|heard| + |said| >= BUDGET && verdict != Some(true) ==> f.command == 1)
    && (|f.content| >= 900 ==> f.padding == 0)
  }

  lemma FrameIsFitted(s: InnerTls, heard: seq<byte>, said: seq<byte>, bytes: seq<byte>, draw: nat)
    requires Watched(s, heard, said)
    ensures Fitted(FrameFor(s, bytes, draw), heard, said)
  {
    hide FeedAll, OneShot, Open, ClientHello;
  }

  /** Every frame is fitted to what had been delivered when it was made, and to what was framed by then. */
  ghost predicate AllFitted(frames: seq<Frame>, heardBy: seq<nat>, heard: seq<byte>) {
    && |heardBy| == |frames|
    && forall i :: 0 <= i < |frames| ==>
         heardBy[i] <= |heard| && Fitted(frames[i], heard[..heardBy[i]], Contents(frames[..i + 1]))
  }

  lemma HeardMore(frames: seq<Frame>, heardBy: seq<nat>, heard: seq<byte>, more: seq<byte>)
    requires AllFitted(frames, heardBy, heard)
    ensures AllFitted(frames, heardBy, heard + more)
  {
    hide Fitted;
    forall i | 0 <= i < |frames|
      ensures heardBy[i] <= |heard + more| && Fitted(frames[i], (heard + more)[..heardBy[i]], Contents(frames[..i + 1]))
    {
      assert (heard + more)[..heardBy[i]] == heard[..heardBy[i]];
    }
  }

  lemma FramedMore(frames: seq<Frame>, heardBy: seq<nat>, heard: seq<byte>, f: Frame)
    requires AllFitted(frames, heardBy, heard) && Fitted(f, heard, Contents(frames + [f]))
    ensures AllFitted(frames + [f], heardBy + [|heard|], heard)
  {
    hide Fitted, Contents;
    var all, heardAt := frames + [f], heardBy + [|heard|];
    forall i | 0 <= i < |all|
      ensures heardAt[i] <= |heard| && Fitted(all[i], heard[..heardAt[i]], Contents(all[..i + 1]))
    {
      if i < |frames| {
        assert all[..i + 1] == frames[..i + 1];
      } else {
        assert all[..i + 1] == all && heard[..heardAt[i]] == heard;
      }
    }
  }

  // ---------- the response header below ----------

  datatype Response = Response(header: seq<byte>, discard: nat, ready: bool, failed: bool)

  /** The stream after the response header; `None` if it is malformed or cut short. */
  function Skipped(r: Response, tls: seq<byte>): Option<seq<byte>> {
    if r.failed then None
    else if |r.header| < 2 then
      if |r.header| + |tls| < 2 then None
      else
        var full := r.header + tls[..2 - |r.header|];
        var rest := tls[2 - |r.header|..];
        if full[0] != 0 || |rest| < full[1] then None else Some(rest[full[1]..])
    else if r.ready then Some(tls)
    else if |tls| < r.discard then None
    else Some(tls[r.discard..])
  }

  predicate ResponseOk(r: Response) {
    && |r.header| <= 2
    && (|r.header| < 2 ==> !r.ready && !r.failed)
    && (|r.header| == 2 && !r.failed ==> r.header[0] == 0 && r.discard <= 255)
    && (r.ready ==> !r.failed)
  }

  /** The state once more bytes of the two-byte header have arrived. */
  function WithResponseHeader(r: Response, more: seq<byte>): Response
    requires |r.header| + |more| <= 2
  {
    var header := r.header + more;
    if |header| < 2 then r.(header := header)
    else if header[0] != 0 then r.(header := header, failed := true)
    else r.(header := header, discard := header[1])
  }

  lemma SkippedAfterHeader(r: Response, a: seq<byte>, b: seq<byte>)
    requires ResponseOk(r) && |r.header| < 2 && |r.header| + |a| <= 2
    ensures Skipped(r, a + b) == Skipped(WithResponseHeader(r, a), b)
  {
    var k := 2 - |r.header|;
    if |a| + |b| >= k {
      assert r.header + (a + b)[..k] == (r.header + a) + b[..k - |a|];
      assert (a + b)[k..] == b[k - |a|..];
      if |a| == k { assert (r.header + a) + b[..0] == r.header + a && b[0..] == b; }
    }
  }

  lemma ReadySkipsNothing(r: Response, tls: seq<byte>)
    requires ResponseOk(r) && r.ready
    ensures Skipped(r, tls) == Some(tls)
  {
  }

  lemma SkippedFacts(r: Response, tls: seq<byte>)
    requires ResponseOk(r)
    ensures r.failed ==> Skipped(r, tls).None?
    ensures !r.ready && (|r.header| < 2 || r.discard > 0) ==> Skipped(r, []).None?
    ensures |r.header| == 2 && !r.failed && (r.ready || r.discard == 0) ==>
              Skipped(r, tls) == Skipped(r.(ready := true), tls)
  {
  }

  lemma SkippedAfterDiscard(r: Response, a: seq<byte>, b: seq<byte>)
    requires ResponseOk(r) && |r.header| == 2 && !r.failed && !r.ready && |a| <= r.discard
    ensures Skipped(r, a + b) == Skipped(r.(discard := r.discard - |a|), b)
  {
    if |a| + |b| >= r.discard { assert (a + b)[r.discard..] == b[r.discard - |a|..]; }
  }

  const NO_RESPONSE := Response([], 0, false, false)

  /** What the whole read side still has to deliver. */
  function StillToDeliver(id: seq<byte>, response: Response, r: Reader, direct: bool, tls: seq<byte>, raw: seq<byte>): Rest
    requires |id| == 16
  {
    match Skipped(response, tls)
    case None => Rest([], false, None)
    case Some(rest) => Left(id, r, direct, rest, raw)
  }

  lemma FailedDeliversNothing(id: seq<byte>, response: Response, tls: seq<byte>, raw: seq<byte>)
    requires |id| == 16
    ensures forall r: Reader :: r.failed ==> StillToDeliver(id, response, r, false, tls, raw) == Rest([], false, None)
  {
  }

  // ---------- the wire ----------

  /** A byte that was sent inside the outer TLS stream, or raw. */
  datatype Cell = Cell(value: byte, raw: bool)

  function Cells(bytes: seq<byte>, raw: bool): (r: seq<Cell>)
    ensures |r| == |bytes|
  {
    seq(|bytes|, i requires 0 <= i < |bytes| => Cell(bytes[i], raw))
  }

  lemma CellsAppend(a: seq<byte>, b: seq<byte>, raw: bool)
    ensures Cells(a + b, raw) == Cells(a, raw) + Cells(b, raw)
  {
  }

  /**
  What is on the wire, with what is not yet sent, is the framed stream inside the outer TLS
  stream and then the plain bytes, inside it or raw.
  */
  predicate OnWire(wire: seq<Cell>, unsent: seq<byte>, framed: seq<byte>, plain: seq<byte>, raw: bool) {
    wire + Cells(unsent, false) == Cells(framed, false) + Cells(plain, raw)
  }

  lemma SendSome(wire: seq<Cell>, unsent: seq<byte>, n: nat, framed: seq<byte>, plain: seq<byte>, raw: bool)
    requires OnWire(wire, unsent, framed, plain, raw) && n <= |unsent|
    ensures OnWire(wire + Cells(unsent[..n], false), unsent[n..], framed, plain, raw)
  {
    CellsAppend(unsent[..n], unsent[n..], false);
    assert unsent == unsent[..n] + unsent[n..];
    assert (wire + Cells(unsent[..n], false)) + Cells(unsent[n..], false)
        == wire + (Cells(unsent[..n], false) + Cells(unsent[n..], false));
  }

  lemma SendPlain(wire: seq<Cell>, framed: seq<byte>, plain: seq<byte>, more: seq<byte>, raw: bool)
    requires OnWire(wire, [], framed, plain, raw)
    ensures OnWire(wire + Cells(more, raw), [], framed, plain + more, raw)
  {
    CellsAppend(plain, more, raw);
    AllSent(wire, framed, plain, raw);
    assert Cells([], false) == [];
    assert wire + Cells(more, raw) == Cells(framed, false) + (Cells(plain, raw) + Cells(more, raw));
    assert wire + Cells(more, raw) == Cells(framed, false) + Cells(plain + more, raw);
  }

  lemma Queue(wire: seq<Cell>, framed: seq<byte>, frame: seq<byte>, raw: bool, raw': bool)
    requires OnWire(wire, [], framed, [], raw)
    ensures OnWire(wire, frame, framed + frame, [], raw')
  {
    CellsAppend(framed, frame, false);
    AllSent(wire, framed, [], raw);
    assert Cells([], raw) == [] && Cells([], raw') == [];
    assert wire + Cells(frame, false) == Cells(framed + frame, false);
  }

  /** Nothing is unsent: the wire is exactly the two parts, each in its mode. */
  lemma AllSent(wire: seq<Cell>, framed: seq<byte>, plain: seq<byte>, raw: bool)
    requires OnWire(wire, [], framed, plain, raw)
    ensures wire == Cells(framed, false) + Cells(plain, raw)
  {
    assert Cells([], false) == [];
  }

  /** What the reader found between two pieces of content. */
  datatype Next = End | Plain | Header

  class VisionStream {
    const id: seq<byte>

    // the write half
    var writeFirst: bool
    var writePlain: bool
    var pending: seq<byte>
    var written: nat
    var switchWrite: bool

    // the transport, outgoing
    var wire: seq<Cell>
    var flushed: nat
    var writeDirect: bool

    // what the caller has handed over
    ghost var frames: seq<Frame>
    ghost var plain: seq<byte>

    // the content the caller was handed out of frames, and how much of it when each frame was made
    ghost var heard: seq<byte>
    ghost var heardBy: seq<nat>

    var sniff: InnerTls

    // the read half
    var readHeader: seq<byte>
    var readFirst: bool
    var content: nat
    var padding: nat
    var command: byte
    var readPlain: bool
    var failed: bool
    var response: Response

    // the transport, incoming: what the peer sends and nobody has read yet
    var tls: seq<byte>
    var raw: seq<byte>
    var readDirect: bool

    /** A new stream on a TLS transport, with what its peer is going to send. */
    constructor (id: seq<byte>, tls: seq<byte>, raw: seq<byte>)
      requires |id| == 16
      ensures WriteInv() && ReadInv() && SniffInv() && heard == []
      ensures this.id == id && Accepted() == [] && wire == []
      ensures Undelivered() == StillToDeliver(id, NO_RESPONSE, START, false, tls, raw)
    {
      this.id, this.tls, this.raw := id, tls, raw;
      writeFirst, writePlain, pending, written, switchWrite := true, false, [], 0, false;
      wire, flushed, writeDirect, frames, plain := [], 0, false, [], [];
      sniff, response, readDirect := FRESH_SNIFF, NO_RESPONSE, false;
      readHeader, readFirst, content, padding, command, readPlain, failed := [], true, 0, 0, 0, false, false;
      heard, heardBy := [], [];
    }

    /** The sniffer knows the two streams, and every frame so far has the command that they call for. */
    ghost predicate SniffInv()
      reads `sniff, `heard, `heardBy, `frames
    {
      Watched(sniff, heard, Contents(frames)) && AllFitted(frames, heardBy, heard)
    }

    /** The framed bytes so far. */
    ghost function FrameStream(): seq<byte>
      requires Sequence(frames)
      reads `frames
    {
      Framed(id, frames)
    }

    /** Everything the writer accepted, as it has to appear on the wire. */
    ghost function Accepted(): seq<byte>
      reads `frames, `plain
    {
      Contents(frames) + plain
    }

    ghost predicate WriteInv()
      reads `frames, `plain, `pending, `written, `switchWrite, `writeFirst, `writePlain, `wire, `flushed, `writeDirect
    {
      && |id| == 16 && Sequence(frames)
      && (writeFirst <==> frames == [])
      && (writePlain <==> LastCommand(frames) != 0)
      && written <= |pending| && flushed <= |wire|
      && (plain != [] ==> writePlain && pending == [])
      && (switchWrite ==> LastCommand(frames) == 2 && pending != [])
      && (writeDirect <==> LastCommand(frames) == 2 && !switchWrite)
      && OnWire(wire, pending[written..], FrameStream(), plain, LastCommand(frames) == 2)
      && (writeDirect ==> pending == [] && |FrameStream()| <= flushed)
    }

    /**
    The direct switch of the write side. A byte on the wire is raw exactly if it comes after the
    last byte of a command-2 frame; there is at most one such frame, and it is the last; and
    write-direct is on only when that frame has been written and flushed.
    */
    lemma WriteSwitchIsExact()
      requires WriteInv()
      ensures forall i :: 0 <= i < |wire| ==> (wire[i].raw <==> LastCommand(frames) == 2 && i >= |FrameStream()|)
      ensures forall i :: 0 <= i < |frames| && frames[i].command == 2 ==> i == |frames| - 1
      ensures writeDirect ==> LastCommand(frames) == 2 && pending == [] && |FrameStream()| <= flushed <= |wire|
    {
      var whole := Cells(FrameStream(), false) + Cells(plain, LastCommand(frames) == 2);
      assert forall i :: 0 <= i < |wire| ==> wire[i] == (wire + Cells(pending[written..], false))[i] == whole[i];
      if plain == [] { assert |whole| == |FrameStream()|; }
    }

    /** The transport takes any part of a write, in its current mode. */
    method TransportWrite(bytes: seq<byte>) returns (r: Poll<nat>)
      modifies `wire
      ensures r.Ready? ==> r.value <= |bytes| && wire == old(wire) + Cells(bytes[..r.value], writeDirect)
      ensures !r.Ready? ==> wire == old(wire) && r != Failed(true)
    {
      r := Pending;
      var answer: nat := *;
      if answer == 0 {
        return Pending;
      } else if answer == 1 {
        return Failed(false);
      }
      var n :| 0 <= n <= |bytes|;
      wire := wire + Cells(bytes[..n], writeDirect);
      r := Ready(n);
    }

    method TransportFlush() returns (r: Poll<()>)
      modifies `flushed
      ensures if r.Ready? then flushed == |wire| else flushed == old(flushed) && r != Failed(true)
    {
      var answer: nat := *;
      if answer == 0 {
        return Pending;
      } else if answer == 1 {
        return Failed(false);
      }
      flushed := |wire|;
      r := Ready(());
    }

    /** Writes out the pending frame and flushes it; only then may the direct switch happen. */
    method FlushFrame() returns (r: Poll<()>)
      requires WriteInv()
      modifies `wire, `flushed, `pending, `written, `switchWrite, `writeDirect
      ensures WriteInv()
      ensures old(wire) <= wire
      ensures r.Ready? ==> pending == [] && flushed == |wire|
      ensures r != Failed(true)
    {
      hide Framed, LastCommand, Sequence, OnWire;
      while written < |pending|
        invariant WriteInv() && old(wire) <= wire
        invariant pending == old(pending)
        invariant switchWrite == old(switchWrite) && writeDirect == old(writeDirect)
      {
        ghost var rest := pending[written..];
        ghost var sent := wire;
        var n := TransportWrite(pending[written..]);
        if !n.Ready? { return if n.Pending? then Pending else Failed(false); }
        if n.value == 0 {
          assert wire == sent;
          return Failed(false);
        }
        SendSome(sent, rest, n.value, FrameStream(), plain, LastCommand(frames) == 2);
        assert pending[written + n.value..] == rest[n.value..];
        written := written + n.value;
      }
      r := TransportFlush();
      if !r.Ready? { return; }
      assert pending[written..] == [];
      AllSent(wire, FrameStream(), plain, LastCommand(frames) == 2);
      pending := [];
      written := 0;
      assert pending[written..] == [];
      if switchWrite {
        writeDirect := true;
        switchWrite := false;
      }
    }

    /** The write half of the stream: every accepted byte is queued in a frame or written plain. */
    method PollWrite(bytes: seq<byte>, draw: nat) returns (r: Poll<nat>)
      requires WriteInv() && SniffInv()
      modifies `wire, `flushed, `pending, `written, `switchWrite, `writeDirect, `writeFirst, `writePlain,
               `frames, `plain, `sniff, `heardBy
      ensures WriteInv() && SniffInv()
      ensures old(wire) <= wire && old(frames) <= frames && old(plain) <= plain
      ensures r.Ready? ==> r.value <= |bytes| && Accepted() == old(Accepted()) + bytes[..r.value]
      ensures !r.Ready? ==> frames == old(frames) && plain == old(plain)
      ensures if r.Ready? && bytes != [] && !old(writePlain)
              then r.value == Min(|bytes|, 8192 - 21) && |frames| == |old(frames)| + 1 && heardBy == old(heardBy) + [|heard|]
              else frames == old(frames) && heardBy == old(heardBy)
    {
      hide OnWire, Sequence, Framed, LastCommand, Contents, SniffInv;
      var f := FlushFrame();
      if !f.Ready? { return if f.Pending? then Pending else Failed(false); }
      if writePlain {
        assert pending[written..] == [];
        ghost var sent := wire;
        r := TransportWrite(bytes);
        if r.Ready? {
          SendPlain(sent, FrameStream(), plain, bytes[..r.value], writeDirect);
          assert Contents(frames) + (plain + bytes[..r.value]) == Accepted() + bytes[..r.value];
          plain := plain + bytes[..r.value];
        }
        return;
      }
      if bytes == [] {
        assert bytes[..0] == [];
        return Ready(0);
      }
      var chunk := bytes[..Min(|bytes|, 8192 - 21)];
      Say(chunk, draw);
      assert Contents(old(frames)) + chunk + [] == Contents(old(frames)) + [] + chunk;
      r := Ready(|chunk|);
    }

    /** Observes a chunk and queues it in the frame that it calls for. */
    method Say(chunk: seq<byte>, draw: nat)
      requires WriteInv() && SniffInv() && !writePlain && pending == [] && |chunk| <= 8192 - 21
      modifies `pending, `switchWrite, `writeFirst, `writePlain, `frames, `sniff, `heardBy
      ensures WriteInv() && SniffInv()
      ensures old(frames) <= frames && |frames| == |old(frames)| + 1 && heardBy == old(heardBy) + [|heard|]
      ensures Contents(frames) == Contents(old(frames)) + chunk
    {
      hide *;
      ghost var before := frames;
      SniffFacts();
      WatchesClient(sniff, heard, Contents(frames), chunk);
      sniff := Observed(sniff, chunk, false);
      FrameForFits(sniff, chunk, draw);
      FrameIsFitted(sniff, heard, Contents(frames) + chunk, chunk, draw);
      QueueFrame(FrameFor(sniff, chunk, draw));
      FramedMore(before, heardBy, heard, FrameFor(sniff, chunk, draw));
      heardBy := heardBy + [|heard|];
      SniffFacts();
    }

    /** Observes content that is about to be handed to the caller. */
    method Hear(bytes: seq<byte>)
      requires SniffInv()
      modifies `sniff, `heard
      ensures SniffInv() && heard == old(heard) + bytes
    {
      hide *;
      SniffFacts();
      WatchesServer(sniff, heard, Contents(frames), bytes);
      HeardMore(frames, heardBy, heard, bytes);
      sniff := Observed(sniff, bytes, true);
      heard := heard + bytes;
      SniffFacts();
    }

    lemma SniffFacts()
      ensures SniffInv() <==> Watched(sniff, heard, Contents(frames)) && AllFitted(frames, heardBy, heard)
      ensures SniffInv() ==> Open(sniff.server)
    {
      hide Contents, Open, FeedAll, AllFitted, IsTls;
    }

    method QueueFrame(f: Frame)
      requires WriteInv() && !writePlain && pending == [] && Encodable(f)
      modifies `pending, `switchWrite, `writeFirst, `writePlain, `frames
      ensures WriteInv()
      ensures frames == old(frames) + [f] && Contents(frames) == Contents(old(frames)) + f.content
    {
      hide OnWire, Sequence, Framed, Contents, LastCommand, FrameBytes;
      ghost var stream, raw := FrameStream(), LastCommand(frames) == 2;
      assert pending[written..] == [];
      BuildFrame(f);
      writeFirst := false;
      if f.command != 0 { writePlain := true; }
      switchWrite := f.command == 2;
      FramedAppend(id, frames, f);
      frames := frames + [f];
      Queue(wire, stream, pending, raw, f.command == 2);
      assert pending[written..] == pending;
    }

    method BuildFrame(f: Frame)
      requires pending == [] && Encodable(f)
      modifies `pending
      ensures pending != [] && pending == (if writeFirst then id else []) + FrameBytes(f)
    {
      if writeFirst { pending := pending + id; }
      pending := pending + [f.command];
      pending := pending + PutBe16(|f.content|);
      pending := pending + PutBe16(f.padding);
      pending := pending + f.content;
      pending := pending + Zeros(f.padding);
    }

    // ---------- the read half ----------

    function Rd(): Reader
      reads `readHeader, `readFirst, `content, `padding, `command, `readPlain, `failed
    {
      Reader(readHeader, readFirst, content, padding, command, readPlain, failed)
    }

    /** What this stream still has to deliver: a one-shot reading of all that is left. */
    ghost function Undelivered(): Rest
      requires |id| == 16
      reads `readHeader, `readFirst, `content, `padding, `command, `readPlain, `failed, `response, `tls, `raw, `readDirect
    {
      StillToDeliver(id, response, Rd(), readDirect, tls, raw)
    }

    ghost predicate ReadInv()
      reads `readHeader, `readFirst, `content, `padding, `command, `readPlain, `failed, `response, `readDirect
    {
      && |id| == 16 && ResponseOk(response)
      && (readPlain ==> content == 0 && padding == 0 && !failed)
      && (!readPlain && !failed ==>
            && command <= 2 && |readHeader| < HeaderSize(readFirst)
            && (content > 0 || padding > 0 || command != 0 ==> readHeader == []))
      && (readDirect ==> readPlain && command == 2)
      && (!response.ready ==> readHeader == [] && content == padding == 0 && command == 0 && !readPlain)
    }

    /** Any non-empty prefix of what is there in the current mode, or the end of the stream. */
    method TransportRead(max: nat) returns (r: Poll<seq<byte>>)
      requires max > 0
      modifies `tls, `raw
      ensures r.Ready? && !readDirect ==> old(tls) == r.value + tls && raw == old(raw) && |r.value| <= max
                                          && (r.value == [] ==> tls == [] && raw == [])
      ensures r.Ready? && readDirect ==> old(raw) == r.value + raw && tls == old(tls) == [] && |r.value| <= max
                                         && (r.value == [] ==> raw == [])
      ensures !r.Ready? ==> tls == old(tls) && raw == old(raw)
      ensures r == Failed(true) ==> if readDirect then tls != [] else tls == [] && raw != []
    {
      var answer: nat := *;
      if answer == 0 {
        return Pending;
      } else if answer == 1 {
        return Failed(false);
      }
      if readDirect {
        if tls != [] { return Failed(true); }
        if raw == [] { return Ready([]); }
        var n: nat :| 1 <= n <= |raw| && n <= max;
        assert raw == raw[..n] + raw[n..];
        r := Ready(raw[..n]);
        raw := raw[n..];
      } else {
        if tls == [] { return if raw == [] then Ready([]) else Failed(true); }
        var n: nat :| 1 <= n <= |tls| && n <= max;
        assert tls == tls[..n] + tls[n..];
        r := Ready(tls[..n]);
        tls := tls[n..];
      }
    }

    /** Reads and checks the response header, across as many polls as it takes. */
    method PollResponse() returns (r: Poll<()>)
      requires ResponseOk(response) && !readDirect
      modifies `tls, `raw, `response
      ensures ResponseOk(response) && Skipped(response, tls) == Skipped(old(response), old(tls)) && raw == old(raw)
      ensures r.Ready? || old(response).ready ==> response.ready
      ensures r == Failed(true) ==> Skipped(response, tls).None?
    {
      hide Skipped;
      SkippedFacts(response, tls);
      if response.failed { return Failed(true); }
      r := ReadResponseHeader();
      if !r.Ready? { return; }
      while !response.ready && response.discard != 0
        invariant ResponseOk(response) && !response.failed && |response.header| == 2 && raw == old(raw)
        invariant response.ready == old(response).ready
        invariant Skipped(response, tls) == Skipped(old(response), old(tls))
        decreases response.discard
      {
        ghost var before := tls;
        SkippedFacts(response, []);
        var b := TransportRead(response.discard);
        if !b.Ready? { return if b.Pending? then Pending else Failed(b.malformed); }
        if b.value == [] { return Failed(true); }
        SkippedAfterDiscard(response, b.value, tls);
        response := response.(discard := response.discard - |b.value|);
      }
      SkippedFacts(response, tls);
      response := response.(ready := true);
      r := Ready(());
    }

    /** The two bytes of version and addon length. */
    method ReadResponseHeader() returns (r: Poll<()>)
      requires ResponseOk(response) && !readDirect && !response.failed
      modifies `tls, `raw, `response
      ensures ResponseOk(response) && Skipped(response, tls) == Skipped(old(response), old(tls)) && raw == old(raw)
      ensures response.ready == old(response).ready
      ensures r.Ready? ==> |response.header| == 2 && !response.failed
      ensures r == Failed(true) ==> Skipped(response, tls).None?
    {
      hide Skipped;
      while |response.header| < 2
        invariant ResponseOk(response) && !response.failed && raw == old(raw) && response.ready == old(response).ready
        invariant Skipped(response, tls) == Skipped(old(response), old(tls))
      {
        SkippedFacts(response, []);
        var b := TransportRead(2 - |response.header|);
        if !b.Ready? { return if b.Pending? then Pending else Failed(b.malformed); }
        if b.value == [] { return Failed(true); }
        SkippedAfterHeader(response, b.value, tls);
        response := WithResponseHeader(response, b.value);
        SkippedFacts(response, tls);
        if response.failed { return Failed(true); }
      }
      r := Ready(());
    }

    /** `ResponseStream::poll_read`. */
    method InnerRead(max: nat) returns (r: Poll<seq<byte>>)
      requires ResponseOk(response) && (readDirect ==> response.ready) && max > 0
      modifies `tls, `raw, `response
      ensures ResponseOk(response) && (readDirect ==> response.ready)
      ensures r.Ready? || old(response).ready ==> response.ready
      ensures r.Ready? ==> |r.value| <= max
      ensures r.Ready? && !readDirect ==> raw == old(raw) && Skipped(old(response), old(tls)) == Some(r.value + tls)
                                          && (r.value == [] ==> tls == [] && raw == [])
      ensures r.Ready? && readDirect ==> old(raw) == r.value + raw && tls == old(tls) == []
                                         && (r.value == [] ==> raw == [])
      ensures !r.Ready? ==> raw == old(raw) && Skipped(response, tls) == Skipped(old(response), old(tls))
      ensures r == Failed(true) ==> || Skipped(response, tls).None?
                                    || (readDirect && tls != [])
                                    || (!readDirect && raw != [] && Skipped(response, tls) == Some([]))
    {
      hide Skipped, ResponseOk;
      if !readDirect {
        var header := PollResponse();
        if !header.Ready? { return if header.Pending? then Pending else Failed(header.malformed); }
      }
      ReadySkipsNothing(response, tls);
      r := TransportRead(max);
    }

    /** After a read of `bytes` inside the outer TLS stream. */
    lemma ReadStep(before: Response, beforeTls: seq<byte>, bytes: seq<byte>)
      requires |id| == 16 && ResponseOk(response) && response.ready
      requires Skipped(before, beforeTls) == Some(bytes + tls)
      ensures forall r: Reader :: StillToDeliver(id, before, r, false, beforeTls, raw) == Left(id, r, false, bytes + tls, raw)
      ensures forall r: Reader :: StillToDeliver(id, response, r, false, tls, raw) == Left(id, r, false, tls, raw)
    {
    }

    method PollContent(max: nat) returns (r: Poll<seq<byte>>)
      requires ReadInv() && !failed && !readPlain && content > 0 && max > 0 && SniffInv()
      modifies `tls, `raw, `response, `content, `sniff, `heard
      ensures ReadInv() && SniffInv()
      ensures heard == old(heard) + if r.Ready? then r.value else []
      ensures raw == old(raw)
      ensures r.Ready? ==> r.value != [] && |r.value| <= max && old(Undelivered()) == Prepend(r.value, Undelivered())
      ensures !r.Ready? ==> Undelivered() == old(Undelivered())
      ensures r == Failed(true) ==> Broken(Undelivered())
    {
      hide Skipped, SniffInv, ResponseOk, Left;
      assert heard + [] == heard;
      r := InnerRead(Min(max, content));
      LeftNoContent(id, Rd(), raw);
      if !r.Ready? { return; }
      ReadStep(old(response), old(tls), r.value);
      if r.value == [] {
        assert r.value + tls == tls;
        return Failed(true);
      }
      Hear(r.value);
      LeftAfterContent(id, Rd(), r.value, tls, raw);
      content := content - |r.value|;
    }

    method SkipPadding() returns (r: Poll<()>)
      requires ReadInv() && !failed && !readPlain && content == 0
      modifies `tls, `raw, `response, `padding
      ensures ReadInv()
      ensures Undelivered() == old(Undelivered()) && raw == old(raw)
      ensures r.Ready? ==> padding == 0
      ensures r == Failed(true) ==> Broken(Undelivered())
    {
      hide Skipped;
      while padding > 0
        invariant ReadInv() && raw == old(raw)
        invariant Undelivered() == old(Undelivered())
      {
        ghost var before, beforeTls := response, tls;
        var b := InnerRead(Min(padding, 2048));
        if !b.Ready? { return if b.Pending? then Pending else Failed(b.malformed); }
        ReadStep(before, beforeTls, b.value);
        if b.value == [] { return Failed(true); }
        LeftAfterPadding(id, Rd(), b.value, tls, raw);
        padding := padding - |b.value|;
      }
      r := Ready(());
    }

    /** Completes a header; `Ready(false)` is a clean end of the stream in front of one. */
    method FillHeader() returns (r: Poll<bool>)
      requires ReadInv() && !failed && !readPlain && content == 0 && padding == 0 && command == 0
      modifies `tls, `raw, `response, `readHeader, `readFirst, `content, `padding, `command, `readPlain, `failed
      ensures ReadInv()
      ensures Undelivered() == old(Undelivered()) && raw == old(raw)
      ensures r == Ready(false) ==> Over(Undelivered())
      ensures r == Ready(true) ==> !failed && (readPlain ==> readHeader != [])
      ensures r == Failed(true) ==> Broken(Undelivered())
    {
      hide Skipped, Left, WithHeader;
      var need := HeaderSize(readFirst);
      WithHeaderItself(id, Rd());
      while |readHeader| < need
        invariant |readHeader| <= need == HeaderSize(readFirst)
        invariant ResponseOk(response) && !failed && !readPlain && !readDirect && raw == old(raw)
        invariant content == padding == 0 && command == 0 && (readHeader != [] ==> response.ready)
        invariant StillToDeliver(id, response, WithHeader(id, Rd().(header := []), readHeader), false, tls, raw)
                  == old(Undelivered())
      {
        ghost var before, beforeTls := response, tls;
        ghost var start := readHeader;
        WithHeaderItself(id, Rd());
        var b := InnerRead(need - |readHeader|);
        LeftNothing(id, Rd(), raw);
        if !b.Ready? { return if b.Pending? then Pending else Failed(b.malformed); }
        ReadStep(before, beforeTls, b.value);
        if b.value == [] {
          assert b.value + tls == tls;
          return if readHeader == [] then Ready(false) else Failed(true);
        }
        LeftAfterHeader(id, Rd(), b.value, tls, raw);
        WithHeaderTwice(id, Rd(), start, b.value);
        readHeader := readHeader + b.value;
      }
      r := TakeHeader();
      FailedDeliversNothing(id, response, tls, raw);
    }

    /** Interprets a complete header. */
    method TakeHeader() returns (r: Poll<bool>)
      requires |id| == 16 && ResponseOk(response) && response.ready && !failed && !readPlain && !readDirect
      requires content == padding == 0 && command == 0 && |readHeader| == HeaderSize(readFirst)
      modifies `readHeader, `readFirst, `content, `padding, `command, `readPlain, `failed
      ensures ReadInv()
      ensures r == (if failed then Failed(true) else Ready(true))
      ensures if failed then old(WithHeader(id, Rd().(header := []), readHeader)).failed
              else Rd() == old(WithHeader(id, Rd().(header := []), readHeader))
      ensures readPlain ==> readHeader != []
    {
      hide Left, StillToDeliver, Skipped, ResponseOk, Be16, WithHeader;
      WithWholeHeader(id, Rd(), readHeader);
      var offset := 0;
      if readFirst {
        if readHeader[..16] != id {
          readFirst, readPlain := false, true;
          return Ready(true);
        }
        readFirst, offset := false, 16;
      }
      var h := readHeader[offset..];
      command := h[0];
      if command > 2 {
        failed := true;
        return Failed(true);
      }
      content := Be16(h[1], h[2]);
      padding := Be16(h[3], h[4]);
      readHeader := [];
      r := Ready(true);
    }

    method PollPlain(max: nat) returns (r: Poll<seq<byte>>)
      requires ReadInv() && readPlain && max > 0
      modifies `tls, `raw, `response, `readHeader
      ensures ReadInv()
      ensures r.Ready? ==> |r.value| <= max && old(Undelivered()) == Prepend(r.value, Undelivered())
      ensures r == Ready([]) ==> Over(Undelivered())
      ensures old(readHeader) == [] && readDirect ==> old(raw) == (if r.Ready? then r.value else []) + raw
      ensures old(readHeader) != [] || !readDirect ==> raw == old(raw)
      ensures !r.Ready? ==> Undelivered() == old(Undelivered())
      ensures r == Failed(true) ==> Broken(Undelivered())
    {
      hide Skipped;
      if readHeader != [] {
        var n := Min(|readHeader|, max);
        BufferedStep(n);
        r := Ready(readHeader[..n]);
        readHeader := readHeader[n..];
        return;
      }
      ReadySkipsNothing(response, tls);
      r := InnerRead(max);
      ReadySkipsNothing(response, tls);
      if !r.Ready? { return; }
      if readDirect {
        LeftPlain(id, Rd(), true, r.value, raw, []);
      } else {
        ReadStep(old(response), old(tls), r.value);
        LeftPlain(id, Rd(), false, r.value, tls, raw);
      }
    }

    lemma BufferedStep(n: nat)
      requires ReadInv() && readPlain && 0 < n <= |readHeader|
      ensures Undelivered()
              == Prepend(readHeader[..n], StillToDeliver(id, response, Rd().(header := readHeader[n..]), readDirect, tls, raw))
    {
      ReadySkipsNothing(response, tls);
      LeftBuffered(id, Rd(), readDirect, n, tls, raw);
    }

    /** Skips padding, then obeys the command of the frame or reads the next header. */
    method NextFrame() returns (r: Poll<Next>)
      requires ReadInv() && !failed && !readPlain && content == 0
      modifies `tls, `raw, `response, `readHeader, `readFirst, `content, `padding, `command, `readPlain,
               `failed, `readDirect
      ensures ReadInv() && Undelivered() == old(Undelivered()) && raw == old(raw)
      ensures r.Ready? && !r.value.End? ==> !failed && readPlain == r.value.Plain?
      ensures r == Ready(End) ==> Over(Undelivered())
      ensures r == Failed(true) ==> Broken(Undelivered())
      ensures readDirect ==> r == Ready(Plain) && readHeader == [] && command == 2 && padding == content == 0
    {
      hide Skipped, Left;
      var skipped := SkipPadding();
      if !skipped.Ready? { return if skipped.Pending? then Pending else Failed(skipped.malformed); }
      if command != 0 {
        CommandStep();
        if command == 2 { readDirect := true; }
        readPlain := true;
        return Ready(Plain);
      }
      var header := FillHeader();
      if !header.Ready? { return if header.Pending? then Pending else Failed(header.malformed); }
      r := Ready(if !header.value then End else if readPlain then Plain else Header);
    }

    /** The loop of the read half; it yields after 64 headers. */
    method ReadLoop(max: nat) returns (r: Poll<seq<byte>>)
      requires ReadInv() && !failed && max > 0 && SniffInv()
      modifies `tls, `raw, `response, `readHeader, `readFirst, `content, `padding, `command, `readPlain,
               `failed, `readDirect, `sniff, `heard
      ensures ReadInv() && SniffInv()
      ensures heard == old(heard) + if r.Ready? && !readPlain then r.value else []
      ensures old(readPlain) ==> readPlain
      ensures r.Ready? ==> |r.value| <= max && old(Undelivered()) == Prepend(r.value, Undelivered())
      ensures r == Ready([]) ==> Over(Undelivered())
      ensures !r.Ready? ==> Undelivered() == old(Undelivered())
      ensures r == Failed(true) ==> Broken(Undelivered())
      ensures old(readDirect) ==> readDirect
      ensures !old(readPlain) ==>
                if readDirect && r.Ready? then old(raw) == r.value + raw else raw == old(raw)
    {
      hide Skipped, Left, ResponseOk, StillToDeliver, SniffInv;
      assert heard + [] == heard;
      var count := 0;
      while true
        invariant ReadInv() && SniffInv() && !failed && heard == old(heard)
        invariant Undelivered() == old(Undelivered()) && raw == old(raw)
        invariant 0 <= count < 64
        invariant old(readDirect) ==> readDirect
        invariant old(readPlain) ==> readPlain
        invariant !old(readPlain) && readDirect ==> readHeader == []
        decreases 64 - count, if readPlain then 0 else 1
      {
        if readPlain {
          r := PollPlain(max);
          return;
        }
        if content > 0 {
          r := PollContent(max);
          return;
        }
        var next := NextFrame();
        if !next.Ready? { return if next.Pending? then Pending else Failed(next.malformed); }
        match next.value
        case End => return Ready([]);
        case Plain =>
        case Header =>
          count := count + 1;
          if count >= 64 { return Pending; }
      }
    }

    /**
    The read half of the stream. Whatever the transport does, what is delivered and what is still
    undelivered together never change; an empty answer to a real request is the clean end; and the
    stream is only called malformed when nothing more can be delivered from it. No raw byte is
    touched before the switch, and none is lost at it.
    */
    method PollRead(max: nat) returns (r: Poll<seq<byte>>)
      requires ReadInv() && WriteInv() && SniffInv()
      modifies `wire, `flushed, `pending, `written, `switchWrite, `writeDirect,
               `tls, `raw, `response, `readHeader, `readFirst, `content, `padding, `command, `readPlain,
               `failed, `readDirect, `sniff, `heard
      ensures ReadInv() && WriteInv() && SniffInv() && old(wire) <= wire
      ensures heard == old(heard) + if r.Ready? && !readPlain then r.value else []
      ensures old(readPlain) ==> readPlain
      ensures r.Ready? ==> |r.value| <= max && old(Undelivered()) == Prepend(r.value, Undelivered())
      ensures r == Ready([]) && max > 0 ==> Over(Undelivered())
      ensures !r.Ready? ==> Undelivered() == old(Undelivered())
      ensures r == Failed(true) ==> Broken(Undelivered())
      ensures old(readDirect) ==> readDirect
      ensures !old(readPlain) ==>
                if readDirect && r.Ready? then old(raw) == r.value + raw else raw == old(raw)
    {
      hide Skipped, Left, OnWire, Framed, Sequence, LastCommand, SniffInv;
      assert heard + [] == heard;
      if max == 0 {
        assert Prepend([], Undelivered()) == Undelivered();
        return Ready([]);
      }
      if failed {
        FailedDeliversNothing(id, response, tls, raw);
        return Failed(true);
      }
      var flush := FlushFrame();
      if flush.Failed? { return Failed(false); }
      r := ReadLoop(max);
    }

    /** A direct reader stands where the one-shot reading leaves the outer TLS stream, behind a command-2 frame. */
    lemma DirectIsSwitched()
      requires ReadInv() && readDirect
      ensures command == 2 && content == padding == 0 && Undelivered().atSwitch == Some(tls)
    {
    }

    lemma CommandStep()
      requires ReadInv() && !failed && !readPlain && content == padding == 0 && command != 0
      ensures Undelivered() == StillToDeliver(id, response, Rd().(plain := true), command == 2, tls, raw)
    {
    }
  }

  // ---------- from one stream to another ----------

  function TlsBytes(wire: seq<Cell>): seq<byte> {
    if wire == [] then [] else (if wire[0].raw then [] else [wire[0].value]) + TlsBytes(wire[1..])
  }

  function RawBytes(wire: seq<Cell>): seq<byte> {
    if wire == [] then [] else (if wire[0].raw then [wire[0].value] else []) + RawBytes(wire[1..])
  }

  lemma {:induction false} BytesOfCells(bytes: seq<byte>, raw: bool, rest: seq<Cell>)
    ensures TlsBytes(Cells(bytes, raw) + rest) == (if raw then [] else bytes) + TlsBytes(rest)
    ensures RawBytes(Cells(bytes, raw) + rest) == (if raw then bytes else []) + RawBytes(rest)
  {
    if bytes == [] {
      assert Cells(bytes, raw) + rest == rest;
    } else {
      var cells, first, tail := Cells(bytes, raw) + rest, [bytes[0]], bytes[1..];
      assert cells[0] == Cell(bytes[0], raw) && cells[1..] == Cells(tail, raw) + rest;
      assert TlsBytes(cells) == (if raw then [] else first) + TlsBytes(cells[1..]);
      assert RawBytes(cells) == (if raw then first else []) + RawBytes(cells[1..]);
      hide TlsBytes, RawBytes, Cells;
      BytesOfCells(tail, raw, rest);
      assert bytes == first + tail;
      Associates(first, tail, if raw then RawBytes(rest) else TlsBytes(rest));
    }
  }

  /** A response header of version 0 with any addons is skipped. */
  lemma ResponseIsSkipped(addons: seq<byte>, tls: seq<byte>)
    requires |addons| < 256
    ensures Skipped(NO_RESPONSE, [0, |addons|] + addons + tls) == Some(tls)
  {
    var stream := [0, |addons|] + addons + tls;
    assert [] + stream[..2] == [0, |addons|];
    assert stream[2..] == addons + tls && (addons + tls)[|addons|..] == tls;
  }

  /** What a reader of the wire so far has before it, behind a version-0 response header. */
  ghost function Readable(w: VisionStream, addons: seq<byte>): Rest
    requires |w.id| == 16 && |addons| < 256
    reads w
  {
    StillToDeliver(w.id, NO_RESPONSE, START, false, [0, |addons|] + addons + TlsBytes(w.wire), RawBytes(w.wire))
  }

  lemma ReadableIsLeft(w: VisionStream, addons: seq<byte>)
    requires |w.id| == 16 && |addons| < 256
    ensures Readable(w, addons) == Left(w.id, START, false, TlsBytes(w.wire), RawBytes(w.wire))
  {
    hide Left, Skipped;
    ResponseIsSkipped(addons, TlsBytes(w.wire));
  }

  lemma WireParts(wire: seq<Cell>, framed: seq<byte>, plain: seq<byte>, direct: bool)
    requires OnWire(wire, [], framed, plain, direct)
    ensures TlsBytes(wire) == framed + if direct then [] else plain
    ensures RawBytes(wire) == if direct then plain else []
  {
    AllSent(wire, framed, plain, direct);
    BytesOfCells(framed, false, Cells(plain, direct));
    BytesOfCells(plain, direct, []);
    assert Cells(plain, direct) + [] == Cells(plain, direct);
    assert TlsBytes([]) == [] && RawBytes([]) == [];
    hide TlsBytes, RawBytes, Cells, OnWire;
  }

  /** Everything queued has been written: the two kinds of bytes on the wire. */
  lemma WholeWire(w: VisionStream)
    requires w.WriteInv() && w.pending[w.written..] == []
    ensures TlsBytes(w.wire) == w.FrameStream() + AfterTls(w.frames, w.plain)
    ensures RawBytes(w.wire) == AfterRaw(w.frames, w.plain)
  {
    hide Framed, TlsBytes, RawBytes, OnWire, Sequence, LastCommand;
    WireParts(w.wire, w.FrameStream(), w.plain, LastCommand(w.frames) == 2);
  }

  /** Something queued has not been written: the wire is a part of the frames. */
  lemma PartOfWire(w: VisionStream)
    requires w.WriteInv() && w.pending[w.written..] != []
    ensures w.plain == [] && |w.wire| <= |w.FrameStream()|
    ensures TlsBytes(w.wire) == w.FrameStream()[..|w.wire|] && RawBytes(w.wire) == []
  {
    hide Framed, Sequence, LastCommand;
    var framed, n, unsent := w.FrameStream(), |w.wire|, w.pending[w.written..];
    var whole := Cells(framed, false) + Cells([], LastCommand(w.frames) == 2);
    assert w.wire + Cells(unsent, false) == whole && |whole| == |framed|;
    assert w.wire == Cells(framed[..n], false) by {
      assert forall i :: 0 <= i < n ==> w.wire[i] == whole[i] == Cells(framed[..n], false)[i];
    }
    BytesOfCells(framed[..n], false, []);
    assert Cells(framed[..n], false) + [] == w.wire;
  }

  /**
  Unpadding undoes padding: a reader of everything that a writer has put on the wire, behind any
  version-0 response header, has exactly the accepted bytes to deliver, and then a clean end.
  */
  lemma UnpaddingUndoesPadding(w: VisionStream, addons: seq<byte>)
    requires w.WriteInv() && w.pending[w.written..] == [] && |addons| < 256
    ensures Readable(w, addons) == Rest(w.Accepted(), true, if LastCommand(w.frames) == 2 then Some([]) else None)
  {
    hide Left, Framed, Readable;
    ReadableIsLeft(w, addons);
    WholeWire(w);
    StreamReadsBack(w.id, w.frames, w.plain);
  }

  /**
  At any moment, with a frame half written or stalled: a reader of the wire so far delivers a
  prefix of what was accepted; and it leaves the outer TLS stream only if the last frame has
  command 2 and the wire carries that stream whole, and then exactly at its end.
  */
  lemma WireReadsAsPrefix(w: VisionStream, addons: seq<byte>)
    requires w.WriteInv() && |addons| < 256
    ensures Readable(w, addons).out <= w.Accepted()
    ensures Readable(w, addons).atSwitch.Some? ==>
              && Readable(w, addons).atSwitch == Some([])
              && LastCommand(w.frames) == 2 && TlsBytes(w.wire) == w.FrameStream()
  {
    hide Left, Framed, Readable;
    if w.pending[w.written..] == [] {
      UnpaddingUndoesPadding(w, addons);
      WholeWire(w);
    } else {
      ReadableIsLeft(w, addons);
      PartOfWire(w);
      CutStreamReads(w.id, w.frames, |w.wire|);
    }
  }

  lemma CutStreamReads(id: seq<byte>, fs: seq<Frame>, n: nat)
    requires |id| == 16 && Sequence(fs) && n <= |Framed(id, fs)|
    ensures var rest := Left(id, START, false, Framed(id, fs)[..n], []);
            && rest.out <= Contents(fs)
            && (rest.atSwitch.Some? ==> rest.atSwitch == Some([]) && LastCommand(fs) == 2 && n == |Framed(id, fs)|)
  {
    hide Left, Framed;
    var framed := Framed(id, fs);
    assert framed == framed[..n] + framed[n..] == framed + [];
    StreamReadsBack(id, fs, []);
    LeftOfPrefix(id, START, false, framed[..n], framed[n..], []);
    assert Contents(fs) + [] == Contents(fs);
  }

  lemma StreamReadsBack(id: seq<byte>, fs: seq<Frame>, plain: seq<byte>)
    requires |id| == 16 && Sequence(fs) && (LastCommand(fs) == 0 ==> plain == [])
    ensures Left(id, START, false, Framed(id, fs) + AfterTls(fs, plain), AfterRaw(fs, plain))
            == Rest(Contents(fs) + plain, true, if LastCommand(fs) == 2 then Some([]) else None)
  {
    if fs != [] { FramesReadBack(id, true, fs, plain); }
  }

  /** What one side does: writes with any padding, reads of any size, flushes. */
  datatype Traffic = Write(bytes: seq<byte>, draw: nat) | Read(size: nat) | Flush

  /**
  What a run of two streams shows: what one side accepted and whether it flushed it all, what the
  other side received and whether it saw the end, and whether that side went direct, with the TLS
  bytes that were sent to it and those it had not read by then.
  */
  datatype Outcome = Outcome(sent: seq<byte>, flushed: bool, received: seq<byte>, ended: bool,
                             direct: bool, carried: seq<byte>, unread: seq<byte>)

  /**
  One side writes, reads and flushes as it likes, whatever it receives meanwhile, and may stop in
  the middle of a frame; the other side then reads with any buffer sizes, over transports that
  behave as they like. What is received is a prefix of what was accepted, and all of it at the end
  of a stream that was flushed. A reader that goes direct has read the response header and the
  frames up to the padding of the last one, which has command 2, and not a byte more.
  */
  method EndToEnd(id: seq<byte>, inbound: (seq<byte>, seq<byte>), traffic: seq<Traffic>, addons: seq<byte>, sizes: seq<nat>)
    returns (o: Outcome, ghost frames: seq<Frame>)
    requires |id| == 16 && |addons| < 256
    ensures Sequence(frames) && Contents(frames) <= o.sent
    ensures o.received <= o.sent
    ensures o.ended && o.flushed ==> o.received == o.sent
    ensures o.direct ==> LastCommand(frames) == 2 && o.unread == [] && o.carried == [0, |addons|] + addons + Framed(id, frames)
  {
    hide *;
    var sent, flushed, tls, raw;
    ghost var whole;
    sent, flushed, tls, raw, frames, whole := WriteSide(id, inbound, traffic, addons);
    var carried := [0, |addons|] + addons + tls;
    var received, ended, direct, unread := ReadSide(id, carried, raw, sizes, whole);
    PrefixOfPrefix(received, whole.out, sent);
    o := Outcome(sent, flushed, received, ended, direct, carried, unread);
  }

  lemma PrefixOfPrefix(a: seq<byte>, b: seq<byte>, c: seq<byte>)
    requires a <= b <= c
    ensures a <= c
  {
  }

  method WriteSide(id: seq<byte>, inbound: (seq<byte>, seq<byte>), traffic: seq<Traffic>, ghost addons: seq<byte>)
    returns (sent: seq<byte>, flushed: bool, tls: seq<byte>, raw: seq<byte>, ghost frames: seq<Frame>, ghost whole: Rest)
    requires |id| == 16 && |addons| < 256
    ensures Sequence(frames) && Contents(frames) <= sent
    ensures whole == StillToDeliver(id, NO_RESPONSE, START, false, [0, |addons|] + addons + tls, raw)
    ensures whole.out <= sent && (flushed ==> whole.out == sent)
    ensures whole.atSwitch.Some? ==> whole.atSwitch == Some([]) && LastCommand(frames) == 2 && tls == Framed(id, frames)
  {
    hide *;
    var w := new VisionStream(id, inbound.0, inbound.1);
    var heard;
    sent, heard := Exchange(w, traffic);
    assert [] + sent == sent;
    var f := w.FlushFrame();
    flushed, tls, raw, frames, whole := f.Ready?, TlsBytes(w.wire), RawBytes(w.wire), w.frames, Readable(w, addons);
    WriterFacts(w, addons);
    WireReadsAsPrefix(w, addons);
    if flushed { UnpaddingUndoesPadding(w, addons); }
  }

  lemma WriterFacts(w: VisionStream, addons: seq<byte>)
    requires w.WriteInv() && |addons| < 256
    ensures Sequence(w.frames) && Contents(w.frames) <= w.Accepted() && w.FrameStream() == Framed(w.id, w.frames)
    ensures w.pending == [] ==> w.pending[w.written..] == []
    ensures Readable(w, addons)
            == StillToDeliver(w.id, NO_RESPONSE, START, false, [0, |addons|] + addons + TlsBytes(w.wire), RawBytes(w.wire))
  {
    hide TlsBytes, RawBytes, StillToDeliver, Framed, Contents, OnWire;
  }

  method ReadSide(id: seq<byte>, tls: seq<byte>, raw: seq<byte>, sizes: seq<nat>, ghost whole: Rest)
    returns (received: seq<byte>, ended: bool, direct: bool, unread: seq<byte>)
    requires |id| == 16 && whole == StillToDeliver(id, NO_RESPONSE, START, false, tls, raw)
    ensures received <= whole.out && (ended ==> received == whole.out)
    ensures direct ==> whole.atSwitch == Some(unread)
  {
    hide *;
    var reader := new VisionStream(id, tls, raw);
    received, ended := ReadAll(reader, sizes);
    direct, unread := reader.readDirect, reader.tls;
  }

  /**
  Any peer: behind a response header and frames of which the last has command 2, a reader that
  goes direct leaves exactly what follows them unread, whatever that is.
  */
  method ReadsUpToTheSwitch(id: seq<byte>, addons: seq<byte>, fs: seq<Frame>, rest: seq<byte>, raw: seq<byte>, sizes: seq<nat>)
    returns (received: seq<byte>, direct: bool, unread: seq<byte>)
    requires |id| == 16 && |addons| < 256 && Sequence(fs) && LastCommand(fs) == 2
    ensures direct ==> unread == rest
  {
    var tls := Framed(id, fs) + rest;
    SwitchBehind(id, addons, fs, rest, raw);
    hide *;
    ghost var whole := StillToDeliver(id, NO_RESPONSE, START, false, [0, |addons|] + addons + tls, raw);
    var ended;
    received, ended, direct, unread := ReadSide(id, [0, |addons|] + addons + tls, raw, sizes, whole);
  }

  lemma SwitchBehind(id: seq<byte>, addons: seq<byte>, fs: seq<Frame>, rest: seq<byte>, raw: seq<byte>)
    requires |id| == 16 && |addons| < 256 && Sequence(fs) && LastCommand(fs) == 2
    ensures StillToDeliver(id, NO_RESPONSE, START, false, [0, |addons|] + addons + (Framed(id, fs) + rest), raw).atSwitch
            == Some(rest)
  {
    hide Left, Skipped;
    ResponseIsSkipped(addons, Framed(id, fs) + rest);
    SwitchAfterFrames(id, true, fs, rest, raw);
  }

  method Exchange(w: VisionStream, traffic: seq<Traffic>) returns (sent: seq<byte>, received: seq<byte>)
    requires w.WriteInv() && w.ReadInv() && w.SniffInv() && w.heard == []
    modifies w
    ensures w.WriteInv() && w.ReadInv() && w.SniffInv()
    ensures w.Accepted() == old(w.Accepted()) + sent
    ensures w.heard <= received && (w.readPlain || w.heard == received)
  {
    hide *;
    sent, received := [], [];
    for i := 0 to |traffic|
      invariant w.WriteInv() && w.ReadInv() && w.SniffInv() && w.Accepted() == old(w.Accepted()) + sent
      invariant w.heard <= received && (w.readPlain || w.heard == received)
    {
      match traffic[i] {
        case Write(bytes, draw) =>
          var r := w.PollWrite(bytes, draw);
          if r.Ready? { sent := sent + bytes[..r.value]; }
        case Read(size) =>
          var r := w.PollRead(size);
          if r.Ready? { received := received + r.value; }
        case Flush =>
          var _ := w.FlushFrame();
      }
    }
  }

  /**
  Every run of one stream: each frame has the command that the two streams call for at that
  moment. It ends the framing with command 2 exactly if it begins with TLS application data and
  the content delivered before it holds a TLS 1.3 ServerHello; and with command 1 exactly if it
  begins with application data of any other TLS, or if eight bytes have shown that it is not TLS.
  */
  method CommandsFollowTheStreams(id: seq<byte>, inbound: (seq<byte>, seq<byte>), traffic: seq<Traffic>)
    returns (sent: seq<byte>, received: seq<byte>, ghost frames: seq<Frame>, ghost heardBy: seq<nat>)
    requires |id| == 16
    ensures Sequence(frames) && Contents(frames) <= sent
    ensures |heardBy| == |frames|
    ensures forall i :: 0 <= i < |frames| ==>
              heardBy[i] <= |received| && Fitted(frames[i], received[..heardBy[i]], Contents(frames[..i + 1]))
  {
    hide *;
    var w := new VisionStream(id, inbound.0, inbound.1);
    sent, received := Exchange(w, traffic);
    assert [] + sent == sent;
    frames, heardBy := w.frames, w.heardBy;
    WriterFacts(w, []);
    w.SniffFacts();
    HeardMore(frames, heardBy, w.heard, received[|w.heard|..]);
    assert w.heard + received[|w.heard|..] == received;
    FittedOneByOne(frames, heardBy, received);
  }

  lemma FittedOneByOne(frames: seq<Frame>, heardBy: seq<nat>, heard: seq<byte>)
    requires AllFitted(frames, heardBy, heard)
    ensures |heardBy| == |frames|
    ensures forall i :: 0 <= i < |frames| ==>
              heardBy[i] <= |heard| && Fitted(frames[i], heard[..heardBy[i]], Contents(frames[..i + 1]))
  {
    hide Fitted;
  }

  method ReadOnce(s: VisionStream, size: nat) returns (got: seq<byte>, end: bool)
    requires |s.id| == 16 && s.ReadInv() && s.WriteInv() && s.SniffInv()
    modifies s
    ensures s.ReadInv() && s.WriteInv() && s.SniffInv()
    ensures old(s.Undelivered()) == Prepend(got, s.Undelivered())
    ensures end ==> got == [] && s.Undelivered().out == []
  {
    hide *;
    got, end := [], false;
    var r := s.PollRead(size);
    NothingPrepended(s.Undelivered());
    if r.Ready? {
      got, end := r.value, r.value == [] && size > 0;
    }
  }

  /**
  Any reads: what is received and what is left are together what was there to deliver, and a
  reader that is direct stands exactly where the one-shot reading leaves the outer TLS stream.
  */
  method ReadAll(s: VisionStream, sizes: seq<nat>) returns (received: seq<byte>, ended: bool)
    requires |s.id| == 16 && s.ReadInv() && s.WriteInv() && s.SniffInv()
    modifies s
    ensures s.ReadInv() && s.WriteInv()
    ensures received + s.Undelivered().out == old(s.Undelivered()).out
    ensures ended ==> received == old(s.Undelivered()).out
    ensures s.readDirect ==> s.command == 2 && s.padding == 0 && old(s.Undelivered()).atSwitch == Some(s.tls)
    ensures !s.readDirect ==> s.Undelivered().atSwitch == old(s.Undelivered()).atSwitch
  {
    hide *;
    received, ended := [], false;
    ghost var whole := s.Undelivered();
    NothingPrepended(whole);
    for i := 0 to |sizes|
      invariant s.ReadInv() && s.WriteInv() && s.SniffInv()
      invariant whole == Prepend(received, s.Undelivered())
      invariant ended ==> received == whole.out
    {
      ghost var before := s.Undelivered();
      var got, end := ReadOnce(s, sizes[i]);
      PrependTwice(received, got, s.Undelivered());
      received := received + got;
      PrependParts(received, s.Undelivered());
      if end { ended := true; }
    }
    PrependParts(received, s.Undelivered());
    if s.readDirect { s.DirectIsSwitched(); }
  }

  lemma NothingPrepended(rest: Rest)
    ensures Prepend([], rest) == rest && (Over(rest) ==> rest.out == [])
  {
    assert [] + rest.out == rest.out;
  }

  lemma PrependTwice(a: seq<byte>, b: seq<byte>, rest: Rest)
    ensures Prepend(a, Prepend(b, rest)) == Prepend(a + b, rest)
  {
    Associates(a, b, rest.out);
  }

  lemma PrependParts(bytes: seq<byte>, rest: Rest)
    ensures Prepend(bytes, rest).out == bytes + rest.out && Prepend(bytes, rest).atSwitch == rest.atSwitch
    ensures rest.out == [] ==> Prepend(bytes, rest).out == bytes
  {
  }
}
