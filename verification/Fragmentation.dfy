/** Fragmentation of generated packets, and what it takes to undo it. */
module Fragmentation {
  import opened Prelude
  import opened Ipv6Wire
  import opened Assembler
  import opened Reassembly

  /** `(mtu - 48) / 8 * 8`: the payload of every fragment but the last. */
  function StepOf(mtu: nat): (step: nat)
    requires mtu >= 1280
    ensures step % 8 == 0 && 1232 <= step && step + 48 <= mtu
  {
    (mtu - 48) / 8 * 8
  }

  predicate Fragmentable(protocol: byte) {
    protocol == 17 || protocol == 6 || protocol == 58
  }

  /** A checked packet: its stated length is its length. */
  predicate Exact(packet: seq<byte>) {
    HEADER <= |packet| && packet[0] / 16 == 6 && |packet| == HEADER + PayloadLength(packet)
  }

  function ChunkEnd(packet: seq<byte>, step: nat, at: nat): nat
    requires at <= |packet| - HEADER
  {
    Min(at + step, |packet| - HEADER)
  }

  /** The fragment that carries the payload from offset `at` on. */
  function PieceAt(packet: seq<byte>, step: nat, ident: seq<byte>, at: nat): (f: Fragment)
    requires HEADER <= |packet| <= MAX_PACKET && at < |packet| - HEADER
    ensures f.start == at && f.End() == ChunkEnd(packet, step, at)
  {
    var end := ChunkEnd(packet, step, at);
    var length := PutBe16(8 + end - at);
    Fragment(Key(packet[8..24], packet[24..40], ident),
             packet[..HEADER][6 := FRAGMENT][4 := length[0]][5 := length[1]], 6, packet[6],
             at, end < |packet| - HEADER, packet[HEADER + at..HEADER + end])
  }

  /** Its bytes on the wire. */
  function FrameOf(f: Fragment): seq<byte>
    requires f.start % 8 == 0 && f.start < 65536
  {
    f.prefix + [f.next, 0] + PutBe16(f.start + if f.more then 1 else 0) + f.key.ident + f.payload
  }

  /** Every `step`-th offset from `from` on. */
  function Offsets(step: nat, from: nat, length: nat): (r: seq<nat>)
    requires step > 0
    decreases length - from
  {
    if from >= length then [] else [from] + Offsets(step, from + step, length)
  }

  function Frames(packet: seq<byte>, step: nat, ident: seq<byte>, from: nat): (r: seq<seq<byte>>)
    requires HEADER <= |packet| <= MAX_PACKET && step > 0 && step % 8 == 0 && from % 8 == 0
    decreases |packet| - from
  {
    if from >= |packet| - HEADER then []
    else [FrameOf(PieceAt(packet, step, ident, from))] + Frames(packet, step, ident, from + step)
  }

  /** `fragment`: `None` is the error. */
  method Fragmented(bytes: seq<byte>, mtu: nat, ident: seq<byte>) returns (r: Option<seq<seq<byte>>>)
    requires |ident| == 4
    ensures |bytes| <= mtu || bytes == [] || bytes[0] / 16 != 6 ==> r == Some([bytes])
    ensures |bytes| > mtu && bytes != [] && bytes[0] / 16 == 6 ==>
              (r.Some? <==> mtu >= 1280 && |bytes| <= MAX_PACKET && Checked(bytes).Some?
                            && Fragmentable(bytes[6]))
    ensures |bytes| > mtu && bytes != [] && bytes[0] / 16 == 6 && r.Some? ==>
              r.value == Frames(Checked(bytes).value, StepOf(mtu), ident, 0)
  {
    if |bytes| <= mtu || bytes == [] || bytes[0] / 16 != 6 { return Some([bytes]); }
    if mtu < 1280 || |bytes| > MAX_PACKET { return None; }
    var checked := Checked(bytes);
    if checked.None? || !Fragmentable(bytes[6]) { return None; }
    var frames := FrameLoop(checked.value, StepOf(mtu), ident);
    r := Some(frames);
  }

  /** The loop of `fragment` over the chunks of the payload. */
  method FrameLoop(packet: seq<byte>, step: nat, ident: seq<byte>) returns (frames: seq<seq<byte>>)
    requires HEADER <= |packet| <= MAX_PACKET && step > 0 && step % 8 == 0
    ensures frames == Frames(packet, step, ident, 0)
  {
    hide PieceAt, FrameOf;
    frames := [];
    var at := 0;
    while at < |packet| - HEADER
      invariant at % 8 == 0
      invariant frames + Frames(packet, step, ident, at) == Frames(packet, step, ident, 0)
      decreases |packet| - at
    {
      ghost var rest := Frames(packet, step, ident, at + step);
      assert Frames(packet, step, ident, at) == [FrameOf(PieceAt(packet, step, ident, at))] + rest;
      assert frames + ([FrameOf(PieceAt(packet, step, ident, at))] + rest)
          == frames + [FrameOf(PieceAt(packet, step, ident, at))] + rest;
      frames := frames + [FrameOf(PieceAt(packet, step, ident, at))];
      at := at + step;
    }
  }

  // ---------- what the frames parse to ----------

  lemma {:induction false} FramesFollowOffsets(packet: seq<byte>, step: nat, ident: seq<byte>, from: nat)
    requires HEADER <= |packet| <= MAX_PACKET && step > 0 && step % 8 == 0 && from % 8 == 0
    ensures var offsets := Offsets(step, from, |packet| - HEADER);
            && |Frames(packet, step, ident, from)| == |offsets|
            && forall i :: 0 <= i < |offsets| ==>
                 offsets[i] % 8 == 0 && offsets[i] < |packet| - HEADER
                 && Frames(packet, step, ident, from)[i] == FrameOf(PieceAt(packet, step, ident, offsets[i]))
    decreases |packet| - from
  {
    hide FrameOf, PieceAt;
    if from < |packet| - HEADER {
      FramesFollowOffsets(packet, step, ident, from + step);
      var offsets, rest := Offsets(step, from, |packet| - HEADER), Offsets(step, from + step, |packet| - HEADER);
      assert forall i :: 1 <= i < |offsets| ==> offsets[i] == rest[i - 1];
    }
  }

  /** Offsets lie in their range, a step apart, and reach every position. */
  predicate Spaced(o: seq<nat>, step: nat, from: nat, length: nat) {
    && (forall i :: 0 <= i < |o| ==> from <= o[i] < length)
    && (forall i, j :: 0 <= i < j < |o| ==> o[i] + step <= o[j])
    && (forall x :: from <= x < length ==> Reached(o, step, x))
  }

  predicate Reached(o: seq<nat>, step: nat, x: int) {
    exists i :: 0 <= i < |o| && o[i] <= x < o[i] + step
  }

  lemma {:induction false} OffsetsAreSpaced(step: nat, from: nat, length: nat)
    requires step > 0
    ensures Spaced(Offsets(step, from, length), step, from, length)
    decreases length - from
  {
    if from < length {
      OffsetsAreSpaced(step, from + step, length);
      SpacedCons(Offsets(step, from + step, length), step, from, length);
    }
  }

  lemma SpacedCons(rest: seq<nat>, step: nat, from: nat, length: nat)
    requires Spaced(rest, step, from + step, length) && from < length
    ensures Spaced([from] + rest, step, from, length)
  {
    var o := [from] + rest;
    assert forall i :: 1 <= i < |o| ==> o[i] == rest[i - 1];
    forall x | from <= x < length ensures Reached(o, step, x) {
      if x < from + step {
        assert o[0] <= x < o[0] + step;
      } else {
        assert Reached(rest, step, x);
        var i :| 0 <= i < |rest| && rest[i] <= x < rest[i] + step;
        assert o[i + 1] <= x < o[i + 1] + step;
      }
    }
  }

  /** Every frame parses back to its fragment and fits the MTU. */
  lemma FrameParses(packet: seq<byte>, mtu: nat, ident: seq<byte>, at: nat)
    requires Exact(packet) && |packet| <= MAX_PACKET && mtu >= 1280 && |ident| == 4 && Fragmentable(packet[6])
    requires at % 8 == 0 && at < |packet| - HEADER
    ensures var f := PieceAt(packet, StepOf(mtu), ident, at);
            && |FrameOf(f)| <= mtu
            && Parse(FrameOf(f)) == Part(f)
  {
    hide FrameOf, WalkFrom, PutBe16;
    var f := PieceAt(packet, StepOf(mtu), ident, at);
    var frame := FrameOf(f);
    FrameLayout(f);
    assert PayloadLength(frame) == 8 + |f.payload|;
    assert frame[..HEADER + PayloadLength(frame)] == frame;
    assert Checked(frame) == Some(frame);
    assert frame[8..24] == packet[8..24] && frame[24..40] == packet[24..40];
    NoExtension(frame);
    OffsetAndFlag(at, f.more);
  }

  /** The low bit is the flag, and the offset is what is left when the low bits are cleared. */
  lemma OffsetAndFlag(at: nat, more: bool)
    requires at % 8 == 0
    ensures var bits := at + if more then 1 else 0; bits / 8 * 8 == at && (bits % 2 == 1) == more
  {
  }

  lemma NoExtension(frame: seq<byte>)
    requires |frame| >= HEADER && frame[6] == FRAGMENT
    ensures WalkFrom(frame, Walk(frame[6], HEADER, 6), 8) == Some(Walk(FRAGMENT, HEADER, 6))
  {
  }

  lemma FrameLayout(f: Fragment)
    requires f.start % 8 == 0 && f.start < 65536 && |f.prefix| == HEADER && |f.key.ident| == 4
    ensures var frame := FrameOf(f);
            && |frame| == 48 + |f.payload|
            && frame[..HEADER] == f.prefix && (forall i :: 0 <= i < HEADER ==> frame[i] == f.prefix[i])
            && frame[40] == f.next && frame[44..48] == f.key.ident && frame[48..] == f.payload
            && Be16(frame[42], frame[43]) == f.start + (if f.more then 1 else 0)
  {
    var bits := PutBe16(f.start + if f.more then 1 else 0);
    assert FrameOf(f) == f.prefix + [f.next, 0] + [bits[0], bits[1]] + f.key.ident + f.payload;
  }
}
