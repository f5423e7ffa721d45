/**
Fragments behind extension headers (sections 4.1, 4.3, 4.4, 4.5 and 4.6 of RFC 8200): an encoder
of header chains, and what reassembly makes of the packets it builds.
*/
module ExtensionChains {
  import opened Prelude
  import opened Ipv6Wire
  import opened Reassembly
  import opened ReassemblyRuns

  const HOP_BY_HOP: byte := 0
  const ROUTING: byte := 43
  const DESTINATION: byte := 60

  /** One extension header; `units` counts its eight-byte units after the first. */
  datatype Extension = Extension(kind: byte, units: byte, data: seq<byte>)
  {
    predicate Valid() {
      (kind == HOP_BY_HOP || kind == ROUTING || kind == DESTINATION) && |data| == 8 * units + 6
    }
  }

  predicate ValidChain(chain: seq<Extension>) {
    forall e :: e in chain ==> e.Valid()
  }

  /** What the header before the chain names. */
  function First(chain: seq<Extension>, last: byte): byte {
    if chain == [] then last else chain[0].kind
  }

  /** The chain; its last header names `last`. */
  function Chain(chain: seq<Extension>, last: byte): seq<byte> {
    if chain == [] then []
    else [First(chain[1..], last), chain[0].units] + chain[0].data + Chain(chain[1..], last)
  }

  /** The fixed header with its next protocol and its payload length. */
  function Headed(head: seq<byte>, next: byte, length: u16): (h: seq<byte>)
    requires |head| == HEADER
    ensures |h| == HEADER
  {
    head[6 := next][4 := PutBe16(length)[0]][5 := PutBe16(length)[1]]
  }

  /** A packet: the fixed header, the chain and the body. */
  function Packet(head: seq<byte>, chain: seq<Extension>, last: byte, body: seq<byte>): seq<byte>
    requires |head| == HEADER && |Chain(chain, last)| + |body| < 65536
  {
    Headed(head, First(chain, last), |Chain(chain, last)| + |body|) + Chain(chain, last) + body
  }

  /** Where the byte stands that names what follows the chain. */
  function NamedAt(chain: seq<Extension>, at: nat, previous: nat): nat
    decreases |chain|
  {
    if chain == [] then previous else NamedAt(chain[1..], at + 2 + |chain[0].data|, at)
  }

  lemma {:induction false} ChainLength(chain: seq<Extension>, a: byte, b: byte)
    ensures |Chain(chain, a)| == |Chain(chain, b)|
    decreases |chain|
  {
    if chain != [] { ChainLength(chain[1..], a, b); }
  }

  lemma HeaderIsWalked(bytes: seq<byte>, at: nat, previous: nat, e: Extension, limit: nat)
    requires e.Valid() && limit > 0 && at + 2 + |e.data| <= |bytes| && bytes[at + 1] == e.units
    ensures WalkFrom(bytes, Walk(e.kind, at, previous), limit)
            == WalkFrom(bytes, Walk(bytes[at], at + 2 + |e.data|, at), limit - 1)
  {
  }

  function HeaderBytes(chain: seq<Extension>, last: byte): seq<byte>
    requires chain != []
  {
    [First(chain[1..], last), chain[0].units] + chain[0].data
  }

  lemma ChainSplits(front: seq<byte>, chain: seq<Extension>, last: byte, back: seq<byte>)
    requires chain != []
    ensures front + Chain(chain, last) + back == front + HeaderBytes(chain, last) + Chain(chain[1..], last) + back
    ensures |Chain(chain, last)| == |HeaderBytes(chain, last)| + |Chain(chain[1..], last)|
  {
    assert Chain(chain, last) == HeaderBytes(chain, last) + Chain(chain[1..], last);
    hide Chain, HeaderBytes;
    Associates(front, HeaderBytes(chain, last), Chain(chain[1..], last));
  }

  lemma HeaderStands(front: seq<byte>, chain: seq<Extension>, last: byte, rest: seq<byte>)
    requires chain != []
    ensures var bytes := front + HeaderBytes(chain, last) + rest;
            && |HeaderBytes(chain, last)| == 2 + |chain[0].data|
            && bytes[|front|] == First(chain[1..], last) && bytes[|front| + 1] == chain[0].units
  {
    hide First;
  }

  lemma ChainStep(bytes: seq<byte>, front: seq<byte>, chain: seq<Extension>, last: byte, back: seq<byte>)
    requires chain != [] && bytes == front + Chain(chain, last) + back
    ensures bytes == (front + HeaderBytes(chain, last)) + Chain(chain[1..], last) + back
    ensures |front + HeaderBytes(chain, last)| == |front| + 2 + |chain[0].data| <= |bytes|
    ensures |front| + |Chain(chain, last)| == |front + HeaderBytes(chain, last)| + |Chain(chain[1..], last)|
    ensures bytes[|front|] == First(chain[1..], last) && bytes[|front| + 1] == chain[0].units
  {
    hide Chain, HeaderBytes, First;
    ChainSplits(front, chain, last, back);
    HeaderStands(front, chain, last, Chain(chain[1..], last) + back);
    Associates(front + HeaderBytes(chain, last), Chain(chain[1..], last), back);
  }

  lemma ChainEnds(bytes: seq<byte>, front: seq<byte>, previous: nat, chain: seq<Extension>, last: byte, limit: nat)
    requires last != HOP_BY_HOP && last != ROUTING && last != DESTINATION
    ensures WalkFrom(bytes, Walk(last, |front|, previous), limit) == Some(Walk(last, |front|, previous))
    ensures chain == [] ==> First(chain, last) == last && Chain(chain, last) == [] && NamedAt(chain, |front|, previous) == previous
    ensures chain != [] ==> NamedAt(chain, |front|, previous) == NamedAt(chain[1..], |front| + 2 + |chain[0].data|, |front|)
  {
  }

  lemma FirstOf(chain: seq<Extension>, last: byte)
    requires chain != []
    ensures First(chain, last) == chain[0].kind
  {
  }

  /** The walk over the headers reads the chain to its end. */
  lemma {:induction false} ChainIsWalked(bytes: seq<byte>, front: seq<byte>, previous: nat, chain: seq<Extension>,
                                         last: byte, back: seq<byte>, limit: nat)
    requires last != HOP_BY_HOP && last != ROUTING && last != DESTINATION
    requires ValidChain(chain) && |chain| <= limit && bytes == front + Chain(chain, last) + back
    ensures WalkFrom(bytes, Walk(First(chain, last), |front|, previous), limit)
            == Some(Walk(last, |front| + |Chain(chain, last)|, NamedAt(chain, |front|, previous)))
    decreases |chain|
  {
    hide WalkFrom, Chain, HeaderBytes, First, NamedAt, Extension.Valid;
    ChainEnds(bytes, front, previous, chain, last, limit);
    if chain != [] {
      assert chain[0] in chain;
      FirstOf(chain, last);
      ChainStep(bytes, front, chain, last, back);
      HeaderIsWalked(bytes, |front|, previous, chain[0], limit);
      ChainIsWalked(bytes, front + HeaderBytes(chain, last), |front|, chain[1..], last, back, limit - 1);
    }
  }

  /** Naming another protocol behind the chain changes one byte. */
  lemma {:induction false} ChainIsRenamed(front: seq<byte>, previous: nat, chain: seq<Extension>, a: byte, b: byte)
    requires previous < |front|
    ensures NamedAt(chain, |front|, previous) < |front| + |Chain(chain, a)|
    ensures (front + Chain(chain, a))[NamedAt(chain, |front|, previous) := b]
            == (if chain == [] then front[previous := b] else front) + Chain(chain, b)
    decreases |chain|
  {
    if chain != [] {
      var e, rest := chain[0], chain[1..];
      var longer := front + ([First(rest, a), e.units] + e.data);
      assert front + Chain(chain, a) == longer + Chain(rest, a);
      ChainIsRenamed(longer, |front|, rest, a, b);
      var renamed := front + ([First(rest, b), e.units] + e.data);
      assert (if rest == [] then longer[|front| := b] else longer) == renamed;
      assert renamed + Chain(rest, b) == front + Chain(chain, b);
    } else {
      assert front + [] == front;
    }
  }

  // ---------- the fragment header ----------

  /** A fragment header: `spare` are the two bits between the offset and the flag. */
  datatype Cut = Cut(next: byte, reserved: byte, offset: nat, spare: nat, more: bool, ident: seq<byte>)
  {
    predicate Valid() {
      && offset % 8 == 0 && offset < 65536 && spare < 4 && |ident| == 4 && next != FRAGMENT
    }

    function Bytes(): (b: seq<byte>)
      requires Valid()
      ensures |b| == 8
    {
      [next, reserved] + PutBe16(offset + 2 * spare + if more then 1 else 0) + ident
    }
  }

  lemma OffsetReadBack(offset: nat, spare: nat, more: bool)
    requires offset % 8 == 0 && spare < 4
    ensures var bits := offset + 2 * spare + if more then 1 else 0;
            bits / 8 * 8 == offset && (bits % 2 == 1) == more
  {
    LowBits(offset / 8, 2 * spare + if more then 1 else 0);
    EvenAndOdd(spare, more);
    assert offset == 8 * (offset / 8);
  }

  lemma LowBits(k: nat, low: nat)
    requires low < 8
    ensures (8 * k + low) / 8 == k && (8 * k + low) % 2 == low % 2
  {
    EvenShift(4 * k, low);
  }

  lemma {:induction false} EvenShift(k: nat, low: nat)
    ensures (2 * k + low) % 2 == low % 2
  {
    if k > 0 { EvenShift(k - 1, low); }
  }

  lemma EvenAndOdd(n: nat, odd: bool)
    ensures ((2 * n + if odd then 1 else 0) % 2 == 1) == odd
  {
  }

  /** A packet with a fragment header behind its chain, and anything behind the packet. */
  function Fragmented(head: seq<byte>, chain: seq<Extension>, cut: Cut, payload: seq<byte>, trailing: seq<byte>): seq<byte>
    requires |head| == HEADER && cut.Valid() && |Chain(chain, FRAGMENT)| + 8 + |payload| < 65536
  {
    Packet(head, chain, FRAGMENT, cut.Bytes() + payload) + trailing
  }

  /** The header in front of the fragment header. */
  function Prefix(head: seq<byte>, chain: seq<Extension>, length: u16): seq<byte>
    requires |head| == HEADER
  {
    Headed(head, First(chain, FRAGMENT), length) + Chain(chain, FRAGMENT)
  }

  predicate Sendable(head: seq<byte>, chain: seq<Extension>, cut: Cut, payload: seq<byte>) {
    && |head| == HEADER && head[0] / 16 == 6 && ValidChain(chain) && |chain| <= 8 && cut.Valid()
    && |Chain(chain, FRAGMENT)| + 8 + |payload| < 65536
  }

  lemma HeadedReadBack(head: seq<byte>, next: byte, length: u16)
    requires |head| == HEADER
    ensures var h := Headed(head, next, length);
            h[6] == next && PayloadLength(h) == length && h[0] == head[0] && h[8..24] == head[8..24] && h[24..40] == head[24..40]
  {
    hide PutBe16, Be16;
  }

  /** The stated length cuts off what stands behind the packet. */
  lemma TrailingIsCut(head: seq<byte>, next: byte, body: seq<byte>, trailing: seq<byte>)
    requires |head| == HEADER && |body| < 65536
    ensures var packet := Headed(head, next, |body|) + body; Checked(packet + trailing) == Some(packet)
  {
    hide Headed, Be16;
    HeadedReadBack(head, next, |body|);
    var h := Headed(head, next, |body|);
    var packet := h + body;
    assert (packet + trailing)[4] == h[4] && (packet + trailing)[5] == h[5];
    assert (packet + trailing)[..HEADER + |body|] == packet;
  }

  /** Where the parts of the packet stand. */
  lemma PartsStand(head: seq<byte>, chain: seq<Extension>, cut: Cut, payload: seq<byte>)
    requires Sendable(head, chain, cut, payload)
    ensures var n := |Chain(chain, FRAGMENT)|;
            var h := Headed(head, First(chain, FRAGMENT), n + 8 + |payload|);
            var packet := Packet(head, chain, FRAGMENT, cut.Bytes() + payload);
            && packet == h + (Chain(chain, FRAGMENT) + (cut.Bytes() + payload)) == h + Chain(chain, FRAGMENT) + (cut.Bytes() + payload)
            && packet[HEADER..HEADER + n] == Chain(chain, FRAGMENT)
            && packet[..HEADER + n] == Prefix(head, chain, n + 8 + |payload|)
            && packet[HEADER + n..HEADER + n + 8] == cut.Bytes() && packet[HEADER + n + 8..] == payload
            && packet[8..24] == head[8..24] && packet[24..40] == head[24..40] && packet[6] == h[6] && packet[0] == head[0]
  {
    hide Headed, Chain, First, Be16;
    var n := |Chain(chain, FRAGMENT)|;
    HeadedReadBack(head, First(chain, FRAGMENT), n + 8 + |payload|);
    var h, c, x := Headed(head, First(chain, FRAGMENT), n + 8 + |payload|), Chain(chain, FRAGMENT), cut.Bytes();
    assert Packet(head, chain, FRAGMENT, x + payload) == h + c + (x + payload);
    assert Prefix(head, chain, n + 8 + |payload|) == h + c;
    hide Packet, Prefix;
    FourParts(h, c, x, payload);
  }

  lemma FourParts(h: seq<byte>, c: seq<byte>, x: seq<byte>, y: seq<byte>)
    requires |h| == HEADER && |x| == 8
    ensures var n, all := |c|, h + c + (x + y);
            && all == h + (c + (x + y)) && all[HEADER..HEADER + n] == c && all[..HEADER + n] == h + c
            && all[HEADER + n..HEADER + n + 8] == x && all[HEADER + n + 8..] == y
            && all[8..24] == h[8..24] && all[24..40] == h[24..40] && all[6] == h[6] && all[0] == h[0]
  {
    Associates(h, c, x + y);
  }

  lemma {:induction false} NamedIsInside(chain: seq<Extension>, at: nat, previous: nat)
    requires previous < at
    ensures NamedAt(chain, at, previous) == previous || NamedAt(chain, at, previous) >= at
    ensures chain != [] ==> NamedAt(chain, at, previous) >= at
    decreases |chain|
  {
    if chain != [] { NamedIsInside(chain[1..], at + 2 + |chain[0].data|, at); }
  }

  /** Such a packet is read as its fragment. */
  lemma FragmentIsRead(head: seq<byte>, chain: seq<Extension>, cut: Cut, payload: seq<byte>, trailing: seq<byte>)
    requires Sendable(head, chain, cut, payload)
    ensures Parse(Fragmented(head, chain, cut, payload, trailing))
            == Part(Fragment(Key(head[8..24], head[24..40], cut.ident),
                             Prefix(head, chain, |Chain(chain, FRAGMENT)| + 8 + |payload|), NamedAt(chain, HEADER, 6),
                             cut.next, cut.offset, cut.more, payload))
  {
    hide Headed, Chain, WalkFrom, Checked, PutBe16, Be16, NamedAt, First;
    var n := |Chain(chain, FRAGMENT)|;
    var packet := Packet(head, chain, FRAGMENT, cut.Bytes() + payload);
    PartsStand(head, chain, cut, payload);
    HeadedReadBack(head, First(chain, FRAGMENT), n + 8 + |payload|);
    TrailingIsCut(head, First(chain, FRAGMENT), Chain(chain, FRAGMENT) + (cut.Bytes() + payload), trailing);
    ChainIsWalked(packet, Headed(head, First(chain, FRAGMENT), n + 8 + |payload|), 6, chain, FRAGMENT, cut.Bytes() + payload, 8);
    CutIsRead(packet, HEADER + n, cut);
    assert (packet + trailing)[0] == packet[0];
  }

  /** The eight bytes of a fragment header. */
  lemma CutIsRead(packet: seq<byte>, o: nat, cut: Cut)
    requires cut.Valid() && o + 8 <= |packet| && packet[o..o + 8] == cut.Bytes()
    ensures packet[o] == cut.next && packet[o + 4..o + 8] == cut.ident
    ensures var bits := Be16(packet[o + 2], packet[o + 3]); bits / 8 * 8 == cut.offset && (bits % 2 == 1) == cut.more
  {
    hide PutBe16, Be16;
    var b, bits := cut.Bytes(), PutBe16(cut.offset + 2 * cut.spare + if cut.more then 1 else 0);
    assert packet[o] == b[0] && packet[o + 2] == b[2] == bits[0] && packet[o + 3] == b[3] == bits[1];
    assert packet[o + 4..o + 8] == b[4..];
    OffsetReadBack(cut.offset, cut.spare, cut.more);
  }

  /** Without the fragment header the chain names what follows, and the length is that of the packet. */
  lemma ChainIsRebuilt(head: seq<byte>, chain: seq<Extension>, length: u16, next: byte, body: seq<byte>)
    requires |head| == HEADER && |Chain(chain, FRAGMENT)| + |body| < 65536
    ensures |Chain(chain, next)| == |Chain(chain, FRAGMENT)|
    ensures HeaderFits(Prefix(head, chain, length), NamedAt(chain, HEADER, 6))
    ensures Rebuilt(Prefix(head, chain, length), NamedAt(chain, HEADER, 6), next, body) == Packet(head, chain, next, body)
  {
    hide Chain, NamedAt, PutBe16;
    var h, named := Headed(head, First(chain, FRAGMENT), length), NamedAt(chain, HEADER, 6);
    ChainLength(chain, FRAGMENT, next);
    NamedIsInside(chain, HEADER, 6);
    ChainIsRenamed(h, 6, chain, FRAGMENT, next);
    Keeps16(|Chain(chain, FRAGMENT)| + |body|);
    var size: seq<byte> := PutBe16(|Chain(chain, next)| + |body|);
    var front: seq<byte> := if chain == [] then h[6 := next] else h;
    assert (front + Chain(chain, next))[4 := size[0]][5 := size[1]] == front[4 := size[0]][5 := size[1]] + Chain(chain, next);
    assert front[4 := size[0]][5 := size[1]] == Headed(head, First(chain, next), |Chain(chain, next)| + |body|);
  }

  // ---------- what is handed on ----------

  /** An atomic fragment is handed on at once: the same chain and payload without the fragment header. */
  lemma AtomicFragmentIsUnwrapped(cap: nat, pending: Pending, head: seq<byte>, chain: seq<Extension>, cut: Cut,
                                  payload: seq<byte>, trailing: seq<byte>, now: nat)
    requires AllSane(pending) && Sendable(head, chain, cut, payload) && cut.offset == 0 && !cut.more
    ensures |Chain(chain, cut.next)| == |Chain(chain, FRAGMENT)|
    ensures Accepted(cap, pending, Fragmented(head, chain, cut, payload, trailing), now)
            == (pending, Some(Packet(head, chain, cut.next, payload)))
  {
    hide Parse, Rebuilt, Chain, NamedAt, Packet, Prefix, Fragmented, AllSane;
    FragmentIsRead(head, chain, cut, payload, trailing);
    ChainIsRebuilt(head, chain, |Chain(chain, FRAGMENT)| + 8 + |payload|, cut.next, payload);
  }

  /** A packet without a fragment header is handed on as it is, without what stands behind it. */
  lemma WholePacketIsHandedOn(cap: nat, pending: Pending, head: seq<byte>, chain: seq<Extension>, last: byte,
                              body: seq<byte>, trailing: seq<byte>, now: nat)
    requires AllSane(pending) && |head| == HEADER && head[0] / 16 == 6 && ValidChain(chain) && |chain| <= 8
    requires last != HOP_BY_HOP && last != ROUTING && last != DESTINATION && last != FRAGMENT
    requires |Chain(chain, last)| + |body| < 65536
    ensures Accepted(cap, pending, Packet(head, chain, last, body) + trailing, now)
            == (pending, Some(Packet(head, chain, last, body)))
  {
    hide WalkFrom, Chain, NamedAt, First, Headed, AllSane, Checked, Be16, PutBe16, Rebuilt, Step;
    var h, packet := Headed(head, First(chain, last), |Chain(chain, last)| + |body|), Packet(head, chain, last, body);
    Associates(h, Chain(chain, last), body);
    HeadedReadBack(head, First(chain, last), |Chain(chain, last)| + |body|);
    TrailingIsCut(head, First(chain, last), Chain(chain, last) + body, trailing);
    ChainIsWalked(packet, h, 6, chain, last, body, 8);
    assert packet[6] == h[6] && (packet + trailing)[0] == packet[0] == h[0];
  }

  /** The input is a fragment behind this chain, with some offset and some payload. */
  ghost predicate Carries(head: seq<byte>, chain: seq<Extension>, next: byte, input: Input) {
    exists cut: Cut, payload: seq<byte>, trailing: seq<byte> ::
      && Sendable(head, chain, cut, payload) && cut.next == next
      && input.Accept? && input.bytes == Fragmented(head, chain, cut, payload, trailing)
  }

  lemma CarriedPart(head: seq<byte>, chain: seq<Extension>, next: byte, input: Input, f: Fragment)
    requires Carries(head, chain, next, input) && IsPart(input, f)
    ensures |head| == HEADER && f.next == next && f.previous == NamedAt(chain, HEADER, 6)
    ensures exists length: u16 :: f.prefix == Prefix(head, chain, length)
  {
    hide Parse, Chain, NamedAt, Prefix, Fragmented;
    var cut: Cut, payload: seq<byte>, trailing: seq<byte> :|
      Sendable(head, chain, cut, payload) && cut.next == next && input.bytes == Fragmented(head, chain, cut, payload, trailing);
    FragmentIsRead(head, chain, cut, payload, trailing);
  }

  /**
  A datagram whose fragments carry a chain is completed to the same chain in front of the joined
  payloads, in every run.
  */
  lemma CompletedChain(cap: nat, inputs: seq<Input>, head: seq<byte>, chain: seq<Extension>, next: byte) returns (ps: seq<Piece>)
    requires Ordered(inputs) && inputs != [] && Partial(inputs[|inputs| - 1])
    requires Answer(cap, map[], inputs).Some?
    requires forall i :: 0 <= i < |inputs| && Partial(inputs[i]) && PartOf(inputs[i]).key == PartOf(inputs[|inputs| - 1]).key ==>
               Carries(head, chain, next, inputs[i])
    ensures Disjoint(ps) && Tiled(ps) && |head| == HEADER && |Chain(chain, next)| + |Joined(ps)| < 65536
    ensures Answer(cap, map[], inputs) == Some(Packet(head, chain, next, Joined(ps)))
  {
    hide Answer, Parse, Chain, NamedAt, Packet, Prefix, Carries, Tiled, Joined, Disjoint;
    ps := CompletedDatagram(cap, inputs);
    var f := ps[0].f;
    assert ps[0] in ps && Sourced(inputs, ps[0]);
    var i :| 0 <= i < |inputs| && IsPart(inputs[i], f) && inputs[i].now == ps[0].at;
    CarriedPart(head, chain, next, inputs[i], f);
    var length: u16 :| f.prefix == Prefix(head, chain, length);
    PrefixLength(head, chain, length);
    ChainIsRebuilt(head, chain, length, next, Joined(ps));
  }

  lemma PrefixLength(head: seq<byte>, chain: seq<Extension>, length: u16)
    requires |head| == HEADER
    ensures |Prefix(head, chain, length)| == HEADER + |Chain(chain, FRAGMENT)|
  {
  }
}
