/** VLESS addresses and XUDP frames on the wire, and the reader that routes frames to sessions. */
module XudpWire {
  import opened Prelude

  datatype Host = V4(octets: seq<byte>) | V6(octets: seq<byte>) | Domain(text: seq<byte>)

  datatype Target = Target(host: Host, port: u16)

  /**
  What the host parser makes of a text of acceptable length: nothing if it holds a forbidden
  character, an address if it is one, and otherwise the domain itself. The textual syntax is not
  part of this model, so every member takes the parser as a parameter.
  */
  type HostParser = seq<byte> -> Option<Host>

  /** `Target::new`. */
  function NewTarget(parse: HostParser, text: seq<byte>, port: u16): Option<Target> {
    if text == [] || |text| > 253 || port == 0 then None
    else match parse(text)
      case None => None
      case Some(host) => Some(Target(host, port))
  }

  /** A target as `Target::new` makes it. */
  predicate Canonical(parse: HostParser, t: Target) {
    match t.host
    case V4(octets) => |octets| == 4 && t.port != 0
    case V6(octets) => |octets| == 16 && t.port != 0
    case Domain(text) => NewTarget(parse, text, t.port) == Some(t)
  }

  /** `encode_address`. */
  function EncodeAddress(parse: HostParser, t: Target): (r: Option<seq<byte>>)
    ensures r.Some? <==> Canonical(parse, t)
    ensures r.Some? ==> 4 <= |r.value| <= 257
  {
    if !Canonical(parse, t) then None
    else Some(PutBe16(t.port) + match t.host
              case V4(octets) => [1] + octets
              case V6(octets) => [3] + octets
              case Domain(text) => [2, |text|] + text)
  }

  /** `decode_address`: the target and how many bytes it took. */
  function DecodeAddress(parse: HostParser, bytes: seq<byte>): (r: Option<(Target, nat)>)
    ensures r.Some? ==> r.value.1 <= |bytes|
  {
    if |bytes| < 3 then None
    else
      var port := Be16(bytes[0], bytes[1]);
      if bytes[2] == 1 then
        if |bytes| < 7 || port == 0 then None else Some((Target(V4(bytes[3..7]), port), 7))
      else if bytes[2] == 3 then
        if |bytes| < 19 || port == 0 then None else Some((Target(V6(bytes[3..19]), port), 19))
      else if bytes[2] == 2 then
        if |bytes| < 4 || |bytes| < 4 + bytes[3] as int then None
        else
          var end := 4 + bytes[3] as int;
          match NewTarget(parse, bytes[4..end], port)
          case None => None
          case Some(t) => Some((t, end))
      else None
  }

  /** An encoded address is read back, whatever follows it. */
  lemma AddressReadBack(parse: HostParser, t: Target, rest: seq<byte>)
    requires Canonical(parse, t)
    ensures var code := EncodeAddress(parse, t).value;
            DecodeAddress(parse, code + rest) == Some((t, |code|))
  {
    var code := EncodeAddress(parse, t).value;
    var bytes := code + rest;
    assert bytes[..2] == PutBe16(t.port);
    match t.host
    case V4(octets) => assert bytes[3..7] == octets;
    case V6(octets) => assert bytes[3..19] == octets;
    case Domain(text) => assert bytes[4..4 + |text|] == text;
  }

  /** An address that is cut short is an error, never another address. */
  lemma TruncatedAddressFails(parse: HostParser, t: Target, n: nat)
    requires Canonical(parse, t) && n < |EncodeAddress(parse, t).value|
    ensures DecodeAddress(parse, EncodeAddress(parse, t).value[..n]) == None
  {
    var code := EncodeAddress(parse, t).value;
    if n >= 4 && t.host.Domain? { assert code[..n][3] == |t.host.text|; }
    if n >= 3 { assert code[..n][2] == code[2]; }
  }

  // ---------- frames ----------

  const NEW: byte := 1
  const KEEP: byte := 2
  const END: byte := 3
  const KEEPALIVE: byte := 4
  const DATA: byte := 1
  const UDP: byte := 2
  const MAX_METADATA := 512
  const MAX_PAYLOAD := 65507

  /** `packet`: a data frame of a session. */
  function Packet(parse: HostParser, id: u16, t: Target, payload: seq<byte>, first: bool,
                  globalId: Option<seq<byte>>): (r: Option<seq<byte>>)
    requires globalId.Some? ==> |globalId.value| == 8
    ensures r.Some? <==> |payload| <= MAX_PAYLOAD && Canonical(parse, t)
    ensures r.Some? ==> |r.value| >= 6 && r.value[4] == if first then NEW else KEEP
  {
    if |payload| > MAX_PAYLOAD then None
    else match EncodeAddress(parse, t)
      case None => None
      case Some(address) =>
        var metadata := PutBe16(id) + [if first then NEW else KEEP, DATA, UDP] + address
                        + if first && globalId.Some? then globalId.value else [];
        Some(PutBe16(|metadata|) + metadata + PutBe16(|payload|) + payload)
  }

  /** The parts of a frame at the places its two length fields give. */
  datatype Parts = Parts(id: u16, status: byte, data: byte, network: byte, address: seq<byte>, payload: seq<byte>)

  predicate Stated(frame: seq<byte>) {
    && |frame| >= 9 && Be16(frame[0], frame[1]) >= 5 && 4 + Be16(frame[0], frame[1]) <= |frame|
    && var n := 2 + Be16(frame[0], frame[1]); n + 2 + Be16(frame[n], frame[n + 1]) == |frame|
  }

  function PartsOf(frame: seq<byte>): Parts
    requires Stated(frame)
  {
    var n := 2 + Be16(frame[0], frame[1]);
    Parts(Be16(frame[2], frame[3]), frame[4], frame[5], frame[6], frame[7..n], frame[n + 2..])
  }

  /** What follows the two lengths, the identifier and the three bytes after it. */
  lemma PartsAre(id: u16, status: byte, address: seq<byte>, payload: seq<byte>)
    requires |address| < 65000 && |payload| <= MAX_PAYLOAD
    ensures var metadata := PutBe16(id) + [status, DATA, UDP] + address;
            var frame := PutBe16(|metadata|) + metadata + PutBe16(|payload|) + payload;
            Stated(frame) && PartsOf(frame) == Parts(id, status, DATA, UDP, address, payload)
  {
    hide PutBe16, Be16;
    var head, metadata := PutBe16(id), PutBe16(id) + [status, DATA, UDP] + address;
    var front, back := PutBe16(|metadata|), PutBe16(|payload|);
    var frame, n := front + metadata + back + payload, 2 + |metadata|;
    assert frame[0] == front[0] && frame[1] == front[1] && frame[2] == head[0] && frame[3] == head[1];
    assert frame[4] == status && frame[5] == DATA && frame[6] == UDP;
    assert frame[n] == back[0] && frame[n + 1] == back[1];
    assert frame[7..n] == address && frame[n + 2..] == payload;
  }

  /**
  Every frame states its lengths and carries its parts: the identifier, the status, the payload
  and the target, and behind the target the global identifier of a first frame.
  */
  lemma PacketReadsBack(parse: HostParser, id: u16, t: Target, payload: seq<byte>, first: bool,
                        globalId: Option<seq<byte>>)
    requires (globalId.Some? ==> |globalId.value| == 8) && |payload| <= MAX_PAYLOAD && Canonical(parse, t)
    ensures var frame := Packet(parse, id, t, payload, first, globalId).value;
            var rest := if first && globalId.Some? then globalId.value else [];
            && Stated(frame)
            && PartsOf(frame) == Parts(id, if first then NEW else KEEP, DATA, UDP, EncodeAddress(parse, t).value + rest, payload)
            && DecodeAddress(parse, PartsOf(frame).address) == Some((t, |PartsOf(frame).address| - |rest|))
  {
    var address := EncodeAddress(parse, t).value;
    var rest := if first && globalId.Some? then globalId.value else [];
    AddressReadBack(parse, t, rest);
    PartsAre(id, if first then NEW else KEEP, address + rest, payload);
    Associates(PutBe16(id) + [if first then NEW else KEEP, DATA, UDP], address, rest);
    hide PutBe16, Be16, DecodeAddress, EncodeAddress, Stated, PartsOf;
  }

  datatype Meta = Meta(id: u16, status: byte, data: bool, target: Option<Target>)

  /** `multiplexed_metadata`. The flags other than DATA and ERROR are invalid, and ERROR is refused. */
  function Metadata(parse: HostParser, bytes: seq<byte>): Option<Meta> {
    if |bytes| < 4 || |bytes| > MAX_METADATA || bytes[3] > 1 then None
    else
      var id, status, data := Be16(bytes[0], bytes[1]), bytes[2], bytes[3] == DATA;
      if status != KEEP && status != END && status != KEEPALIVE then None
      else if status == KEEPALIVE && data then None
      else if |bytes| == 4 then Some(Meta(id, status, data, None))
      else if status != KEEP || bytes[4] != UDP then None
      else match DecodeAddress(parse, bytes[5..])
        case None => None
        case Some((t, used)) => if used + 5 == |bytes| then Some(Meta(id, status, data, Some(t))) else None
  }

  /** What one frame from the peer asks for. */
  datatype Event =
    | Deliver(id: u16, target: Option<Target>, payload: seq<byte>)
    | Nothing(id: u16)              // a keepalive, or a frame without data
    | Ended(id: u16)

  /** One frame at the front of the stream, and its length; `None` ends the reader. */
  function ReadFrame(parse: HostParser, stream: seq<byte>): (r: Option<(Event, nat)>)
    ensures r.Some? ==> 0 < r.value.1 <= |stream|
  {
    if |stream| < 2 then None
    else
      var end := 2 + Be16(stream[0], stream[1]);
      if end < 6 || end > 2 + MAX_METADATA || |stream| < end then None
      else match Metadata(parse, stream[2..end])
        case None => None
        case Some(meta) =>
          if !meta.data then Some((if meta.status == END then Ended(meta.id) else Nothing(meta.id), end))
          else if |stream| < end + 2 then None
          else
            var length := Be16(stream[end], stream[end + 1]);
            if length > MAX_PAYLOAD || |stream| < end + 2 + length then None
            else
              var payload := stream[end + 2..end + 2 + length];
              Some((if meta.status == END then Ended(meta.id) else Deliver(meta.id, meta.target, payload),
                    end + 2 + length))
  }

  // ---------- routing ----------

  const QUEUE := 64

  /** What a session finds in its channel: a packet, or the notice that the peer has ended it. */
  datatype Item = Datagram(target: Target, payload: seq<byte>) | Over

  /** `queue` waits in the channel, `received` has been taken out of it by the session. */
  datatype Route = Route(target: Target, queue: seq<Item>, received: seq<Item>)

  type Routes = map<u16, Route>

  /** The route table, and the channels of the sessions that were taken out of it. */
  datatype Net = Net(routes: Routes, closed: Routes)
  {
    predicate Knows(id: u16) {
      id in routes || id in closed
    }

    /** The channel of a session, in the table or taken out. */
    function Channel(id: u16): Route
      requires Knows(id)
    {
      if id in routes then routes[id] else closed[id]
    }
  }

  /** `try_send`: a full queue drops the item. */
  function Pushed(route: Route, item: Item): Route {
    if |route.queue| < QUEUE then route.(queue := route.queue + [item]) else route
  }

  function Applied(net: Net, e: Event): Net {
    match e
    case Nothing(_) => net
    case Ended(id) =>
      if id !in net.routes then net
      else Net(net.routes - {id}, net.closed[id := Pushed(net.routes[id], Over)])
    case Deliver(id, target, payload) =>
      if id !in net.routes then net
      else
        var t := if target.Some? then target.value else net.routes[id].target;
        net.(routes := net.routes[id := Pushed(net.routes[id], Datagram(t, payload))])
  }

  function AppliedAll(net: Net, es: seq<Event>): Net
    decreases |es|
  {
    if es == [] then net else AppliedAll(Applied(net, es[0]), es[1..])
  }

  /** The routes when the reader stops: at the first frame that is malformed or cut short. */
  function Demultiplexed(parse: HostParser, net: Net, stream: seq<byte>): Net
    decreases |stream|
  {
    match ReadFrame(parse, stream)
    case None => net
    case Some((e, n)) => Demultiplexed(parse, Applied(net, e), stream[n..])
  }

  class Demultiplexer {
    var routes: Routes
    var closed: Routes

    constructor (routes: Routes)
      ensures this.routes == routes && closed == map[]
    {
      this.routes, closed := routes, map[];
    }

    /** The loop of `read_multiplexed` over everything the peer sends. */
    method ReadAll(parse: HostParser, input: seq<byte>)
      modifies this
      ensures Net(routes, closed) == Demultiplexed(parse, old(Net(routes, closed)), input)
    {
      var stream := input;
      while true
        invariant Demultiplexed(parse, old(Net(routes, closed)), input) == Demultiplexed(parse, Net(routes, closed), stream)
        decreases |stream|
      {
        var frame := ReadFrame(parse, stream);
        if frame.None? { return; }
        var (e, n) := frame.value;
        match e {
          case Nothing(_) =>
          case Ended(id) =>
            if id in routes {
              closed := closed[id := Pushed(routes[id], Over)];
              routes := routes - {id};
            }
          case Deliver(id, target, payload) =>
            if id in routes {
              var t := if target.Some? then target.value else routes[id].target;
              routes := routes[id := Pushed(routes[id], Datagram(t, payload))];
            }
        }
        stream := stream[n..];
      }
    }
  }

  // ---------- the reader undoes `packet` ----------

  predicate Sendable(parse: HostParser, e: Event) {
    match e
    case Deliver(_, target, payload) =>
      |payload| <= MAX_PAYLOAD && (target.Some? ==> Canonical(parse, target.value))
    case Nothing(_) => true
    case Ended(_) => true
  }

  /** The frame of an event: data frames with an address are those of `packet`. */
  function Encoded(parse: HostParser, e: Event): seq<byte>
    requires Sendable(parse, e)
  {
    match e
    case Nothing(id) => [0, 4] + PutBe16(id) + [KEEPALIVE, 0]
    case Ended(id) => [0, 4] + PutBe16(id) + [END, 0]
    case Deliver(id, None, payload) =>
      [0, 4] + PutBe16(id) + [KEEP, DATA] + PutBe16(|payload|) + payload
    case Deliver(id, Some(t), payload) => Packet(parse, id, t, payload, false, None).value
  }

  lemma FrameReadBack(parse: HostParser, e: Event, rest: seq<byte>)
    requires Sendable(parse, e)
    ensures ReadFrame(parse, Encoded(parse, e) + rest) == Some((e, |Encoded(parse, e)|))
  {
    match e
    case Nothing(id) => ControlReadBack(parse, id, KEEPALIVE, rest);
    case Ended(id) => ControlReadBack(parse, id, END, rest);
    case Deliver(id, target, payload) =>
      var metadata := PutBe16(id) + [KEEP, DATA]
                      + if target.Some? then [UDP] + EncodeAddress(parse, target.value).value else [];
      DataIsEncoded(parse, id, target, payload);
      hide Encoded, ReadFrame, Metadata, PutBe16;
      MetadataReadBack(parse, id, target);
      DataReadBack(parse, metadata, payload, rest);
  }

  /** A data frame is its metadata and its payload, each behind its length. */
  lemma DataIsEncoded(parse: HostParser, id: u16, target: Option<Target>, payload: seq<byte>)
    requires Sendable(parse, Deliver(id, target, payload))
    ensures var metadata := PutBe16(id) + [KEEP, DATA]
                            + if target.Some? then [UDP] + EncodeAddress(parse, target.value).value else [];
            && |metadata| < 65536
            && Encoded(parse, Deliver(id, target, payload)) == PutBe16(|metadata|) + metadata + PutBe16(|payload|) + payload
  {
  }

  lemma ControlReadBack(parse: HostParser, id: u16, status: byte, rest: seq<byte>)
    requires status == KEEPALIVE || status == END
    ensures ReadFrame(parse, [0, 4] + PutBe16(id) + [status, 0] + rest)
            == Some((if status == END then Ended(id) else Nothing(id), 6))
  {
    var stream := [0, 4] + PutBe16(id) + [status, 0] + rest;
    assert stream[2..6] == PutBe16(id) + [status, 0];
  }

  lemma MetadataReadBack(parse: HostParser, id: u16, target: Option<Target>)
    requires target.Some? ==> Canonical(parse, target.value)
    ensures var metadata := PutBe16(id) + [KEEP, DATA]
                            + if target.Some? then [UDP] + EncodeAddress(parse, target.value).value else [];
            4 <= |metadata| <= MAX_METADATA && Metadata(parse, metadata) == Some(Meta(id, KEEP, true, target))
  {
    if target.Some? {
      var address := EncodeAddress(parse, target.value).value;
      var metadata := PutBe16(id) + [KEEP, DATA] + ([UDP] + address);
      assert metadata[5..] == address == address + [];
      AddressReadBack(parse, target.value, []);
    }
  }

  lemma DataReadBack(parse: HostParser, metadata: seq<byte>, payload: seq<byte>, rest: seq<byte>)
    requires 4 <= |metadata| <= MAX_METADATA && |payload| <= MAX_PAYLOAD
    requires Metadata(parse, metadata).Some? && Metadata(parse, metadata).value.data
             && Metadata(parse, metadata).value.status == KEEP
    ensures var frame := PutBe16(|metadata|) + metadata + PutBe16(|payload|) + payload;
            var meta := Metadata(parse, metadata).value;
            ReadFrame(parse, frame + rest) == Some((Deliver(meta.id, meta.target, payload), |frame|))
  {
    hide PutBe16, Be16, Metadata;
    var front, back := PutBe16(|metadata|), PutBe16(|payload|);
    var stream, end := front + metadata + back + payload + rest, 2 + |metadata|;
    assert stream[0] == front[0] && stream[1] == front[1] && stream[end] == back[0] && stream[end + 1] == back[1];
    assert stream[2..end] == metadata && stream[end + 2..end + 2 + |payload|] == payload;
  }

  function EncodedAll(parse: HostParser, es: seq<Event>): seq<byte>
    requires forall e :: e in es ==> Sendable(parse, e)
  {
    if es == [] then [] else Encoded(parse, es[0]) + EncodedAll(parse, es[1..])
  }

  /** Reading a stream of frames is applying their events in order. */
  lemma {:induction false} StreamIsEvents(parse: HostParser, net: Net, es: seq<Event>)
    requires forall e :: e in es ==> Sendable(parse, e)
    ensures Demultiplexed(parse, net, EncodedAll(parse, es)) == AppliedAll(net, es)
    decreases |es|
  {
    if es != [] {
      var code, rest := Encoded(parse, es[0]), EncodedAll(parse, es[1..]);
      assert es[0] in es;
      FrameReadBack(parse, es[0], rest);
      assert (code + rest)[|code|..] == rest;
      StreamIsEvents(parse, Applied(net, es[0]), es[1..]);
    }
  }

  /** What a stream of events has for one session: its packets up to its end, and the end. */
  function ItemsFor(id: u16, default: Target, es: seq<Event>): seq<Item>
    decreases |es|
  {
    if es == [] then []
    else if es[0] == Ended(id) then [Over]
    else OwnItems(id, default, es[0]) + ItemsFor(id, default, es[1..])
  }

  function OwnItems(id: u16, default: Target, e: Event): seq<Item> {
    if e.Deliver? && e.id == id then [Datagram(if e.target.Some? then e.target.value else default, e.payload)] else []
  }

  function Fitting<T>(queue: seq<T>, more: seq<T>): seq<T> {
    if |queue| >= QUEUE then queue
    else queue + more[..Min(|more|, QUEUE - |queue|)]
  }

  lemma PushThenFit(route: Route, item: Item, rest: seq<Item>)
    ensures Fitting(Pushed(route, item).queue, rest) == Fitting(route.queue, [item] + rest)
  {
    var more, room := [item] + rest, QUEUE - |route.queue|;
    if room > 0 {
      var n := Min(|rest|, room - 1);
      assert more[..n + 1] == [item] + rest[..n];
      assert route.queue + [item] + rest[..n] == route.queue + more[..n + 1];
    }
  }

  /** A session that is not in the table stays out of it, and its channel stays as it is. */
  lemma {:induction false} ClosedStays(net: Net, es: seq<Event>, id: u16)
    requires id !in net.routes
    ensures id !in AppliedAll(net, es).routes
    ensures id in AppliedAll(net, es).closed <==> id in net.closed
    ensures id in net.closed ==> AppliedAll(net, es).closed[id] == net.closed[id]
    decreases |es|
  {
    if es != [] { ClosedStays(Applied(net, es[0]), es[1..], id); }
  }

  /** One event at the channel of a session in the table. */
  lemma EventAtChannel(net: Net, e: Event, id: u16)
    requires id in net.routes
    ensures id in Applied(net, e).routes <==> e != Ended(id)
    ensures Applied(net, e).Knows(id)
    ensures var route, after := net.routes[id], Applied(net, e).Channel(id);
            && after.target == route.target && after.received == route.received
            && after == (if e == Ended(id) then Pushed(route, Over)
                         else if OwnItems(id, route.target, e) == [] then route
                         else Pushed(route, OwnItems(id, route.target, e)[0]))
  {
  }

  /**
  For every session in the table and every stream: it stays there exactly until its end comes, and
  its channel gets exactly its own packets before that, in order, and then the notice, as many as
  the channel has room for.
  */
  lemma {:induction false} SessionsReceiveTheirs(net: Net, es: seq<Event>, id: u16)
    requires id in net.routes
    ensures id in AppliedAll(net, es).routes <==> Ended(id) !in es
    ensures AppliedAll(net, es).Knows(id)
    ensures AppliedAll(net, es).Channel(id).queue
            == Fitting(net.routes[id].queue, ItemsFor(id, net.routes[id].target, es))
    decreases |es|
  {
    var route := net.routes[id];
    if es == [] {
      assert Fitting(route.queue, []) == route.queue;
    } else {
      var e, rest, next := es[0], es[1..], Applied(net, es[0]);
      EventAtChannel(net, e, id);
      assert Ended(id) in es <==> e == Ended(id) || Ended(id) in rest;
      hide Applied, Pushed;
      if e == Ended(id) {
        ClosedStays(next, rest, id);
        PushThenFit(route, Over, []);
        assert [Over] + [] == [Over] && Fitting(Pushed(route, Over).queue, []) == Pushed(route, Over).queue;
      } else {
        SessionsReceiveTheirs(next, rest, id);
        var own, later := OwnItems(id, route.target, e), ItemsFor(id, route.target, rest);
        if own == [] {
          assert [] + later == later;
        } else {
          PushThenFit(route, own[0], later);
          assert own == [own[0]];
        }
      }
    }
  }

  /** From bytes to channels, ends included. */
  lemma ReaderUndoesPacket(parse: HostParser, net: Net, es: seq<Event>, id: u16)
    requires (forall e :: e in es ==> Sendable(parse, e)) && id in net.routes
    ensures var after := Demultiplexed(parse, net, EncodedAll(parse, es));
            && (id in after.routes <==> Ended(id) !in es) && after.Knows(id)
            && after.Channel(id).queue == Fitting(net.routes[id].queue, ItemsFor(id, net.routes[id].target, es))
  {
    StreamIsEvents(parse, net, es);
    SessionsReceiveTheirs(net, es, id);
  }

  /** A session that is not in the table is handed nothing, whatever the peer sends. */
  lemma StrangersReceiveNothing(parse: HostParser, net: Net, es: seq<Event>, id: u16)
    requires (forall e :: e in es ==> Sendable(parse, e)) && id !in net.routes
    ensures var after := Demultiplexed(parse, net, EncodedAll(parse, es));
            && id !in after.routes && (id in after.closed <==> id in net.closed)
            && (id in net.closed ==> after.closed[id] == net.closed[id])
  {
    StreamIsEvents(parse, net, es);
    ClosedStays(net, es, id);
  }

  // ---------- sessions that receive meanwhile ----------

  datatype Step = Frame(e: Event) | Receive(id: u16)

  function Taken(route: Route): Route {
    if route.queue == [] then route
    else route.(queue := route.queue[1..], received := route.received + [route.queue[0]])
  }

  function Stepped(net: Net, step: Step): Net {
    match step
    case Frame(e) => Applied(net, e)
    case Receive(id) =>
      if id in net.routes then net.(routes := net.routes[id := Taken(net.routes[id])])
      else if id in net.closed then net.(closed := net.closed[id := Taken(net.closed[id])])
      else net
  }

  function SteppedAll(net: Net, steps: seq<Step>): Net
    decreases |steps|
  {
    if steps == [] then net else SteppedAll(Stepped(net, steps[0]), steps[1..])
  }

  function EventsOf(steps: seq<Step>): seq<Event> {
    if steps == [] then []
    else (if steps[0].Frame? then [steps[0].e] else []) + EventsOf(steps[1..])
  }

  /** The channel of the session has room whenever something for it arrives. */
  predicate AlwaysRoom(net: Net, steps: seq<Step>, id: u16)
    decreases |steps|
  {
    steps != [] ==>
      && (steps[0].Frame? && id in net.routes && ForSession(steps[0].e, id) ==> |net.routes[id].queue| < QUEUE)
      && AlwaysRoom(Stepped(net, steps[0]), steps[1..], id)
  }

  predicate ForSession(e: Event, id: u16) {
    e == Ended(id) || (e.Deliver? && e.id == id)
  }

  lemma TakenInOrder(route: Route)
    ensures Taken(route).received + Taken(route).queue == route.received + route.queue && Taken(route).target == route.target
  {
    if route.queue != [] { assert route.queue == [route.queue[0]] + route.queue[1..]; }
  }

  /** After its end a session drains its channel, and nothing comes to it. */
  lemma {:induction false} DrainsInOrder(net: Net, steps: seq<Step>, id: u16)
    requires id !in net.routes && id in net.closed
    ensures id !in SteppedAll(net, steps).routes && id in SteppedAll(net, steps).closed
    ensures var before, after := net.closed[id], SteppedAll(net, steps).closed[id];
            after.received + after.queue == before.received + before.queue
    decreases |steps|
  {
    if steps != [] {
      TakenInOrder(net.closed[id]);
      hide Taken;
      DrainsInOrder(Stepped(net, steps[0]), steps[1..], id);
    }
  }

  /** One step at the channel of a session in the table. */
  lemma StepAtChannel(net: Net, step: Step, id: u16)
    requires id in net.routes
    requires step.Frame? && ForSession(step.e, id) ==> |net.routes[id].queue| < QUEUE
    ensures Stepped(net, step).Knows(id) && (id in Stepped(net, step).routes <==> step != Frame(Ended(id)))
    ensures var route, after := net.routes[id], Stepped(net, step).Channel(id);
            && after.target == route.target
            && after.received + after.queue
               == route.received + route.queue
                  + (if step.Receive? then [] else if step.e == Ended(id) then [Over] else OwnItems(id, route.target, step.e))
  {
    var route := net.routes[id];
    if step.Receive? {
      TakenInOrder(route);
      assert route.received + route.queue + [] == route.received + route.queue;
    } else {
      EventAtChannel(net, step.e, id);
      hide Applied;
      var own := OwnItems(id, route.target, step.e);
      if own == [] && step.e != Ended(id) {
        assert route.received + route.queue + [] == route.received + route.queue;
      }
    }
  }

  /**
  With receives in between, before the end and after it, nothing is lost or reordered while there
  is room: what was received and what still waits is what was there and what came up to the end.
  */
  lemma {:induction false} ReceivedInOrder(net: Net, steps: seq<Step>, id: u16)
    requires id in net.routes && AlwaysRoom(net, steps, id)
    ensures SteppedAll(net, steps).Knows(id)
    ensures var before, after := net.routes[id], SteppedAll(net, steps).Channel(id);
            after.received + after.queue == before.received + before.queue + ItemsFor(id, before.target, EventsOf(steps))
    decreases |steps|
  {
    var route := net.routes[id];
    if steps == [] {
      assert route.received + route.queue + [] == route.received + route.queue;
    } else {
      var step, next, rest := steps[0], Stepped(net, steps[0]), EventsOf(steps[1..]);
      StepAtChannel(net, step, id);
      hide Stepped;
      if step.Frame? { assert ([step.e] + rest)[1..] == rest; } else { assert [] + rest == rest; }
      if step == Frame(Ended(id)) {
        DrainsInOrder(next, steps[1..], id);
      } else {
        ReceivedInOrder(next, steps[1..], id);
      }
    }
  }
}
