/**
The frames that the reader of an XUDP multiplexer takes from its peer, given as a grammar of their
own: exactly its sentences are read, and each for what it says.
*/
module XudpFrames {
  import opened Prelude
  import opened XudpWire

  // ---------- addresses as they are written ----------

  datatype Address = Ip4(octets: seq<byte>, port: u16) | Ip6(octets: seq<byte>, port: u16) | Name(text: seq<byte>, port: u16)

  /** The target of a written address; a name may turn out to be an address, or to be none. */
  function TargetOf(parse: HostParser, a: Address): Option<Target> {
    match a
    case Ip4(octets, port) => if |octets| == 4 && port != 0 then Some(Target(V4(octets), port)) else None
    case Ip6(octets, port) => if |octets| == 16 && port != 0 then Some(Target(V6(octets), port)) else None
    case Name(text, port) => NewTarget(parse, text, port)
  }

  function AddressBytes(parse: HostParser, a: Address): (r: seq<byte>)
    requires TargetOf(parse, a).Some?
    ensures 4 <= |r| <= 257
  {
    PutBe16(a.port) + match a
                      case Ip4(octets, _) => [1] + octets
                      case Ip6(octets, _) => [3] + octets
                      case Name(text, _) => [2, |text|] + text
  }

  lemma AddressIsRead(parse: HostParser, a: Address, rest: seq<byte>)
    requires TargetOf(parse, a).Some?
    ensures DecodeAddress(parse, AddressBytes(parse, a) + rest) == Some((TargetOf(parse, a).value, |AddressBytes(parse, a)|))
  {
    var bytes := AddressBytes(parse, a) + rest;
    assert bytes[..2] == PutBe16(a.port);
    match a
    case Ip4(octets, _) => assert bytes[3..7] == octets;
    case Ip6(octets, _) => assert bytes[3..19] == octets;
    case Name(text, _) => assert bytes[4..4 + |text|] == text;
  }

  lemma AddressWasWritten(parse: HostParser, bytes: seq<byte>) returns (a: Address)
    requires DecodeAddress(parse, bytes).Some?
    ensures var (t, n) := DecodeAddress(parse, bytes).value;
            TargetOf(parse, a) == Some(t) && AddressBytes(parse, a) == bytes[..n]
  {
    var port := Be16(bytes[0], bytes[1]);
    PutUndoesBe(bytes[0], bytes[1]);
    if bytes[2] == 1 {
      a := Ip4(bytes[3..7], port);
      assert bytes[..7] == bytes[..2] + [1] + bytes[3..7];
    } else if bytes[2] == 3 {
      a := Ip6(bytes[3..19], port);
      assert bytes[..19] == bytes[..2] + [3] + bytes[3..19];
    } else {
      var end := 4 + bytes[3] as int;
      a := Name(bytes[4..end], port);
      assert bytes[..end] == bytes[..2] + [2, bytes[3]] + bytes[4..end];
    }
  }

  // ---------- frames ----------

  datatype Frame = Frame(id: u16, status: byte, address: Option<Address>, data: Option<seq<byte>>)

  /** A KEEP may name a target, a KEEPALIVE carries no data, and a peer opens no session. */
  predicate Lawful(parse: HostParser, f: Frame) {
    && (f.status == KEEP || f.status == END || f.status == KEEPALIVE)
    && (f.address.Some? ==> f.status == KEEP && TargetOf(parse, f.address.value).Some?)
    && (f.data.Some? ==> f.status != KEEPALIVE && |f.data.value| <= MAX_PAYLOAD)
  }

  function MetadataBytes(parse: HostParser, f: Frame): (r: seq<byte>)
    requires Lawful(parse, f)
    ensures 4 <= |r| <= MAX_METADATA
  {
    PutBe16(f.id) + [f.status, if f.data.Some? then DATA else 0]
    + match f.address case None => [] case Some(a) => [UDP] + AddressBytes(parse, a)
  }

  function DataBytes(data: Option<seq<byte>>): seq<byte>
    requires data.Some? ==> |data.value| <= MAX_PAYLOAD
  {
    match data case None => [] case Some(payload) => PutBe16(|payload|) + payload
  }

  function FrameBytes(parse: HostParser, f: Frame): (r: seq<byte>)
    requires Lawful(parse, f)
  {
    PutBe16(|MetadataBytes(parse, f)|) + MetadataBytes(parse, f) + DataBytes(f.data)
  }

  /** An END ends its session, data goes to it under the target of the frame, and nothing else happens. */
  function Meaning(parse: HostParser, f: Frame): Event
    requires Lawful(parse, f)
  {
    if f.status == END then Ended(f.id)
    else match f.data
      case None => Nothing(f.id)
      case Some(payload) => Deliver(f.id, if f.address.Some? then TargetOf(parse, f.address.value) else None, payload)
  }

  lemma MetadataIsRead(parse: HostParser, f: Frame)
    requires Lawful(parse, f)
    ensures Metadata(parse, MetadataBytes(parse, f))
            == Some(Meta(f.id, f.status, f.data.Some?, if f.address.Some? then TargetOf(parse, f.address.value) else None))
  {
    hide DecodeAddress, AddressBytes;
    var bytes := MetadataBytes(parse, f);
    assert bytes[..2] == PutBe16(f.id);
    if f.address.Some? {
      var code := AddressBytes(parse, f.address.value);
      AddressIsRead(parse, f.address.value, []);
      assert code + [] == code && bytes[5..] == code;
    }
  }

  lemma MetadataWasWritten(parse: HostParser, bytes: seq<byte>, data: Option<seq<byte>>) returns (f: Frame)
    requires Metadata(parse, bytes).Some? && Metadata(parse, bytes).value.data == data.Some?
    requires data.Some? ==> |data.value| <= MAX_PAYLOAD
    ensures Lawful(parse, f) && f.data == data && MetadataBytes(parse, f) == bytes
    ensures Metadata(parse, bytes).value
            == Meta(f.id, f.status, data.Some?, if f.address.Some? then TargetOf(parse, f.address.value) else None)
  {
    hide DecodeAddress, AddressBytes;
    PutUndoesBe(bytes[0], bytes[1]);
    f := Frame.Frame(Be16(bytes[0], bytes[1]), bytes[2], None, data);
    if |bytes| > 4 {
      var a := AddressWasWritten(parse, bytes[5..]);
      f := f.(address := Some(a));
      assert bytes[5..][..|bytes| - 5] == bytes[5..];
      assert bytes == bytes[..2] + bytes[2..4] + ([bytes[4]] + bytes[5..]);
    } else {
      assert bytes == bytes[..2] + bytes[2..4] + [];
    }
  }

  // ---------- the reader ----------

  /** Every lawful frame is read for what it says, whatever follows it. */
  lemma LawfulIsRead(parse: HostParser, f: Frame, rest: seq<byte>)
    requires Lawful(parse, f)
    ensures ReadFrame(parse, FrameBytes(parse, f) + rest) == Some((Meaning(parse, f), |FrameBytes(parse, f)|))
  {
    hide Metadata, MetadataBytes, PutBe16, Be16;
    var metadata, data := MetadataBytes(parse, f), DataBytes(f.data);
    var stream, end := FrameBytes(parse, f) + rest, 2 + |MetadataBytes(parse, f)|;
    MetadataIsRead(parse, f);
    assert stream[0] == PutBe16(|metadata|)[0] && stream[1] == PutBe16(|metadata|)[1];
    assert stream[2..end] == metadata;
    if f.data.Some? {
      var payload := f.data.value;
      assert stream[end] == PutBe16(|payload|)[0] && stream[end + 1] == PutBe16(|payload|)[1];
      assert stream[end + 2..end + 2 + |payload|] == payload;
    }
  }

  /** Nothing else is read: what the reader takes is a lawful frame, to the byte. */
  lemma ReadIsLawful(parse: HostParser, stream: seq<byte>) returns (f: Frame)
    requires ReadFrame(parse, stream).Some?
    ensures Lawful(parse, f)
    ensures ReadFrame(parse, stream) == Some((Meaning(parse, f), |FrameBytes(parse, f)|))
    ensures FrameBytes(parse, f) <= stream
  {
    hide Metadata, MetadataBytes, PutBe16, Be16, TargetOf;
    var end := 2 + Be16(stream[0], stream[1]);
    var meta := Metadata(parse, stream[2..end]).value;
    PutUndoesBe(stream[0], stream[1]);
    if !meta.data {
      f := MetadataWasWritten(parse, stream[2..end], None);
      assert stream[..end] == [stream[0], stream[1]] + stream[2..end] + [];
    } else {
      var length := Be16(stream[end], stream[end + 1]);
      var payload := stream[end + 2..end + 2 + length];
      PutUndoesBe(stream[end], stream[end + 1]);
      f := MetadataWasWritten(parse, stream[2..end], Some(payload));
      assert stream[..end + 2 + length] == [stream[0], stream[1]] + stream[2..end] + ([stream[end], stream[end + 1]] + payload);
    }
  }

  /** The reader goes on exactly if a lawful frame is in front of it. */
  lemma ReadsExactlyTheLawful(parse: HostParser, stream: seq<byte>)
    ensures ReadFrame(parse, stream).Some? <==> exists f :: Lawful(parse, f) && FrameBytes(parse, f) <= stream
  {
    hide ReadFrame, FrameBytes, Lawful, Meaning;
    if ReadFrame(parse, stream).Some? {
      var f := ReadIsLawful(parse, stream);
    }
    if exists f :: Lawful(parse, f) && FrameBytes(parse, f) <= stream {
      var f :| Lawful(parse, f) && FrameBytes(parse, f) <= stream;
      var n := |FrameBytes(parse, f)|;
      LawfulIsRead(parse, f, stream[n..]);
      assert FrameBytes(parse, f) + stream[n..] == stream;
    }
  }
}
