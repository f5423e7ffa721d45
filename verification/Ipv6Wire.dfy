/** The IPv6 and fragment headers as `accept` reads them (sections 3, 4 and 4.5 of RFC 8200). */
module Ipv6Wire {
  import opened Prelude

  const HEADER := 40
  const FRAGMENT: byte := 44

  datatype Key = Key(source: seq<byte>, destination: seq<byte>, ident: seq<byte>)

  /** One fragment: `prefix` is everything before the fragment header. */
  datatype Fragment = Fragment(key: Key, prefix: seq<byte>, previous: nat, next: byte,
                               start: nat, more: bool, payload: seq<byte>)
  {
    function End(): nat {
      start + |payload|
    }
  }

  datatype Parsed =
    | Foreign                      // not IPv6: handed on untouched
    | Dropped
    | Whole(packet: seq<byte>)     // no fragment header: handed on, trailing bytes cut
    | Part(f: Fragment)

  /** What every fragment that `Parse` returns satisfies. */
  predicate WellFormed(f: Fragment) {
    HeaderFits(f.prefix, f.previous) && f.start < 65536
    && |f.prefix| + 8 + |f.payload| <= HEADER + 65535
  }

  datatype Walk = Walk(protocol: byte, offset: nat, previous: nat)

  predicate IsExtension(protocol: byte) {
    protocol == 0 || protocol == 43 || protocol == 60
  }

  function ExtensionSize(length: byte): nat {
    8 * length as int + 8
  }

  /** The chain of extension headers, at most `limit` of them. */
  function WalkFrom(bytes: seq<byte>, at: Walk, limit: nat): (r: Option<Walk>)
    ensures r.Some? && HEADER <= at.offset && InHeader(at) ==> at.offset <= r.value.offset && InHeader(r.value)
    decreases limit
  {
    if limit == 0 || !IsExtension(at.protocol) then Some(at)
    else if at.offset + 8 > |bytes| then None
    else
      var size := ExtensionSize(bytes[at.offset + 1]);
      if at.offset + size > |bytes| then None
      else WalkFrom(bytes, Walk(bytes[at.offset], at.offset + size, at.offset), limit - 1)
  }

  /** The byte that names the current protocol lies before the current header. */
  predicate InHeader(at: Walk) {
    at.previous < at.offset && at.previous != 4 && at.previous != 5
  }

  /** The same chain with the loop of the source. */
  method WalkHeaders(bytes: seq<byte>) returns (r: Option<Walk>)
    requires |bytes| >= HEADER
    ensures r == WalkFrom(bytes, Walk(bytes[6], HEADER, 6), 8)
  {
    var at, i := Walk(bytes[6], HEADER, 6), 0;
    while i < 8
      invariant 0 <= i <= 8
      invariant WalkFrom(bytes, Walk(bytes[6], HEADER, 6), 8) == WalkFrom(bytes, at, 8 - i)
    {
      if !IsExtension(at.protocol) { break; }
      if at.offset + 8 > |bytes| { return None; }
      var size := ExtensionSize(bytes[at.offset + 1]);
      if at.offset + size > |bytes| { return None; }
      at := Walk(bytes[at.offset], at.offset + size, at.offset);
      i := i + 1;
    }
    r := Some(at);
  }

  function PayloadLength(bytes: seq<byte>): u16
    requires |bytes| >= 6
  {
    Be16(bytes[4], bytes[5])
  }

  /** `new_checked` and the cut to the stated length. */
  function Checked(bytes: seq<byte>): (r: Option<seq<byte>>)
    ensures r.Some? ==> HEADER <= |r.value| <= HEADER + 65535
  {
    if |bytes| < HEADER || |bytes| < HEADER + PayloadLength(bytes) then None
    else Some(bytes[..HEADER + PayloadLength(bytes)])
  }

  function Parse(bytes: seq<byte>): (r: Parsed)
    ensures r.Part? ==> WellFormed(r.f)
  {
    if bytes == [] then Dropped
    else if bytes[0] / 16 != 6 then Foreign
    else match Checked(bytes)
      case None => Dropped
      case Some(packet) =>
        match WalkFrom(packet, Walk(packet[6], HEADER, 6), 8)
        case None => Dropped
        case Some(at) => if at.protocol != FRAGMENT then Whole(packet) else ParseFragment(packet, at)
  }

  function ParseFragment(packet: seq<byte>, at: Walk): (r: Parsed)
    requires HEADER <= |packet| <= HEADER + 65535 && HEADER <= at.offset && InHeader(at)
    ensures r.Part? ==> WellFormed(r.f)
  {
    var o := at.offset;
    if o + 8 > |packet| || packet[o] == FRAGMENT then Dropped
    else
      var bits := Be16(packet[o + 2], packet[o + 3]);
      Part(Fragment(Key(packet[8..24], packet[24..40], packet[o + 4..o + 8]),
                     packet[..o], at.previous, packet[o], bits / 8 * 8, bits % 2 == 1, packet[o + 8..]))
  }

  predicate Atomic(f: Fragment) {
    !f.more && f.start == 0
  }

  /** A stored header can be rebuilt: the byte that names the next protocol is inside it. */
  predicate HeaderFits(prefix: seq<byte>, previous: nat) {
    HEADER <= |prefix| && previous < |prefix| && previous != 4 && previous != 5
  }

  /**
  The packet without its fragment header: the header before it names the next protocol, and
  the payload length is set. The source casts the length to 16 bits.
  */
  function Rebuilt(prefix: seq<byte>, previous: nat, next: byte, payload: seq<byte>): (r: seq<byte>)
    requires HeaderFits(prefix, previous)
    ensures |r| == |prefix| + |payload|
  {
    var length := PutBe16((|prefix| - HEADER + |payload|) % 65536);
    prefix[previous := next][4 := length[0]][5 := length[1]] + payload
  }

  /** Within the packet limit the 16-bit cast loses nothing. */
  lemma RebuiltStatesItsLength(prefix: seq<byte>, previous: nat, next: byte, payload: seq<byte>)
    requires HeaderFits(prefix, previous) && |prefix| - HEADER + |payload| < 65536
    ensures PayloadLength(Rebuilt(prefix, previous, next, payload)) == |prefix| + |payload| - HEADER
  {
    hide PutBe16, Be16;
    var r, n := Rebuilt(prefix, previous, next, payload), |prefix| - HEADER + |payload|;
    Keeps16(n);
    assert r[4] == PutBe16(n)[0] && r[5] == PutBe16(n)[1];
  }
}
