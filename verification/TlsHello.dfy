/**
The sniffer that finds a ServerHello in a byte stream (sections 5.1 and 4.1.3 of RFC 8446).

The code consumes its input in record-sized steps. The meaning is given twice, without chunks:
`FeedAll` takes one byte at a time, and `OneShot` reads the whole stream at once. All three agree.
*/
module TlsHello {
  import opened Prelude

  const RECORD_LIMIT := 18437
  const HANDSHAKE_LIMIT := 18432

  datatype Hello = Hello(record: seq<byte>, handshake: seq<byte>, done: bool)

  type Verdict = Option<bool>

  const FRESH := Hello([], [], false)

  /** Bytes of the current record, header included, as far as the header tells. */
  function Need(record: seq<byte>): nat {
    if |record| < 5 then 5 else 5 + Be16(record[3], record[4])
  }

  /** What holds between two calls: an unfinished record that still looks like a handshake. */
  predicate Open(h: Hello) {
    !h.done ==> |h.record| < Need(h.record) && (|h.record| >= 5 ==> h.record[0] == 22 && h.record[1] == 3)
  }

  // ---------- the handshake ----------

  datatype Outcome = More | Stop(verdict: Verdict)

  function Be24(a: byte, b: byte, c: byte): nat {
    (a * 256 + b) * 256 + c
  }

  /** The joined bodies of the records so far. */
  function Judge(handshake: seq<byte>): Outcome {
    if |handshake| > HANDSHAKE_LIMIT then Stop(None)
    else if |handshake| < 4 then More
    else if handshake[0] != 2 then Stop(None)
    else
      var length := Be24(handshake[1], handshake[2], handshake[3]);
      if length > 18428 then Stop(None)
      else if |handshake| >= length + 4 then Stop(ServerHello(handshake[4..length + 4]))
      else More
  }

  // ---------- one byte at a time ----------

  function Feed(h: Hello, b: byte): (r: (Hello, Verdict))
    requires Open(h)
    ensures Open(r.0)
  {
    if h.done then (h, None)
    else if Need(h.record) > RECORD_LIMIT then (h.(done := true), None)
    else
      var record := h.record + [b];
      if |record| < 5 then (h.(record := record), None)
      else if record[0] != 22 || record[1] != 3 then (h.(record := record, done := true), None)
      else if |record| < Need(record) then (h.(record := record), None)
      else
        var handshake := h.handshake + record[5..];
        match Judge(handshake)
        case More => (Hello([], handshake, false), None)
        case Stop(verdict) => (Hello([], handshake, true), verdict)
  }

  function FeedAll(h: Hello, bytes: seq<byte>): (r: (Hello, Verdict))
    requires Open(h)
    ensures Open(r.0)
    decreases |bytes|
  {
    if bytes == [] then (h, None)
    else
      var (h1, first) := Feed(h, bytes[0]);
      var (h2, rest) := FeedAll(h1, bytes[1..]);
      (h2, if first.Some? then first else rest)
  }

  lemma {:induction false} DoneIsSilent(h: Hello, bytes: seq<byte>)
    requires h.done
    ensures FeedAll(h, bytes) == (h, None)
  {
    if bytes != [] { DoneIsSilent(h, bytes[1..]); }
  }

  /** A verdict ends the observation, so there is at most one. */
  lemma {:induction false} VerdictEnds(h: Hello, bytes: seq<byte>)
    requires Open(h)
    ensures FeedAll(h, bytes).1.Some? ==> FeedAll(h, bytes).0.done
    decreases |bytes|
  {
    hide Judge;
    if bytes != [] {
      var h1 := Feed(h, bytes[0]).0;
      if Feed(h, bytes[0]).1.Some? { DoneIsSilent(h1, bytes[1..]); }
      VerdictEnds(h1, bytes[1..]);
    }
  }

  /** Observing a and then b is observing a + b. */
  lemma {:induction false} FeedAllSplits(h: Hello, a: seq<byte>, b: seq<byte>)
    requires Open(h)
    ensures FeedAll(h, a + b).0 == FeedAll(FeedAll(h, a).0, b).0
    ensures FeedAll(h, a + b).1
            == (if FeedAll(h, a).1.Some? then FeedAll(h, a).1 else FeedAll(FeedAll(h, a).0, b).1)
    decreases |a|
  {
    hide Feed;
    if a == [] {
      assert a + b == b;
    } else {
      assert (a + b)[1..] == a[1..] + b;
      FeedAllSplits(Feed(h, a[0]).0, a[1..], b);
    }
  }

  /** Bytes that do not complete the record are only stored. */
  lemma {:induction false} FeedQuietly(h: Hello, bytes: seq<byte>)
    requires Open(h) && !h.done && Need(h.record) <= RECORD_LIMIT
    requires |h.record| + |bytes| < Need(h.record)
    ensures FeedAll(h, bytes) == (h.(record := h.record + bytes), None)
    decreases |bytes|
  {
    if bytes == [] {
      assert h.record + bytes == h.record;
    } else {
      var h1 := h.(record := h.record + [bytes[0]]);
      FeedQuietly(h1, bytes[1..]);
      assert h.record + bytes == h1.record + bytes[1..];
    }
  }

  // ---------- the code ----------

  class Sniffer {
    var record: seq<byte>
    var handshake: seq<byte>
    var done: bool

    function State(): Hello
      reads this
    {
      Hello(record, handshake, done)
    }

    constructor ()
      ensures State() == FRESH
    {
      record, handshake, done := [], [], false;
    }

    method Observe(input: seq<byte>) returns (verdict: Verdict)
      requires Open(State())
      modifies this
      ensures (State(), verdict) == FeedAll(old(State()), input)
    {
      hide Judge, FeedAll;
      var bytes := input;
      while bytes != [] && !done
        invariant Open(State())
        invariant FeedAll(old(State()), input) == FeedAll(State(), bytes)
        decreases |bytes|
      {
        var need := if |record| < 5 then 5 else 5 + Be16(record[3], record[4]);
        if need > RECORD_LIMIT {
          ghost var before := State();
          done := true;
          OversizedRecord(before, bytes);
          return None;
        }
        var count := Min(|bytes|, need - |record|);
        ghost var before := State();
        ghost var chunk, rest := bytes[..count], bytes[count..];
        ChunkAsBytes(before, chunk);
        assert bytes == chunk + rest;
        FeedAllSplits(before, chunk, rest);
        record := record + bytes[..count];
        bytes := bytes[count..];
        if |record| < 5 { continue; }
        if record[0] != 22 || record[1] != 3 {
          done := true;
          DoneIsSilent(State(), rest);
          return None;
        }
        need := 5 + Be16(record[3], record[4]);
        if |record| < need { continue; }
        handshake := handshake + record[5..];
        record := [];
        var outcome := Judge(handshake);
        if outcome.Stop? {
          done := true;
          DoneIsSilent(State(), rest);
          return outcome.verdict;
        }
      }
      if done { DoneIsSilent(State(), bytes); } else { NothingToFeed(State()); }
      verdict := None;
    }
  }

  lemma NothingToFeed(h: Hello)
    requires Open(h)
    ensures FeedAll(h, []) == (h, None)
  {
  }

  /** A record that states too much ends the observation with its next byte. */
  lemma OversizedRecord(h: Hello, bytes: seq<byte>)
    requires Open(h) && !h.done && Need(h.record) > RECORD_LIMIT && bytes != []
    ensures FeedAll(h, bytes) == (h.(done := true), None)
  {
    DoneIsSilent(h.(done := true), bytes[1..]);
  }

  /** A chunk within the record: all bytes but the last are only stored. */
  lemma ChunkAsBytes(h: Hello, chunk: seq<byte>)
    requires Open(h) && !h.done && Need(h.record) <= RECORD_LIMIT
    requires chunk != [] && |h.record| + |chunk| <= Need(h.record)
    ensures var n := |chunk| - 1;
            FeedAll(h, chunk) == Feed(h.(record := h.record + chunk[..n]), chunk[n])
            && h.record + chunk[..n] + [chunk[n]] == h.record + chunk
  {
    hide Feed;
    var n := |chunk| - 1;
    FeedQuietly(h, chunk[..n]);
    FeedAllSplits(h, chunk[..n], chunk[n..]);
    assert chunk == chunk[..n] + chunk[n..];
    var h1 := h.(record := h.record + chunk[..n]);
    assert FeedAll(Feed(h1, chunk[n]).0, chunk[n..][1..]) == (Feed(h1, chunk[n]).0, None);
  }

  // ---------- the stream at once ----------

  /** Join the bodies of complete handshake records, and judge after each. */
  function OneShot(handshake: seq<byte>, stream: seq<byte>): Verdict
    decreases |stream|
  {
    if |stream| < 5 || stream[0] != 22 || stream[1] != 3 then None
    else
      var end := 5 + Be16(stream[3], stream[4]);
      if end > RECORD_LIMIT || |stream| < end then None
      else match Judge(handshake + stream[5..end])
        case Stop(verdict) => verdict
        case More => OneShot(handshake + stream[5..end], stream[end..])
  }

  lemma {:induction false} BytesAgreeWithOneShot(handshake: seq<byte>, stream: seq<byte>)
    ensures FeedAll(Hello([], handshake, false), stream).1 == OneShot(handshake, stream)
    decreases |stream|
  {
    hide Judge, FeedAll, Feed;
    var h := Hello([], handshake, false);
    if |stream| < 5 {
      FeedQuietly(h, stream);
    } else {
      var header, rest := stream[..5], stream[5..];
      HeaderAsBytes(handshake, header);
      FeedAllSplits(h, header, rest);
      assert stream == header + rest;
      var end := 5 + Be16(stream[3], stream[4]);
      if header[0] != 22 || header[1] != 3 {
        DoneIsSilent(FeedAll(h, header).0, rest);
      } else if end > RECORD_LIMIT {
        if rest != [] {
          OversizedRecord(Hello(header, handshake, false), rest);
        } else {
          NothingToFeed(Hello(header, handshake, false));
        }
      } else if |stream| < end {
        FeedQuietly(Hello(header, handshake, false), rest);
      } else {
        RecordAsBytes(handshake, stream[..end]);
        FeedAllSplits(h, stream[..end], stream[end..]);
        assert stream == stream[..end] + stream[end..];
        assert stream[..end][5..] == stream[5..end];
        if Judge(handshake + stream[5..end]).Stop? {
          DoneIsSilent(FeedAll(h, stream[..end]).0, stream[end..]);
        } else {
          BytesAgreeWithOneShot(handshake + stream[5..end], stream[end..]);
        }
      }
    }
  }

  lemma HeaderAsBytes(handshake: seq<byte>, header: seq<byte>)
    requires |header| == 5
    ensures header[0] != 22 || header[1] != 3 ==>
              FeedAll(Hello([], handshake, false), header) == (Hello(header, handshake, true), None)
    ensures header[0] == 22 && header[1] == 3 && Be16(header[3], header[4]) > 0 ==>
              FeedAll(Hello([], handshake, false), header) == (Hello(header, handshake, false), None)
  {
    hide Judge;
    ChunkAsBytes(Hello([], handshake, false), header);
    assert [] + header == header;
  }

  /** A complete record, header included, adds its body to the handshake. */
  lemma RecordAsBytes(handshake: seq<byte>, record: seq<byte>)
    requires |record| >= 5 && record[0] == 22 && record[1] == 3
    requires |record| == 5 + Be16(record[3], record[4]) <= RECORD_LIMIT
    ensures FeedAll(Hello([], handshake, false), record)
            == match Judge(handshake + record[5..])
               case More => (Hello([], handshake + record[5..], false), None)
               case Stop(verdict) => (Hello([], handshake + record[5..], true), verdict)
  {
    hide Judge;
    var h := Hello([], handshake, false);
    if |record| == 5 {
      ChunkAsBytes(h, record);
      assert [] + record == record;
    } else {
      var header, body := record[..5], record[5..];
      HeaderAsBytes(handshake, header);
      FeedAllSplits(h, header, body);
      assert record == header + body;
      ChunkAsBytes(Hello(header, handshake, false), body);
    }
  }

  // ---------- any chunking ----------

  /** The verdicts of a sequence of calls. */
  function Verdicts(h: Hello, chunks: seq<seq<byte>>): (r: seq<Verdict>)
    requires Open(h)
    ensures |r| == |chunks|
    decreases |chunks|
  {
    if chunks == [] then []
    else
      var (h1, v) := FeedAll(h, chunks[0]);
      [v] + Verdicts(h1, chunks[1..])
  }

  function Concat(chunks: seq<seq<byte>>): seq<byte> {
    if chunks == [] then [] else chunks[0] + Concat(chunks[1..])
  }

  function FirstVerdict(vs: seq<Verdict>): Verdict {
    if vs == [] then None else if vs[0].Some? then vs[0] else FirstVerdict(vs[1..])
  }

  lemma {:induction false} ChunksAgree(h: Hello, chunks: seq<seq<byte>>)
    requires Open(h)
    ensures FirstVerdict(Verdicts(h, chunks)) == FeedAll(h, Concat(chunks)).1
    ensures forall i, j :: 0 <= i < j < |chunks| && Verdicts(h, chunks)[i].Some? ==> Verdicts(h, chunks)[j].None?
    decreases |chunks|
  {
    hide Feed;
    if chunks != [] {
      var h1, rest := FeedAll(h, chunks[0]).0, Verdicts(FeedAll(h, chunks[0]).0, chunks[1..]);
      FeedAllSplits(h, chunks[0], Concat(chunks[1..]));
      ChunksAgree(h1, chunks[1..]);
      VerdictEnds(h, chunks[0]);
      if h1.done { DoneVerdicts(h1, chunks[1..]); }
      assert forall i :: 1 <= i < |chunks| ==> Verdicts(h, chunks)[i] == rest[i - 1];
    }
  }

  lemma {:induction false} DoneVerdicts(h: Hello, chunks: seq<seq<byte>>)
    requires h.done
    ensures forall i :: 0 <= i < |chunks| ==> Verdicts(h, chunks)[i].None?
    decreases |chunks|
  {
    if chunks != [] {
      DoneIsSilent(h, chunks[0]);
      DoneVerdicts(h, chunks[1..]);
    }
  }

  /**
  However a stream is cut into calls, there is at most one verdict, and it is the verdict of
  reading the stream at once.
  */
  lemma ChunkingDoesNotMatter(chunks: seq<seq<byte>>)
    ensures FirstVerdict(Verdicts(FRESH, chunks)) == OneShot([], Concat(chunks))
    ensures forall i, j :: 0 <= i < j < |chunks| && Verdicts(FRESH, chunks)[i].Some? ==> Verdicts(FRESH, chunks)[j].None?
  {
    ChunksAgree(FRESH, chunks);
    BytesAgreeWithOneShot([], Concat(chunks));
  }

  // ---------- the ServerHello ----------

  const SUPPORTED_VERSIONS: u16 := 43

  /** The extensions from `cursor` to the end; `None` is a malformed list. */
  function Extensions(bytes: seq<byte>, cursor: nat, version: Option<bool>): Option<Option<bool>>
    requires cursor <= |bytes|
    decreases |bytes| - cursor
  {
    if cursor == |bytes| then Some(version)
    else if cursor + 4 > |bytes| then None
    else
      var kind, n := Be16(bytes[cursor], bytes[cursor + 1]), Be16(bytes[cursor + 2], bytes[cursor + 3]);
      var at := cursor + 4;
      if at + n > |bytes| then None
      else if kind != SUPPORTED_VERSIONS then Extensions(bytes, at + n, version)
      else if version.Some? || n != 2 then None
      else Extensions(bytes, at + n, Some(bytes[at..at + n] == [3, 4]))
  }

  predicate Tls13Suite(suite: u16) {
    0x1301 <= suite <= 0x1304
  }

  function ServerHello(bytes: seq<byte>): Verdict {
    if |bytes| < 38 || bytes[..2] != [3, 3] || bytes[34] > 32 then None
    else
      var offset := 35 + bytes[34] as int;
      if offset + 3 > |bytes| || bytes[offset + 2] != 0 then None
      else if offset + 3 == |bytes| then Some(false)
      else if offset + 5 > |bytes| then None
      else if offset + 5 + Be16(bytes[offset + 3], bytes[offset + 4]) != |bytes| then None
      else match Extensions(bytes, offset + 5, None)
        case None => None
        case Some(version) => Some(version == Some(true) && Tls13Suite(Be16(bytes[offset], bytes[offset + 1])))
  }

  /** The extension loop of the source. */
  method ReadExtensions(bytes: seq<byte>, start: nat) returns (r: Option<Option<bool>>)
    requires start <= |bytes|
    ensures r == Extensions(bytes, start, None)
  {
    var cursor, version := start, None;
    while cursor < |bytes|
      invariant start <= cursor <= |bytes|
      invariant Extensions(bytes, start, None) == Extensions(bytes, cursor, version)
    {
      if cursor + 4 > |bytes| { return None; }
      var kind, n := Be16(bytes[cursor], bytes[cursor + 1]), Be16(bytes[cursor + 2], bytes[cursor + 3]);
      cursor := cursor + 4;
      if cursor + n > |bytes| { return None; }
      if kind == SUPPORTED_VERSIONS {
        if version.Some? || n != 2 { return None; }
        version := Some(bytes[cursor..cursor + n] == [3, 4]);
      }
      cursor := cursor + n;
    }
    r := Some(version);
  }

  // ---------- an encoded ServerHello is read back ----------

  datatype Extension = Extension(kind: u16, data: seq<byte>)

  function Head(e: Extension): (r: seq<byte>)
    requires |e.data| < 65536
    ensures |r| == 4 + |e.data|
  {
    PutBe16(e.kind) + PutBe16(|e.data|) + e.data
  }

  function Encoded(es: seq<Extension>): seq<byte>
    requires forall e :: e in es ==> |e.data| < 65536
  {
    if es == [] then []
    else Head(es[0]) + Encoded(es[1..])
  }

  /** The version extensions of a list. */
  function Versions(es: seq<Extension>): seq<seq<byte>> {
    if es == [] then []
    else (if es[0].kind == SUPPORTED_VERSIONS then [es[0].data] else []) + Versions(es[1..])
  }

  /** At most one version extension, and it names one version. */
  predicate OneVersion(versions: seq<seq<byte>>) {
    |versions| == 0 || (|versions| == 1 && |versions[0]| == 2)
  }

  /** Where the parts of an encoded extension stand. */
  lemma ExtensionStands(prefix: seq<byte>, e: Extension, rest: seq<byte>)
    requires |e.data| < 65536
    ensures var bytes, at := prefix + Head(e) + rest, |prefix|;
            && Be16(bytes[at], bytes[at + 1]) == e.kind
            && Be16(bytes[at + 2], bytes[at + 3]) == |e.data|
            && bytes[at + 4..at + 4 + |e.data|] == e.data
  {
    hide PutBe16, Be16;
    var k, n := PutBe16(e.kind), PutBe16(|e.data|);
    var bytes, at := prefix + Head(e) + rest, |prefix|;
    assert bytes[at] == k[0] && bytes[at + 1] == k[1] && bytes[at + 2] == n[0] && bytes[at + 3] == n[1];
  }

  /** One extension at the cursor. */
  lemma ExtensionIsRead(bytes: seq<byte>, at: nat, e: Extension, version: Option<bool>)
    requires at + 4 + |e.data| <= |bytes| && |e.data| < 65536
    requires Be16(bytes[at], bytes[at + 1]) == e.kind && Be16(bytes[at + 2], bytes[at + 3]) == |e.data|
    requires bytes[at + 4..at + 4 + |e.data|] == e.data
    ensures Extensions(bytes, at, version)
            == if e.kind != SUPPORTED_VERSIONS then Extensions(bytes, at + 4 + |e.data|, version)
               else if version.Some? || |e.data| != 2 then None
               else Extensions(bytes, at + 4 + |e.data|, Some(e.data == [3, 4]))
  {
    hide Be16;
  }

  /** What a list of version extensions means behind what was found before. */
  function Judged(versions: seq<seq<byte>>, version: Option<bool>): Option<Option<bool>> {
    if versions == [] then Some(version)
    else if version.Some? || !OneVersion(versions) then None
    else Some(Some(versions[0] == [3, 4]))
  }

  lemma JudgedNext(es: seq<Extension>, version: Option<bool>)
    requires es != []
    ensures var e := es[0];
            Judged(Versions(es), version)
            == if e.kind != SUPPORTED_VERSIONS then Judged(Versions(es[1..]), version)
               else if version.Some? || |e.data| != 2 then None
               else Judged(Versions(es[1..]), Some(e.data == [3, 4]))
  {
    var rest := Versions(es[1..]);
    assert [] + rest == rest;
  }

  /** The first extension is read and the rest is left. */
  lemma FirstIsRead(prefix: seq<byte>, e: Extension, rest: seq<byte>, version: Option<bool>)
    requires |e.data| < 65536
    ensures var bytes := prefix + Head(e) + rest;
            Extensions(bytes, |prefix|, version)
            == if e.kind != SUPPORTED_VERSIONS then Extensions(bytes, |prefix + Head(e)|, version)
               else if version.Some? || |e.data| != 2 then None
               else Extensions(bytes, |prefix + Head(e)|, Some(e.data == [3, 4]))
  {
    ExtensionStands(prefix, e, rest);
    hide Extensions, Be16, Head;
    ExtensionIsRead(prefix + Head(e) + rest, |prefix|, e, version);
  }

  lemma EncodedFirst(prefix: seq<byte>, es: seq<Extension>)
    requires es != [] && forall e :: e in es ==> |e.data| < 65536
    ensures prefix + Encoded(es) == prefix + Head(es[0]) + Encoded(es[1..])
  {
    assert Encoded(es) == Head(es[0]) + Encoded(es[1..]);
    hide Head, Encoded;
    Associates(prefix, Head(es[0]), Encoded(es[1..]));
  }

  lemma {:induction false} ExtensionsReadBack(prefix: seq<byte>, es: seq<Extension>, version: Option<bool>)
    requires forall e :: e in es ==> |e.data| < 65536
    ensures Extensions(prefix + Encoded(es), |prefix|, version) == Judged(Versions(es), version)
    decreases |es|
  {
    if es == [] {
      assert prefix + Encoded(es) == prefix;
    } else {
      hide Extensions, Judged, Versions, Head, Encoded, Be16;
      var e := es[0];
      JudgedNext(es, version);
      EncodedFirst(prefix, es);
      FirstIsRead(prefix, e, Encoded(es[1..]), version);
      ExtensionsReadBack(prefix + Head(e), es[1..], if e.kind == SUPPORTED_VERSIONS then Some(e.data == [3, 4]) else version);
    }
  }

  /**
  Every well-formed ServerHello is judged by its meaning: it offers TLS 1.3 exactly if its only
  version extension says so and the suite is one of TLS 1.3; two version extensions, or one of
  another length, are malformed.
  */
  lemma ServerHelloReadBack(random: seq<byte>, session: seq<byte>, suite: u16, es: seq<Extension>)
    requires |random| == 32 && |session| <= 32
    requires forall e :: e in es ==> |e.data| < 65536
    requires |Encoded(es)| < 65536
    ensures ServerHello([3, 3] + random + [|session|] + session + PutBe16(suite) + [0]
                        + PutBe16(|Encoded(es)|) + Encoded(es))
            == (if OneVersion(Versions(es)) then Some(Versions(es) == [[3, 4]] && Tls13Suite(suite)) else None)
  {
    var head := [3, 3] + random + [|session|] + session + PutBe16(suite) + [0] + PutBe16(|Encoded(es)|);
    var o := 35 + |session|;
    assert |head| == o + 5 && head[34] == |session| && head[..2] == [3, 3];
    assert head[o..o + 2] == PutBe16(suite) && head[o + 2] == 0 && head[o + 3..o + 5] == PutBe16(|Encoded(es)|);
    var bytes := head + Encoded(es);
    assert forall i :: 0 <= i < |head| ==> bytes[i] == head[i];
    assert bytes[..2] == head[..2];
    ExtensionsReadBack(head, es, None);
  }

  // ---------- a message cut into records ----------

  datatype Record = Record(minor: byte, body: seq<byte>)

  function PutBe24(n: nat): (b: seq<byte>)
    requires n < 0x100_0000
    ensures |b| == 3
  {
    [n / 0x1_0000, n / 256 % 256, n % 256]
  }

  lemma Be24ReadBack(n: nat)
    requires n < 0x100_0000
    ensures Be24(PutBe24(n)[0], PutBe24(n)[1], PutBe24(n)[2]) == n
  {
    var high := n / 256;
    assert n == 256 * high + n % 256;
    assert high == 256 * (high / 256) + high % 256;
    assert n / 0x1_0000 == high / 256;
  }

  /** A handshake message: its type, its length and its body. */
  function Message(kind: byte, body: seq<byte>): (m: seq<byte>)
    requires |body| < 0x100_0000
    ensures |m| == 4 + |body|
  {
    [kind] + PutBe24(|body|) + body
  }

  function RecordBytes(r: Record): (b: seq<byte>)
    requires |r.body| <= HANDSHAKE_LIMIT
    ensures |b| == 5 + |r.body|
  {
    [22, 3, r.minor] + PutBe16(|r.body|) + r.body
  }

  function Bodies(rs: seq<Record>): seq<byte> {
    if rs == [] then [] else rs[0].body + Bodies(rs[1..])
  }

  lemma {:induction false} BodiesAreLong(rs: seq<Record>, r: Record)
    requires r in rs
    ensures |r.body| <= |Bodies(rs)|
    decreases |rs|
  {
    if r != rs[0] { BodiesAreLong(rs[1..], r); }
  }

  function Records(rs: seq<Record>): seq<byte>
    requires forall r :: r in rs ==> |r.body| <= HANDSHAKE_LIMIT
  {
    if rs == [] then [] else RecordBytes(rs[0]) + Records(rs[1..])
  }

  /** One record at the front of the stream. */
  lemma RecordIsRead(handshake: seq<byte>, r: Record, rest: seq<byte>)
    requires |r.body| <= HANDSHAKE_LIMIT
    ensures OneShot(handshake, RecordBytes(r) + rest)
            == match Judge(handshake + r.body)
               case Stop(verdict) => verdict
               case More => OneShot(handshake + r.body, rest)
  {
    hide Judge, PutBe16, Be16;
    var size := PutBe16(|r.body|);
    var stream, end := RecordBytes(r) + rest, 5 + |r.body|;
    assert stream[0] == 22 && stream[1] == 3 && stream[3] == size[0] && stream[4] == size[1];
    assert stream[5..end] == r.body && stream[end..] == rest;
  }

  /** A ServerHello, or the part of it that is there, with anything behind it. */
  lemma MessageIsJudged(body: seq<byte>, joined: seq<byte>)
    requires |body| < 0x100_0000 && |joined| <= HANDSHAKE_LIMIT
    requires joined <= Message(2, body) || Message(2, body) <= joined
    requires 4 + |body| <= HANDSHAKE_LIMIT
    ensures Judge(joined) == if |joined| < 4 + |body| then More else Stop(ServerHello(body))
  {
    hide ServerHello;
    var m := Message(2, body);
    Be24ReadBack(|body|);
    if |joined| >= 4 {
      assert joined[0] == m[0] && joined[1] == m[1] && joined[2] == m[2] && joined[3] == m[3];
      assert m[1] == PutBe24(|body|)[0] && m[2] == PutBe24(|body|)[1] && m[3] == PutBe24(|body|)[2];
      if |joined| >= |m| { assert joined[4..|m|] == m[4..] == body; }
    }
  }

  /** However the message is cut into records and whatever follows, it is judged by its body. */
  lemma {:induction false} RecordsAreJudged(handshake: seq<byte>, rs: seq<Record>, rest: seq<byte>, body: seq<byte>)
    requires |body| < 0x100_0000 && |handshake + Bodies(rs)| <= HANDSHAKE_LIMIT
    requires Message(2, body) <= handshake + Bodies(rs) && |handshake| < 4 + |body|
    ensures forall r :: r in rs ==> |r.body| <= HANDSHAKE_LIMIT
    ensures OneShot(handshake, Records(rs) + rest) == ServerHello(body)
    decreases |rs|
  {
    forall r | r in rs ensures |r.body| <= HANDSHAKE_LIMIT { BodiesAreLong(rs, r); }
    hide OneShot, ServerHello, Judge, RecordBytes, Message;
    assert rs != [];
    var joined, later := handshake + rs[0].body, Bodies(rs[1..]);
    Associates(handshake, rs[0].body, later);
    MessageIsJudged(body, joined);
    Associates(RecordBytes(rs[0]), Records(rs[1..]), rest);
    RecordIsRead(handshake, rs[0], Records(rs[1..]) + rest);
    if |joined| < 4 + |body| { RecordsAreJudged(joined, rs[1..], rest, body); }
  }

  /** A first message of another type is no ServerHello, and nothing behind it is looked at. */
  lemma {:induction false} OtherMessageIsNone(handshake: seq<byte>, rs: seq<Record>, rest: seq<byte>)
    requires |handshake| < 4 <= |handshake + Bodies(rs)| && (handshake + Bodies(rs))[0] != 2
    requires forall r :: r in rs ==> |r.body| <= HANDSHAKE_LIMIT
    ensures OneShot(handshake, Records(rs) + rest) == None
    decreases |rs|
  {
    hide OneShot, ServerHello, RecordBytes;
    assert rs != [] && rs[0] in rs;
    var joined, later := handshake + rs[0].body, Bodies(rs[1..]);
    Associates(handshake, rs[0].body, later);
    Associates(RecordBytes(rs[0]), Records(rs[1..]), rest);
    RecordIsRead(handshake, rs[0], Records(rs[1..]) + rest);
    if |joined| >= 4 {
      assert joined[0] == (handshake + Bodies(rs))[0];
    } else {
      OtherMessageIsNone(joined, rs[1..], rest);
    }
  }

  function HelloBody(random: seq<byte>, session: seq<byte>, suite: u16, es: seq<Extension>): seq<byte>
    requires |random| == 32 && |session| <= 32
    requires (forall e :: e in es ==> |e.data| < 65536) && |Encoded(es)| < 65536
  {
    [3, 3] + random + [|session|] + session + PutBe16(suite) + [0] + PutBe16(|Encoded(es)|) + Encoded(es)
  }

  /**
  A ServerHello on the wire: cut into any records, with anything behind it, it is found and judged
  TLS 1.3 exactly by its one version extension and its suite.
  */
  lemma HelloIsRecognised(random: seq<byte>, session: seq<byte>, suite: u16, es: seq<Extension>, rs: seq<Record>, rest: seq<byte>)
    requires |random| == 32 && |session| <= 32
    requires (forall e :: e in es ==> |e.data| < 65536) && |Encoded(es)| < 65536
    requires Message(2, HelloBody(random, session, suite, es)) <= Bodies(rs) && |Bodies(rs)| <= HANDSHAKE_LIMIT
    ensures forall r :: r in rs ==> |r.body| <= HANDSHAKE_LIMIT
    ensures OneShot([], Records(rs) + rest)
            == (if OneVersion(Versions(es)) then Some(Versions(es) == [[3, 4]] && Tls13Suite(suite)) else None)
  {
    hide OneShot, ServerHello, Message, Encoded, Versions;
    assert [] + Bodies(rs) == Bodies(rs);
    RecordsAreJudged([], rs, rest, HelloBody(random, session, suite, es));
    ServerHelloReadBack(random, session, suite, es);
  }
}
