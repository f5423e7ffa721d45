/**
The ServerHello messages that the sniffer accepts, given as a grammar of their own (section 4.1.3 of
RFC 8446): exactly its sentences get a verdict, and each by what it says.
*/
module Hellos {
  import opened Prelude
  import opened TlsHello

  datatype Offer = Offer(random: seq<byte>, session: seq<byte>, suite: u16, extensions: Option<seq<Extension>>)

  predicate Short(es: seq<Extension>) {
    forall e :: e in es ==> |e.data| < 65536
  }

  /** At most one version extension, of one version; the extensions may be left out altogether. */
  predicate Lawful(o: Offer) {
    && |o.random| == 32 && |o.session| <= 32
    && (o.extensions.Some? ==>
          var es := o.extensions.value; Short(es) && |Encoded(es)| < 65536 && OneVersion(Versions(es)))
  }

  function OfferHead(o: Offer): seq<byte>
    requires Lawful(o)
  {
    [3, 3] + o.random + [|o.session|] + o.session + PutBe16(o.suite) + [0]
  }

  function OfferBytes(o: Offer): seq<byte>
    requires Lawful(o)
  {
    OfferHead(o) + match o.extensions case None => [] case Some(es) => PutBe16(|Encoded(es)|) + Encoded(es)
  }

  predicate IsTls13(o: Offer) {
    o.extensions.Some? && Versions(o.extensions.value) == [[3, 4]] && Tls13Suite(o.suite)
  }

  /** Every lawful ServerHello gets its verdict. */
  lemma OfferIsJudged(o: Offer)
    requires Lawful(o)
    ensures ServerHello(OfferBytes(o)) == Some(IsTls13(o))
  {
    match o.extensions
    case None =>
      var bytes, at := OfferHead(o), 35 + |o.session|;
      assert bytes + [] == bytes;
      assert |bytes| == at + 3 && bytes[..2] == [3, 3] && bytes[34] == |o.session| && bytes[at + 2] == 0;
    case Some(es) =>
      ServerHelloReadBack(o.random, o.session, o.suite, es);
      Associates(OfferHead(o), PutBe16(|Encoded(es)|), Encoded(es));
  }

  lemma {:induction false} ExtensionsWereWritten(bytes: seq<byte>, cursor: nat, version: Option<bool>)
    returns (es: seq<Extension>)
    requires cursor <= |bytes| && Extensions(bytes, cursor, version).Some?
    ensures Short(es) && Encoded(es) == bytes[cursor..]
    ensures Extensions(bytes, cursor, version) == Judged(Versions(es), version)
    decreases |bytes| - cursor
  {
    if cursor == |bytes| {
      es := [];
    } else {
      var n := Be16(bytes[cursor + 2], bytes[cursor + 3]);
      var end := cursor + 4 + n;
      var e := Extension(Be16(bytes[cursor], bytes[cursor + 1]), bytes[cursor + 4..end]);
      ExtensionIsRead(bytes, cursor, e, version);
      hide Extensions, Be16;
      var rest := ExtensionsWereWritten(bytes, end, if e.kind == SUPPORTED_VERSIONS then Some(e.data == [3, 4]) else version);
      es := [e] + rest;
      HeadIsWritten(bytes, cursor, e);
      JudgedNext(es, version);
      assert es[1..] == rest && bytes[cursor..] == bytes[cursor..end] + bytes[end..];
    }
  }

  lemma HeadIsWritten(bytes: seq<byte>, at: nat, e: Extension)
    requires at + 4 + |e.data| <= |bytes| && |e.data| < 65536
    requires Be16(bytes[at], bytes[at + 1]) == e.kind && Be16(bytes[at + 2], bytes[at + 3]) == |e.data|
    requires bytes[at + 4..at + 4 + |e.data|] == e.data
    ensures Head(e) == bytes[at..at + 4 + |e.data|]
  {
    PutUndoesBe(bytes[at], bytes[at + 1]);
    PutUndoesBe(bytes[at + 2], bytes[at + 3]);
    hide PutBe16, Be16;
    assert bytes[at..at + 4 + |e.data|] == [bytes[at], bytes[at + 1]] + [bytes[at + 2], bytes[at + 3]] + e.data;
  }

  /** Nothing else gets one: what is judged is a lawful ServerHello, to the byte. */
  lemma JudgedIsOffer(bytes: seq<byte>) returns (o: Offer)
    requires ServerHello(bytes).Some?
    ensures Lawful(o) && OfferBytes(o) == bytes && ServerHello(bytes) == Some(IsTls13(o))
  {
    hide Extensions, Be16, PutBe16;
    var at := 35 + bytes[34] as int;
    o := Offer(bytes[2..34], bytes[35..at], Be16(bytes[at], bytes[at + 1]), None);
    PutUndoesBe(bytes[at], bytes[at + 1]);
    assert bytes[..at + 3] == [3, 3] + bytes[2..34] + [bytes[34]] + bytes[35..at] + [bytes[at], bytes[at + 1]] + [0];
    if at + 3 < |bytes| {
      var es := ExtensionsWereWritten(bytes, at + 5, None);
      PutUndoesBe(bytes[at + 3], bytes[at + 4]);
      o := o.(extensions := Some(es));
      assert bytes == bytes[..at + 3] + ([bytes[at + 3], bytes[at + 4]] + bytes[at + 5..]);
    } else {
      assert bytes[..at + 3] + [] == bytes;
    }
  }

  /** A message gets a verdict exactly if it is a lawful ServerHello, and the verdict is what it says. */
  lemma JudgesExactlyTheLawful(bytes: seq<byte>, verdict: bool)
    ensures ServerHello(bytes) == Some(verdict) <==> exists o :: Lawful(o) && OfferBytes(o) == bytes && IsTls13(o) == verdict
  {
    hide ServerHello, Lawful, OfferBytes, IsTls13;
    if ServerHello(bytes).Some? {
      var o := JudgedIsOffer(bytes);
      assert Lawful(o) && OfferBytes(o) == bytes;
    }
    if o :| Lawful(o) && OfferBytes(o) == bytes && IsTls13(o) == verdict {
      OfferIsJudged(o);
    }
  }
}
