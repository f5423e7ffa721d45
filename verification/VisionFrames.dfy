/**
The Vision stream as values: what the padding writer puts on the wire, and what an unpadding
reader in any state still has to deliver from the bytes that are left.
*/
module VisionFrames {
  import opened Prelude

  /** Command 0 continues, 1 ends the framing, 2 ends it and leaves the outer TLS stream. */
  datatype Frame = Frame(command: byte, content: seq<byte>, padding: nat)

  predicate Encodable(f: Frame) {
    f.command <= 2 && |f.content| < 65536 && f.padding < 65536
  }

  function Zeros(n: nat): (z: seq<byte>)
    ensures |z| == n
  {
    seq(n, _ => 0)
  }

  function FrameBytes(f: Frame): seq<byte>
    requires Encodable(f)
  {
    [f.command] + PutBe16(|f.content|) + PutBe16(f.padding) + f.content + Zeros(f.padding)
  }

  function FramesBytes(fs: seq<Frame>): seq<byte>
    requires forall f :: f in fs ==> Encodable(f)
  {
    if fs == [] then [] else FrameBytes(fs[0]) + FramesBytes(fs[1..])
  }

  /** The framed part of a stream: the identifier once, then the frames. */
  function Framed(id: seq<byte>, fs: seq<Frame>): seq<byte>
    requires forall f :: f in fs ==> Encodable(f)
  {
    if fs == [] then [] else id + FramesBytes(fs)
  }

  function Contents(fs: seq<Frame>): seq<byte> {
    if fs == [] then [] else fs[0].content + Contents(fs[1..])
  }

  /** Frames as the writer makes them: only the last one may end the framing. */
  predicate Sequence(fs: seq<Frame>) {
    && (forall f :: f in fs ==> Encodable(f))
    && (forall i :: 0 <= i < |fs| - 1 ==> fs[i].command == 0)
  }

  function LastCommand(fs: seq<Frame>): byte {
    if fs == [] then 0 else fs[|fs| - 1].command
  }

  lemma {:induction false} FramesAppend(fs: seq<Frame>, f: Frame)
    requires (forall g :: g in fs ==> Encodable(g)) && Encodable(f)
    ensures forall g :: g in fs + [f] ==> Encodable(g)
    ensures FramesBytes(fs + [f]) == FramesBytes(fs) + FrameBytes(f)
    ensures Contents(fs + [f]) == Contents(fs) + f.content
  {
    hide FrameBytes;
    if fs == [] {
      assert fs + [f] == [f];
      assert FramesBytes([f]) == FrameBytes(f) + FramesBytes([]);
    } else {
      assert fs[0] in fs;
      assert (fs + [f])[1..] == fs[1..] + [f];
      FramesAppend(fs[1..], f);
      assert FrameBytes(fs[0]) + (FramesBytes(fs[1..]) + FrameBytes(f)) == FramesBytes(fs) + FrameBytes(f);
      assert fs[0].content + (Contents(fs[1..]) + f.content) == Contents(fs) + f.content;
    }
  }

  lemma FramedAppend(id: seq<byte>, fs: seq<Frame>, f: Frame)
    requires Sequence(fs) && LastCommand(fs) == 0 && Encodable(f)
    ensures Sequence(fs + [f]) && LastCommand(fs + [f]) == f.command
    ensures Framed(id, fs + [f]) == Framed(id, fs) + ((if fs == [] then id else []) + FrameBytes(f))
    ensures Contents(fs + [f]) == Contents(fs) + f.content
  {
    hide FrameBytes, FramesBytes, Contents, Encodable;
    FramesAppend(fs, f);
    assert forall i :: 0 <= i < |fs| ==> (fs + [f])[i] == fs[i];
    if fs == [] {
      NoFrames();
      assert id + ([] + FrameBytes(f)) == [] + (id + FrameBytes(f));
    } else {
      assert id + (FramesBytes(fs) + FrameBytes(f)) == (id + FramesBytes(fs)) + ([] + FrameBytes(f));
    }
  }

  lemma NoFrames()
    ensures FramesBytes([]) == []
  {
  }

  // ---------- what is left to deliver ----------

  /** The unpadding state: the fields of the read half. */
  datatype Reader = Reader(header: seq<byte>, first: bool, content: nat, padding: nat,
                           command: byte, plain: bool, failed: bool)

  /**
  The bytes a reader delivers from here on, whether they end with a clean end of stream, and what
  the outer TLS stream still holds when the reader leaves it, if it does.
  */
  datatype Rest = Rest(out: seq<byte>, clean: bool, atSwitch: Option<seq<byte>>)

  /** A clean end is all that is left. */
  predicate Over(rest: Rest) {
    rest.out == [] && rest.clean
  }

  /** Nothing more can be delivered, and the stream is not at a clean end. */
  predicate Broken(rest: Rest) {
    rest.out == [] && !rest.clean
  }

  function HeaderSize(first: bool): nat {
    if first then 21 else 5
  }

  /** The state after a complete header. */
  function AfterHeader(h: seq<byte>): (r: Reader)
    requires |h| == 5
  {
    Reader([], false, Be16(h[1], h[2]), Be16(h[3], h[4]), h[0], false, h[0] > 2)
  }

  /** The state once more bytes of the header have arrived. */
  function WithHeader(id: seq<byte>, r: Reader, more: seq<byte>): (s: Reader)
    requires |id| == 16 && |r.header| + |more| <= HeaderSize(r.first)
  {
    var full, need := r.header + more, HeaderSize(r.first);
    if |full| < need then r.(header := full)
    else if r.first && full[..16] != id then r.(header := full, first := false, plain := true)
    else AfterHeader(full[need - 5..])
  }

  /**
  A one-shot reading of the remaining stream: `tls` is what the peer still sends inside the outer
  TLS stream, `raw` what it sends after leaving it, and `direct` whether the reader has left it.
  Reading one kind in the mode of the other is an error.
  */
  function Left(id: seq<byte>, r: Reader, direct: bool, tls: seq<byte>, raw: seq<byte>): (rest: Rest)
    requires |id| == 16
    decreases |tls|, if r.plain then 0 else 1
  {
    if r.failed then Rest([], false, None)
    else if r.plain then
      if direct then Rest(r.header + (if tls == [] then raw else []), tls == [], Some(tls))
      else Rest(r.header + tls, raw == [], None)
    else if r.content > 0 then
      if |tls| < r.content then Rest(tls, false, None)
      else Prepend(tls[..r.content], Left(id, r.(content := 0), direct, tls[r.content..], raw))
    else if r.padding > 0 then
      if |tls| < r.padding then Rest([], false, None)
      else Left(id, r.(padding := 0), direct, tls[r.padding..], raw)
    else if r.command != 0 then
      Left(id, r.(plain := true), direct || r.command == 2, tls, raw)
    else
      var need := HeaderSize(r.first);
      if |r.header| >= need then Rest([], false, None)
      else if |r.header| + |tls| < need then Rest([], r.header == [] && tls == [] && raw == [], None)
      else
        var k := need - |r.header|;
        Left(id, WithHeader(id, r, tls[..k]), direct, tls[k..], raw)
  }

  // ---------- what is left after reading some bytes ----------

  function Prepend(bytes: seq<byte>, rest: Rest): Rest {
    rest.(out := bytes + rest.out)
  }

  lemma LeftAfterContent(id: seq<byte>, r: Reader, a: seq<byte>, b: seq<byte>, raw: seq<byte>)
    requires |id| == 16 && !r.failed && !r.plain && 0 < |a| <= r.content
    ensures Left(id, r, false, a + b, raw) == Prepend(a, Left(id, r.(content := r.content - |a|), false, b, raw))
  {
    if |a| + |b| >= r.content {
      var c := r.content;
      assert (a + b)[..c] == a + b[..c - |a|] && (a + b)[c..] == b[c - |a|..];
      if |a| == c { assert b[c - |a|..] == b; }
    }
  }

  lemma LeftAfterPadding(id: seq<byte>, r: Reader, a: seq<byte>, b: seq<byte>, raw: seq<byte>)
    requires |id| == 16 && !r.failed && !r.plain && r.content == 0 && 0 < |a| <= r.padding
    ensures Left(id, r, false, a + b, raw) == Left(id, r.(padding := r.padding - |a|), false, b, raw)
  {
    if |a| + |b| >= r.padding {
      var p := r.padding;
      assert (a + b)[p..] == b[p - |a|..];
      if |a| == p { assert b[p - |a|..] == b; }
    }
  }

  lemma WithHeaderTwice(id: seq<byte>, r: Reader, a: seq<byte>, b: seq<byte>)
    requires |id| == 16 && |a| + |b| <= HeaderSize(r.first)
    ensures WithHeader(id, r.(header := a), b) == WithHeader(id, r.(header := []), a + b)
  {
    assert [] + (a + b) == a + b;
  }

  lemma WithHeaderItself(id: seq<byte>, r: Reader)
    requires |id| == 16 && |r.header| < HeaderSize(r.first)
    ensures WithHeader(id, r.(header := []), r.header) == r
  {
    assert [] + r.header == r.header;
  }

  lemma WithWholeHeader(id: seq<byte>, r: Reader, full: seq<byte>)
    requires |id| == 16 && |full| == HeaderSize(r.first)
    ensures r.first && full[..16] != id ==>
              WithHeader(id, r.(header := []), full) == r.(header := full, first := false, plain := true)
    ensures !(r.first && full[..16] != id) ==>
              var h := full[if r.first then 16 else 0..];
              WithHeader(id, r.(header := []), full)
              == Reader([], false, Be16(h[1], h[2]), Be16(h[3], h[4]), h[0], false, h[0] > 2)
  {
    assert [] + full == full;
  }

  /** In front of a header, or inside one, at the end of the TLS part. */
  lemma LeftNothing(id: seq<byte>, r: Reader, raw: seq<byte>)
    requires |id| == 16 && !r.failed && !r.plain && r.content == r.padding == 0 && r.command == 0
    requires |r.header| < HeaderSize(r.first)
    ensures Left(id, r, false, [], raw) == Rest([], r.header == [] && raw == [], None)
  {
  }

  /** Inside content at the end of the TLS part. */
  lemma LeftNoContent(id: seq<byte>, r: Reader, raw: seq<byte>)
    requires |id| == 16 && !r.failed && !r.plain && r.content > 0
    ensures Left(id, r, false, [], raw) == Rest([], false, None)
  {
  }

  lemma LeftAfterHeader(id: seq<byte>, r: Reader, a: seq<byte>, b: seq<byte>, raw: seq<byte>)
    requires |id| == 16 && !r.failed && !r.plain && r.content == r.padding == 0 && r.command == 0
    requires a != [] && |r.header| < HeaderSize(r.first) && |r.header| + |a| <= HeaderSize(r.first)
    ensures Left(id, r, false, a + b, raw) == Left(id, WithHeader(id, r, a), false, b, raw)
  {
    var k := HeaderSize(r.first) - |r.header|;
    if |a| == k {
      assert (a + b)[..k] == a && (a + b)[k..] == b;
    } else {
      var r' := r.(header := r.header + a);
      assert WithHeader(id, r, a) == r';
      if |a| + |b| >= k { LeftTwoParts(id, r, a, b, raw); }
    }
  }

  lemma LeftTwoParts(id: seq<byte>, r: Reader, a: seq<byte>, b: seq<byte>, raw: seq<byte>)
    requires |id| == 16 && !r.failed && !r.plain && r.content == r.padding == 0 && r.command == 0
    requires |r.header| + |a| < HeaderSize(r.first) <= |r.header| + |a| + |b|
    ensures Left(id, r, false, a + b, raw) == Left(id, r.(header := r.header + a), false, b, raw)
  {
    hide WithHeader;
    var k := HeaderSize(r.first) - |r.header|;
    var b' := b[..k - |a|];
    assert (a + b)[..k] == a + b' && (a + b)[k..] == b[k - |a|..];
    WithHeaderTwice(id, r, r.header, a + b');
    WithHeaderTwice(id, r, r.header + a, b');
    assert r.header + (a + b') == (r.header + a) + b';
  }

  lemma LeftPlain(id: seq<byte>, r: Reader, direct: bool, a: seq<byte>, b: seq<byte>, other: seq<byte>)
    requires |id| == 16 && !r.failed && r.plain && r.header == []
    ensures !direct ==> Left(id, r, direct, a + b, other) == Prepend(a, Left(id, r, direct, b, other))
    ensures direct ==> Left(id, r, direct, [], a + b) == Prepend(a, Left(id, r, direct, [], b))
  {
    assert [] + (a + b) == a + ([] + b);
  }

  lemma LeftBuffered(id: seq<byte>, r: Reader, direct: bool, n: nat, tls: seq<byte>, raw: seq<byte>)
    requires |id| == 16 && !r.failed && r.plain && n <= |r.header|
    ensures Left(id, r, direct, tls, raw)
            == Prepend(r.header[..n], Left(id, r.(header := r.header[n..]), direct, tls, raw))
  {
    var rest := if direct then (if tls == [] then raw else []) else tls;
    assert r.header + rest == r.header[..n] + (r.header[n..] + rest);
  }

  const START := Reader([], true, 0, 0, 0, false, false)

  // ---------- unpadding undoes padding ----------

  function FrameHead(f: Frame): (h: seq<byte>)
    requires Encodable(f)
    ensures |h| == 5
  {
    [f.command] + PutBe16(|f.content|) + PutBe16(f.padding)
  }

  lemma FrameHasHead(mark: seq<byte>, f: Frame, rest: seq<byte>)
    requires Encodable(f)
    ensures mark + FrameBytes(f) + rest == (mark + FrameHead(f)) + (f.content + Zeros(f.padding) + rest)
  {
    hide PutBe16, Zeros;
    assert FrameBytes(f) == FrameHead(f) + (f.content + Zeros(f.padding));
  }

  /** A whole header, behind the identifier or not. */
  lemma HeadIsTaken(id: seq<byte>, first: bool, f: Frame)
    requires |id| == 16 && Encodable(f)
    ensures WithHeader(id, START.(first := first), (if first then id else []) + FrameHead(f))
            == Reader([], false, |f.content|, f.padding, f.command, false, false)
  {
    var mark, head := if first then id else [], FrameHead(f);
    assert [] + (mark + head) == mark + head && (mark + head)[|mark|..] == head;
    assert first ==> (mark + head)[..16] == id;
    assert head[1] == PutBe16(|f.content|)[0] && head[2] == PutBe16(|f.content|)[1];
    assert head[3] == PutBe16(f.padding)[0] && head[4] == PutBe16(f.padding)[1];
    hide PutBe16, Be16;
  }

  /** A frame at the front of the stream: its content is delivered, its padding is not. */
  lemma OneFrame(id: seq<byte>, first: bool, f: Frame, rest: seq<byte>, raw: seq<byte>)
    requires |id| == 16 && Encodable(f)
    ensures var r := START.(first := first);
            var stream := (if first then id else []) + FrameBytes(f) + rest;
            var next := Reader([], false, 0, 0, f.command, false, false);
            Left(id, r, false, stream, raw) == Prepend(f.content, Left(id, next, false, rest, raw))
  {
    hide Left, FrameBytes, FrameHead, WithHeader, Zeros;
    var r, mark := START.(first := first), if first then id else [];
    FrameHasHead(mark, f, rest);
    LeftAfterHeader(id, r, mark + FrameHead(f), f.content + Zeros(f.padding) + rest, raw);
    HeadIsTaken(id, first, f);
    SkipBody(id, Reader([], false, |f.content|, f.padding, f.command, false, false), f, rest, raw);
  }

  lemma SkipBody(id: seq<byte>, after: Reader, f: Frame, rest: seq<byte>, raw: seq<byte>)
    requires |id| == 16 && Encodable(f)
    requires after == Reader([], false, |f.content|, f.padding, f.command, false, false)
    ensures var body := f.content + Zeros(f.padding) + rest;
            var next := Reader([], false, 0, 0, f.command, false, false);
            Left(id, after, false, body, raw) == Prepend(f.content, Left(id, next, false, rest, raw))
  {
    var body := f.content + Zeros(f.padding) + rest;
    var pad := Zeros(f.padding) + rest;
    assert body == f.content + pad;
    assert body[..|f.content|] == f.content && body[|f.content|..] == pad;
    assert pad[f.padding..] == rest;
    if f.content == [] { assert body == pad; }
    if f.padding == 0 { assert pad == rest; }
  }

  /** The two parts of the stream after the framing. */
  function AfterTls(fs: seq<Frame>, plain: seq<byte>): seq<byte> {
    if LastCommand(fs) == 2 then [] else plain
  }

  function AfterRaw(fs: seq<Frame>, plain: seq<byte>): seq<byte> {
    if LastCommand(fs) == 2 then plain else []
  }

  lemma {:induction false} FramesReadBack(id: seq<byte>, first: bool, fs: seq<Frame>, plain: seq<byte>)
    requires |id| == 16 && Sequence(fs) && fs != []
    requires LastCommand(fs) == 0 ==> plain == []
    ensures Left(id, START.(first := first), false,
                 (if first then id else []) + FramesBytes(fs) + AfterTls(fs, plain), AfterRaw(fs, plain))
            == Rest(Contents(fs) + plain, true, if LastCommand(fs) == 2 then Some([]) else None)
    decreases |fs|
  {
    hide Left, FrameBytes;
    var mark, tail, raw := if first then id else [], AfterTls(fs, plain), AfterRaw(fs, plain);
    var rest := FramesBytes(fs[1..]) + tail;
    assert mark + FramesBytes(fs) + tail == mark + FrameBytes(fs[0]) + rest;
    assert fs[0] in fs;
    OneFrame(id, first, fs[0], rest, raw);
    if |fs| == 1 {
      assert rest == tail && Contents(fs) == fs[0].content;
      LastFrame(id, fs[0].command, plain);
    } else {
      FramesReadBack(id, false, fs[1..], plain);
      assert [] + FramesBytes(fs[1..]) + tail == rest;
    }
  }

  lemma LastFrame(id: seq<byte>, command: byte, plain: seq<byte>)
    requires |id| == 16 && command <= 2 && (command == 0 ==> plain == [])
    ensures Left(id, Reader([], false, 0, 0, command, false, false), false,
                 if command == 2 then [] else plain, if command == 2 then plain else [])
            == Rest(plain, true, if command == 2 then Some([]) else None)
  {
    assert [] + plain == plain;
  }

  lemma LeavesWithTheRest(id: seq<byte>, rest: seq<byte>, raw: seq<byte>)
    requires |id| == 16
    ensures Left(id, Reader([], false, 0, 0, 2, false, false), false, rest, raw).atSwitch == Some(rest)
  {
  }

  /** Behind a command-2 frame the reader leaves the outer TLS stream, with all that follows still in it. */
  lemma {:induction false} SwitchAfterFrames(id: seq<byte>, first: bool, fs: seq<Frame>, rest: seq<byte>, raw: seq<byte>)
    requires |id| == 16 && Sequence(fs) && fs != [] && LastCommand(fs) == 2
    ensures Left(id, START.(first := first), false, (if first then id else []) + FramesBytes(fs) + rest, raw).atSwitch
            == Some(rest)
    decreases |fs|
  {
    hide Left, FrameBytes;
    var mark, more := if first then id else [], FramesBytes(fs[1..]) + rest;
    assert mark + FramesBytes(fs) + rest == mark + FrameBytes(fs[0]) + more;
    assert fs[0] in fs;
    OneFrame(id, first, fs[0], more, raw);
    if |fs| == 1 {
      assert more == rest;
      LeavesWithTheRest(id, rest, raw);
    } else {
      SwitchAfterFrames(id, false, fs[1..], rest, raw);
      assert [] + FramesBytes(fs[1..]) + rest == more;
    }
  }

  // ---------- a stream that is cut short ----------

  /** How many TLS bytes are behind a suffix that is left at the switch. */
  predicate SameSwitch(short: seq<byte>, a: Rest, long: seq<byte>, b: Rest) {
    a.atSwitch.Some? ==>
      && |a.atSwitch.value| <= |short|
      && b.atSwitch.Some? && |long| - |b.atSwitch.value| == |short| - |a.atSwitch.value|
  }

  /** What a reader makes of a stream that is cut short, next to what it makes of the whole. */
  predicate CutAgrees(id: seq<byte>, r: Reader, direct: bool, short: seq<byte>, more: seq<byte>, raw: seq<byte>)
    requires |id| == 16
  {
    var a, b := Left(id, r, direct, short, []), Left(id, r, direct, short + more, raw);
    a.out <= b.out && SameSwitch(short, a, short + more, b)
  }

  lemma CutAtEnd(id: seq<byte>, r: Reader, direct: bool, short: seq<byte>, more: seq<byte>, raw: seq<byte>)
    requires |id| == 16 && (r.failed || r.plain)
    ensures CutAgrees(id, r, direct, short, more, raw)
  {
    if r.plain && !direct { Associates(r.header, short, more); }
  }

  lemma CutInContent(id: seq<byte>, r: Reader, direct: bool, short: seq<byte>, more: seq<byte>, raw: seq<byte>)
    requires |id| == 16 && !r.failed && !r.plain && r.content > 0
    requires |short| >= r.content ==> CutAgrees(id, r.(content := 0), direct, short[r.content..], more, raw)
    ensures CutAgrees(id, r, direct, short, more, raw)
  {
    var long, n := short + more, r.content;
    if |short| >= n {
      assert long[..n] == short[..n] && long[n..] == short[n..] + more;
      var next := r.(content := 0);
      assert Left(id, r, direct, short, []) == Prepend(short[..n], Left(id, next, direct, short[n..], []));
      assert Left(id, r, direct, long, raw) == Prepend(short[..n], Left(id, next, direct, short[n..] + more, raw));
      hide Left;
    } else if |long| >= n {
      assert short <= long[..n];
    }
  }

  lemma CutInPadding(id: seq<byte>, r: Reader, direct: bool, short: seq<byte>, more: seq<byte>, raw: seq<byte>)
    requires |id| == 16 && !r.failed && !r.plain && r.content == 0 && r.padding > 0
    requires |short| >= r.padding ==> CutAgrees(id, r.(padding := 0), direct, short[r.padding..], more, raw)
    ensures CutAgrees(id, r, direct, short, more, raw)
  {
    var long, n := short + more, r.padding;
    if |short| >= n {
      assert long[n..] == short[n..] + more;
      var next := r.(padding := 0);
      assert Left(id, r, direct, short, []) == Left(id, next, direct, short[n..], []);
      assert Left(id, r, direct, long, raw) == Left(id, next, direct, short[n..] + more, raw);
      hide Left;
    }
  }

  lemma CutInHeader(id: seq<byte>, r: Reader, direct: bool, short: seq<byte>, more: seq<byte>, raw: seq<byte>)
    requires |id| == 16 && !r.failed && !r.plain && r.content == r.padding == 0 && r.command == 0
    requires var k := HeaderSize(r.first) - |r.header|;
             0 < k <= |short| ==> CutAgrees(id, WithHeader(id, r, short[..k]), direct, short[k..], more, raw)
    ensures CutAgrees(id, r, direct, short, more, raw)
  {
    hide WithHeader;
    var long, k := short + more, HeaderSize(r.first) - |r.header|;
    if 0 < k <= |short| {
      assert long[..k] == short[..k] && long[k..] == short[k..] + more;
      var next := WithHeader(id, r, short[..k]);
      assert Left(id, r, direct, short, []) == Left(id, next, direct, short[k..], []);
      assert Left(id, r, direct, long, raw) == Left(id, next, direct, short[k..] + more, raw);
      hide Left;
    }
  }

  lemma CutAtCommand(id: seq<byte>, r: Reader, direct: bool, short: seq<byte>, more: seq<byte>, raw: seq<byte>)
    requires |id| == 16 && !r.failed && !r.plain && r.content == r.padding == 0 && r.command != 0
    ensures CutAgrees(id, r, direct, short, more, raw)
  {
    var next, mode := r.(plain := true), direct || r.command == 2;
    CutAtEnd(id, next, mode, short, more, raw);
    assert Left(id, r, direct, short, []) == Left(id, next, mode, short, []);
    assert Left(id, r, direct, short + more, raw) == Left(id, next, mode, short + more, raw);
    hide Left;
  }

  /**
  Of a stream that is cut short a reader delivers a prefix, and if it leaves the outer TLS stream
  it does so at the same place.
  */
  lemma {:induction false} LeftOfPrefix(id: seq<byte>, r: Reader, direct: bool, short: seq<byte>, more: seq<byte>, raw: seq<byte>)
    requires |id| == 16
    ensures CutAgrees(id, r, direct, short, more, raw)
    decreases |short|
  {
    hide CutAgrees, WithHeader;
    if r.failed || r.plain {
      CutAtEnd(id, r, direct, short, more, raw);
    } else if r.content > 0 {
      if |short| >= r.content { LeftOfPrefix(id, r.(content := 0), direct, short[r.content..], more, raw); }
      CutInContent(id, r, direct, short, more, raw);
    } else if r.padding > 0 {
      if |short| >= r.padding { LeftOfPrefix(id, r.(padding := 0), direct, short[r.padding..], more, raw); }
      CutInPadding(id, r, direct, short, more, raw);
    } else if r.command != 0 {
      CutAtCommand(id, r, direct, short, more, raw);
    } else {
      var k := HeaderSize(r.first) - |r.header|;
      if 0 < k <= |short| { LeftOfPrefix(id, WithHeader(id, r, short[..k]), direct, short[k..], more, raw); }
      CutInHeader(id, r, direct, short, more, raw);
    }
  }
}
