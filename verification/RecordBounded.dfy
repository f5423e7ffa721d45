/**
The stream under TLS that never reads past a record: a poll stops at the end of a record header
and at the end of a record, and one Pending separates two records.
*/
module RecordBounded {
  import opened Prelude

  const HEADER := 5
  const SCRATCH := 16 * 1024

  // ---------- where records begin and end ----------

  /** Header and body of the record at the front. */
  function Length(s: seq<byte>): nat
    requires |s| >= HEADER
  {
    HEADER + Be16(s[3], s[4])
  }

  /** A record begins at position p: whole records fill everything before. */
  predicate Starts(s: seq<byte>, p: nat)
    decreases p
  {
    p == 0 || (|s| >= HEADER && Length(s) <= p && Length(s) <= |s| && Starts(s[Length(s)..], p - Length(s)))
  }

  /** A place that no read may cross: between two records, or between a header and its body. */
  predicate Edge(s: seq<byte>, e: nat) {
    Starts(s, e) || (e >= HEADER && Starts(s, e - HEADER))
  }

  lemma {:induction false} StartsIsInside(s: seq<byte>, p: nat)
    requires Starts(s, p)
    ensures p <= |s|
    decreases p
  {
    if p > 0 { StartsIsInside(s[Length(s)..], p - Length(s)); }
  }

  lemma {:induction false} NextStarts(s: seq<byte>, p: nat)
    requires Starts(s, p) && p + HEADER <= |s| && p + Length(s[p..]) <= |s|
    ensures Starts(s, p + Length(s[p..]))
    decreases p
  {
    if p == 0 {
      assert s[0..] == s;
      assert Starts(s[Length(s)..], 0);
    } else {
      var rest := s[Length(s)..];
      assert rest[p - Length(s)..] == s[p..];
      NextStarts(rest, p - Length(s));
    }
  }

  /** No record begins before the one ahead of it is complete. */
  lemma {:induction false} StartsAreFar(s: seq<byte>, p: nat, q: nat)
    requires Starts(s, p) && Starts(s, q) && p < q
    ensures p + HEADER <= |s| && p + Length(s[p..]) <= q
    decreases p
  {
    if p == 0 {
      assert s[0..] == s;
    } else {
      var rest := s[Length(s)..];
      StartsAreFar(rest, p - Length(s), q - Length(s));
      assert rest[p - Length(s)..] == s[p..];
    }
  }

  /** Nothing but its own two parts lies inside a record. */
  lemma NoEdgeInside(s: seq<byte>, p: nat, e: nat)
    requires Starts(s, p) && Edge(s, e)
    ensures !(p < e < p + HEADER)
    ensures p + HEADER < e ==> p + HEADER <= |s| && p + Length(s[p..]) <= e
  {
    if Starts(s, e) {
      if p < e { StartsAreFar(s, p, e); }
    } else {
      var q := e - HEADER;
      if p < q { StartsAreFar(s, p, q); } else if q < p { StartsAreFar(s, q, p); }
    }
  }

  predicate NoEdgeBetween(s: seq<byte>, from: nat, to: nat) {
    forall e: nat :: from < e < to ==> !Edge(s, e)
  }

  /** A read stays in the header of a record. */
  lemma InsideHeader(s: seq<byte>, p: nat, from: nat, to: nat)
    requires Starts(s, p) && p <= from && to <= p + HEADER
    ensures NoEdgeBetween(s, from, to)
  {
    forall e: nat | from < e < to ensures !Edge(s, e) {
      if Edge(s, e) { NoEdgeInside(s, p, e); }
    }
  }

  /** A read stays in the body of a record. */
  lemma InsideBody(s: seq<byte>, p: nat, from: nat, to: nat)
    requires Starts(s, p) && p + HEADER <= |s| && p + HEADER <= from && to <= p + Length(s[p..])
    ensures NoEdgeBetween(s, from, to)
  {
    forall e: nat | from < e < to ensures !Edge(s, e) {
      if Edge(s, e) { NoEdgeInside(s, p, e); }
    }
  }

  lemma HeaderLength(s: seq<byte>, p: nat, header: seq<byte>)
    requires p + HEADER <= |s| && header == s[p..p + HEADER]
    ensures Length(s[p..]) == HEADER + Be16(header[3], header[4])
  {
    assert s[p..][3] == header[3] && s[p..][4] == header[4];
  }

  lemma NotAStart(s: seq<byte>, p: nat, c: nat)
    requires Starts(s, p) && p < c && (c < p + HEADER || (p + HEADER <= |s| && c < p + Length(s[p..])))
    ensures !Starts(s, c)
  {
    if Starts(s, c) { StartsAreFar(s, p, c); }
  }

  // ---------- the stream ----------

  /** The answer of a poll; a Pending is the inner stream's or the stream's own. */
  datatype Poll = Ready(bytes: seq<byte>) | Waiting | Yielded | Failed

  class RecordStream {
    const stream: seq<byte>      // everything the inner stream ever gives
    var consumed: nat            // how much of it was taken
    const header: array<byte>
    var headerFilled: nat
    var recordRemaining: nat
    var yieldAfterRecord: bool
    ghost var start: nat         // where the current record begins
    ghost var pendings: nat        // own Pendings since the last byte

    ghost predicate Valid()
      reads this, header
    {
      && header.Length == HEADER && consumed <= |stream| && Starts(stream, start)
      && (if headerFilled < HEADER then consumed == start + headerFilled && header[..headerFilled] == stream[start..consumed]
          else headerFilled == HEADER && recordRemaining > 0 && start + HEADER <= consumed
               && consumed + recordRemaining == start + Length(stream[start..]))
      && (yieldAfterRecord ==> consumed == start && start > 0)
      && pendings == if consumed == start && start > 0 && !yieldAfterRecord then 1 else 0
    }

    constructor (stream: seq<byte>)
      ensures Valid() && this.stream == stream && consumed == 0 && pendings == 0 && fresh(header)
    {
      this.stream := stream;
      consumed, headerFilled, recordRemaining, yieldAfterRecord := 0, 0, 0, false;
      start, pendings := 0, 0;
      header := new byte[HEADER](_ => 0);
    }

    /** The inner stream: pending, failed, at its end, or any non-empty part that fits. */
    method PollInner(limit: nat) returns (r: Poll)
      requires consumed <= |stream|
      modifies `consumed
      ensures !r.Yielded? && consumed <= |stream|
      ensures r.Ready? ==> old(consumed) <= consumed && r.bytes == stream[old(consumed)..consumed] && |r.bytes| <= limit
      ensures !r.Ready? ==> consumed == old(consumed)
    {
      var kind: int, n: nat := *, *;
      if kind == 0 { return Waiting; }
      if kind == 1 { return Failed; }
      var size := if n > limit || n > |stream| - consumed then 0 else n;
      r := Ready(stream[consumed..consumed + size]);
      consumed := consumed + size;
    }

    /** A poll is transparent, crosses no edge, and takes the first byte of a record after one own Pending. */
    method PollRead(room: nat) returns (r: Poll)
      requires Valid()
      modifies this, header
      ensures Valid() && old(consumed) <= consumed
      ensures if r.Ready? then r.bytes == stream[old(consumed)..consumed] && |r.bytes| <= room else consumed == old(consumed)
      ensures NoEdgeBetween(stream, old(consumed), consumed)
      ensures consumed > old(consumed) ==>
                pendings == 0 && old(pendings) == if old(consumed) > 0 && Starts(stream, old(consumed)) then 1 else 0
      ensures consumed == old(consumed) ==> pendings == old(pendings) + if r.Yielded? then 1 else 0
    {
      if room == 0 { return Ready([]); }
      if yieldAfterRecord {
        yieldAfterRecord := false;
        pendings := pendings + 1;
        return Yielded;
      }
      if consumed != start { NotAStart(stream, start, consumed); }
      hide Starts;
      if headerFilled < HEADER {
        r := ReadHeader(room);
      } else {
        r := ReadBody(room);
      }
    }
  
    /** What is left of the header of the record, or a part of it. */
    method ReadHeader(room: nat) returns (r: Poll)
      requires Valid() && room > 0 && !yieldAfterRecord && headerFilled < HEADER
      modifies this, header
      ensures Valid() && old(consumed) <= consumed && !r.Yielded?
      ensures if r.Ready? then r.bytes == stream[old(consumed)..consumed] && |r.bytes| <= room else consumed == old(consumed)
      ensures NoEdgeBetween(stream, old(consumed), consumed)
      ensures pendings == if consumed > old(consumed) then 0 else old(pendings)
    {
      hide Starts, NoEdgeBetween, Length;
      r := PollInner(Min(Min(HEADER - headerFilled, room), SCRATCH));
      InsideHeader(stream, start, old(consumed), consumed);
      if !r.Ready? || r.bytes == [] { return; }
      TakeHeader(r.bytes);
    }

    /** The header grows by what was read; a whole header tells the length of the body. */
    method TakeHeader(bytes: seq<byte>)
      requires header.Length == HEADER && bytes != [] && headerFilled + |bytes| <= HEADER && !yieldAfterRecord
      requires Starts(stream, start) && consumed == start + headerFilled + |bytes| <= |stream|
      requires header[..headerFilled] + bytes == stream[start..consumed]
      modifies `headerFilled, `recordRemaining, `yieldAfterRecord, `start, `pendings, header
      ensures Valid() && pendings == 0
    {
      hide Starts, Length;
      CopyHeader(bytes);
      headerFilled := headerFilled + |bytes|;
      pendings := 0;
      if headerFilled == HEADER {
        assert header[..] == header[..HEADER];
        HeaderLength(stream, start, header[..]);
        recordRemaining := Be16(header[3], header[4]);
        if recordRemaining == 0 {
          headerFilled, yieldAfterRecord := 0, true;
          NextStarts(stream, start);
          start := consumed;
        }
      }
    }

    method CopyHeader(bytes: seq<byte>)
      requires header.Length == HEADER && headerFilled + |bytes| <= HEADER
      modifies header
      ensures header[..headerFilled + |bytes|] == old(header[..headerFilled]) + bytes
    {
      forall i | headerFilled <= i < headerFilled + |bytes| { header[i] := bytes[i - headerFilled]; }
    }

    /** What is left of the body of the record, or a part of it. */
    method ReadBody(room: nat) returns (r: Poll)
      requires Valid() && room > 0 && !yieldAfterRecord && headerFilled == HEADER
      modifies this
      ensures Valid() && old(consumed) <= consumed && !r.Yielded?
      ensures if r.Ready? then r.bytes == stream[old(consumed)..consumed] && |r.bytes| <= room else consumed == old(consumed)
      ensures NoEdgeBetween(stream, old(consumed), consumed)
      ensures pendings == 0
    {
      hide Starts;
      r := PollInner(Min(Min(recordRemaining, room), SCRATCH));
      if !r.Ready? || r.bytes == [] { return; }
      InsideBody(stream, start, old(consumed), consumed);
      recordRemaining := recordRemaining - |r.bytes|;
      if recordRemaining == 0 {
        headerFilled, yieldAfterRecord := 0, true;
        NextStarts(stream, start);
        start := consumed;
      }
    }

    /** A read past the record layer, once the switch to raw bytes has been made. */
    method PollReadRaw(room: nat) returns (r: Poll)
      requires consumed <= |stream|
      modifies `consumed, `yieldAfterRecord
      ensures old(consumed) <= consumed <= |stream| && !yieldAfterRecord && !r.Yielded?
      ensures if r.Ready? then r.bytes == stream[old(consumed)..consumed] && |r.bytes| <= room else consumed == old(consumed)
    {
      yieldAfterRecord := false;
      r := PollInner(room);
    }

    /** Any run of polls, with any buffers. */
    method PollAll(rooms: seq<nat>) returns (answers: seq<Poll>)
      requires Valid() && consumed == 0 && pendings == 0
      modifies this, header
      ensures Valid() && |answers| == |rooms| && Bounded(stream, answers)
    {
      hide Starts, NoEdgeBetween;
      answers := [];
      var i := 0;
      while i < |rooms|
        invariant 0 <= i <= |rooms| && |answers| == i && Valid() && Bounded(stream, answers)
        invariant consumed == Taken(answers) && pendings == OwnPendings(answers)
      {
        ghost var from, own := consumed, pendings;
        var answer := PollRead(rooms[i]);
        OneMore(stream, answers, answer, from, own);
        answers := answers + [answer];
        i := i + 1;
      }
    }
  }

  // ---------- every run ----------

  /** The bytes handed out so far. */
  function Taken(answers: seq<Poll>): nat {
    if answers == [] then 0
    else Taken(answers[..|answers| - 1]) + Gained(answers[|answers| - 1])
  }

  function Gained(answer: Poll): nat {
    if answer.Ready? then |answer.bytes| else 0
  }

  /** The own Pendings since the last byte. */
  function OwnPendings(answers: seq<Poll>): nat {
    if answers == [] then 0
    else
      var last := answers[|answers| - 1];
      if Gained(last) > 0 then 0 else OwnPendings(answers[..|answers| - 1]) + if last.Yielded? then 1 else 0
  }

  /**
  The bytes of every answer are the next bytes of the stream and cross no edge; those that begin a
  record come after exactly one own Pending since the byte before, and all others after none.
  */
  predicate Bounded(s: seq<byte>, answers: seq<Poll>) {
    answers != [] ==>
      var before, last := answers[..|answers| - 1], answers[|answers| - 1];
      && Bounded(s, before)
      && (Gained(last) > 0 ==>
            var from := Taken(before);
            && from + Gained(last) <= |s| && last.bytes == s[from..from + Gained(last)]
            && NoEdgeBetween(s, from, from + Gained(last))
            && OwnPendings(before) == if from > 0 && Starts(s, from) then 1 else 0)
  }

  lemma OneMore(s: seq<byte>, answers: seq<Poll>, answer: Poll, from: nat, own: nat)
    requires Bounded(s, answers) && from == Taken(answers) && own == OwnPendings(answers)
    requires Gained(answer) > 0 ==>
               && from + Gained(answer) <= |s| && answer.bytes == s[from..from + Gained(answer)]
               && NoEdgeBetween(s, from, from + Gained(answer))
               && own == if from > 0 && Starts(s, from) then 1 else 0
    ensures Bounded(s, answers + [answer]) && Taken(answers + [answer]) == from + Gained(answer)
    ensures OwnPendings(answers + [answer]) == if Gained(answer) > 0 then 0 else own + if answer.Yielded? then 1 else 0
  {
    hide Starts, NoEdgeBetween;
    assert (answers + [answer])[..|answers|] == answers;
  }

  /** Put together, the answers are the stream as far as it was taken. */
  function Output(answers: seq<Poll>): seq<byte> {
    if answers == [] then []
    else
      var last := answers[|answers| - 1];
      Output(answers[..|answers| - 1]) + if last.Ready? then last.bytes else []
  }

  lemma {:induction false} OutputIsPrefix(s: seq<byte>, answers: seq<Poll>)
    requires Bounded(s, answers)
    ensures Taken(answers) <= |s| && Output(answers) == s[..Taken(answers)]
  {
    if answers != [] {
      var before, last := answers[..|answers| - 1], answers[|answers| - 1];
      OutputIsPrefix(s, before);
      var from := Taken(before);
      if Gained(last) > 0 {
        assert s[..from + Gained(last)] == s[..from] + s[from..from + Gained(last)];
      }
    }
  }
}
