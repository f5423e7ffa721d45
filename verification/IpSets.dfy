/** The interval index of IP rules: sorted, merged ranges searched by bisection. */
module IpSets {
  import opened Prelude
  import opened Addresses

  /** The largest `u128`. */
  const MAX: nat := 0xFFFF_FFFF_FFFF_FFFF_FFFF_FFFF_FFFF_FFFF

  datatype Range = Range(low: nat, high: nat)
  {
    predicate Has(n: nat) { low <= n <= high }
    predicate Valid() { low <= high <= MAX }
  }

  datatype IpSet = IpSet(v4: seq<Range>, v6: seq<Range>, inverse: bool)

  /** What the types of the library guarantee of a network. */
  predicate ValidNet(net: IpNet) {
    InFamily(net.addr) && net.prefix <= Width(net.addr)
  }

  /** The reference: a scan over the networks. */
  predicate SomeContains(nets: seq<IpNet>, ip: Ip) {
    exists net :: net in nets && Contains(net, ip)
  }

  predicate InSome(ranges: seq<Range>, n: nat) {
    exists range :: range in ranges && range.Has(n)
  }

  predicate AllValid(ranges: seq<Range>) {
    forall range :: range in ranges ==> range.Valid()
  }

  // ---------- sorting ----------

  /** The order of pairs. */
  predicate Below(a: Range, b: Range) {
    a.low < b.low || (a.low == b.low && a.high <= b.high)
  }

  predicate Sorted(ranges: seq<Range>) {
    forall i, j :: 0 <= i < j < |ranges| ==> Below(ranges[i], ranges[j])
  }

  function Inserted(range: Range, ranges: seq<Range>): seq<Range> {
    if ranges == [] then [range]
    else if Below(range, ranges[0]) then [range] + ranges
    else [ranges[0]] + Inserted(range, ranges[1..])
  }

  /** `sort_unstable`. */
  function SortedRanges(ranges: seq<Range>): seq<Range> {
    if ranges == [] then [] else Inserted(ranges[0], SortedRanges(ranges[1..]))
  }

  lemma {:induction false} InsertedPermutes(range: Range, ranges: seq<Range>)
    ensures multiset(Inserted(range, ranges)) == multiset(ranges) + multiset{range}
  {
    if ranges != [] && !Below(range, ranges[0]) {
      InsertedPermutes(range, ranges[1..]);
      assert ranges == [ranges[0]] + ranges[1..];
    }
  }

  lemma {:induction false} InsertedIsSorted(range: Range, ranges: seq<Range>)
    requires Sorted(ranges)
    ensures Sorted(Inserted(range, ranges))
  {
    if ranges != [] && !Below(range, ranges[0]) {
      var rest := Inserted(range, ranges[1..]);
      InsertedIsSorted(range, ranges[1..]);
      InsertedPermutes(range, ranges[1..]);
      forall x | x in rest ensures Below(ranges[0], x) {
        assert x in multiset(rest);
        assert x == range || x in ranges[1..];
      }
    }
  }

  lemma {:induction false} SortingSorts(ranges: seq<Range>)
    ensures Sorted(SortedRanges(ranges))
    ensures multiset(SortedRanges(ranges)) == multiset(ranges)
  {
    if ranges != [] {
      SortingSorts(ranges[1..]);
      InsertedIsSorted(ranges[0], SortedRanges(ranges[1..]));
      InsertedPermutes(ranges[0], SortedRanges(ranges[1..]));
      assert ranges == [ranges[0]] + ranges[1..];
    }
  }

  lemma SameElements(a: seq<Range>, b: seq<Range>)
    requires multiset(a) == multiset(b)
    ensures AllValid(a) <==> AllValid(b)
    ensures forall n :: InSome(a, n) <==> InSome(b, n)
  {
    assert forall x :: x in a <==> x in multiset(a);
    assert forall x :: x in b <==> x in multiset(b);
  }

  // ---------- merging ----------

  /** At least one number lies between two ranges. */
  predicate Apart(ranges: seq<Range>) {
    forall i, j :: 0 <= i < j < |ranges| ==> ranges[i].high + 1 < ranges[j].low
  }

  function SaturatingSuccessor(n: nat): nat {
    if n >= MAX then MAX else n + 1
  }

  lemma InSomeLast(ranges: seq<Range>, last: Range, n: nat)
    ensures InSome(ranges + [last], n) <==> InSome(ranges, n) || last.Has(n)
  {
    assert forall range :: range in ranges + [last] <==> range in ranges || range == last;
  }

  /** Joining two ranges that touch changes no member. */
  lemma JoinKeepsMembers(ranges: seq<Range>, last: Range, next: Range, n: nat)
    requires last.Valid() && next.Valid() && last.low <= next.low <= SaturatingSuccessor(last.high)
    ensures InSome(ranges + [Range(last.low, Max(last.high, next.high))], n)
            <==> InSome(ranges + [last], n) || next.Has(n)
  {
    InSomeLast(ranges, last, n);
    InSomeLast(ranges, Range(last.low, Max(last.high, next.high)), n);
  }

  ghost predicate SameMembers(a: seq<Range>, b: seq<Range>) {
    forall n :: InSome(a, n) <==> InSome(b, n)
  }

  /** Nothing of the merged ranges lies above the next range, which is at or above them all. */
  predicate Reached(merged: seq<Range>, low: nat) {
    forall range :: range in merged ==> range.low <= low
  }

  lemma JoinedIsApart(merged: seq<Range>, high: nat)
    requires Apart(merged) && AllValid(merged) && merged != [] && high <= MAX
    ensures var k := |merged| - 1;
            var joined := merged[..k] + [Range(merged[k].low, Max(merged[k].high, high))];
            Apart(joined) && AllValid(joined)
  {
    var k := |merged| - 1;
    assert merged[k] in merged && forall range :: range in merged[..k] ==> range in merged;
  }

  lemma AppendedIsApart(merged: seq<Range>, next: Range)
    requires Apart(merged) && AllValid(merged) && next.Valid()
    requires merged != [] ==> next.low > SaturatingSuccessor(merged[|merged| - 1].high)
    ensures Apart(merged + [next]) && AllValid(merged + [next])
  {
    if merged != [] { assert merged[|merged| - 1] in merged; }
  }

  method Merged(ranges: seq<Range>) returns (merged: seq<Range>)
    requires Sorted(ranges) && AllValid(ranges)
    ensures Apart(merged) && AllValid(merged)
    ensures SameMembers(merged, ranges)
  {
    merged := [];
    var i := 0;
    while i < |ranges|
      invariant 0 <= i <= |ranges|
      invariant Apart(merged) && AllValid(merged) && SameMembers(merged, ranges[..i])
      invariant i < |ranges| ==> Reached(merged, ranges[i].low)
    {
      var next := ranges[i];
      assert next in ranges;
      assert ranges[..i + 1] == ranges[..i] + [next];
      ghost var before := merged;
      if merged != [] && next.low <= SaturatingSuccessor(merged[|merged| - 1].high) {
        var k := |merged| - 1;
        var last := merged[k];
        assert last in before;
        merged := merged[..k] + [Range(last.low, Max(last.high, next.high))];
        assert before == before[..k] + [last];
        JoinedIsApart(before, next.high);
        forall n ensures InSome(merged, n) <==> InSome(ranges[..i + 1], n) {
          JoinKeepsMembers(before[..k], last, next, n);
          InSomeLast(ranges[..i], next, n);
        }
      } else {
        merged := merged + [next];
        AppendedIsApart(before, next);
        forall n ensures InSome(merged, n) <==> InSome(ranges[..i + 1], n) {
          InSomeLast(before, next, n);
          InSomeLast(ranges[..i], next, n);
        }
      }
      i := i + 1;
      assert i < |ranges| ==> Below(ranges[i - 1], ranges[i]);
    }
    assert ranges[..|ranges|] == ranges;
  }

  // ---------- the index ----------

  /** The ranges of the networks of one family, in their order. */
  function RangesOf(nets: seq<IpNet>, v4: bool): (r: seq<Range>) {
    if nets == [] then []
    else
      var last := nets[|nets| - 1];
      RangesOf(nets[..|nets| - 1], v4)
      + if last.addr.V4? == v4 then [Range(Network(last).bits, Broadcast(last).bits)] else []
  }

  lemma {:induction false} Pow2Adds(a: nat, b: nat)
    ensures Pow2(a + b) == Pow2(a) * Pow2(b)
  {
    if a > 0 {
      Pow2Adds(a - 1, b);
      assert 2 * (Pow2(a - 1) * Pow2(b)) == (2 * Pow2(a - 1)) * Pow2(b);
    }
  }

  lemma FloorStaysBelow(n: nat, size: nat, count: nat)
    requires size >= 1 && n < count * size
    ensures Floor(n, size) + size <= count * size
  {
    ProductIsMonotone(n / size, count, size);
    ProductIsMonotone(count, n / size, size);
  }

  lemma Pow2Of4()
    ensures Pow2(4) == 16
  {
  }

  lemma Pow2Of128()
    ensures Pow2(128) == MAX + 1 && Pow2(32) <= MAX
  {
    hide Pow2;
    Pow2Of4();
    Pow2Adds(4, 4);
    Pow2Adds(8, 8);
    Pow2Adds(16, 16);
    Pow2Adds(32, 32);
    Pow2Adds(64, 64);
  }

  /** The broadcast address of a valid network is an address. */
  lemma RangeIsValid(net: IpNet)
    requires ValidNet(net)
    ensures Range(Network(net).bits, Broadcast(net).bits).Valid()
  {
    var width := Width(net.addr);
    var size := Size(net.addr, net.prefix);
    Pow2Adds(net.prefix, width - net.prefix);
    FloorStaysBelow(net.addr.bits, size, Pow2(net.prefix));
    Pow2Of128();
  }

  lemma {:induction false} RangesOfNets(nets: seq<IpNet>, v4: bool, ip: Ip)
    requires forall net :: net in nets ==> ValidNet(net)
    ensures AllValid(RangesOf(nets, v4))
    ensures ip.V4? == v4 ==> (InSome(RangesOf(nets, v4), ip.bits) <==> SomeContains(nets, ip))
  {
    if nets != [] {
      var k := |nets| - 1;
      var last := nets[k];
      assert nets == nets[..k] + [last];
      RangesOfNets(nets[..k], v4, ip);
      assert SomeContains(nets, ip) <==> SomeContains(nets[..k], ip) || Contains(last, ip) by {
        assert forall net :: net in nets <==> net in nets[..k] || net == last;
      }
      ContainsIsInterval(last, ip);
      RangeIsValid(last);
      InSomeLast(RangesOf(nets[..k], v4), Range(Network(last).bits, Broadcast(last).bits), ip.bits);
      assert RangesOf(nets[..k], v4) + [] == RangesOf(nets[..k], v4);
    }
  }

  predicate ValidIndex(s: IpSet) {
    Apart(s.v4) && Apart(s.v6) && AllValid(s.v4) && AllValid(s.v6)
  }

  predicate Has(s: IpSet, ip: Ip) {
    InSome(if ip.V4? then s.v4 else s.v6, ip.bits) != s.inverse
  }

  method NewIpSet(nets: seq<IpNet>, inverse: bool) returns (s: IpSet)
    requires forall net :: net in nets ==> ValidNet(net)
    ensures ValidIndex(s)
    ensures forall ip: Ip :: Has(s, ip) <==> (SomeContains(nets, ip) != inverse)
  {
    var v4: seq<Range>, v6: seq<Range> := [], [];
    var i := 0;
    while i < |nets|
      invariant 0 <= i <= |nets|
      invariant v4 == RangesOf(nets[..i], true) && v6 == RangesOf(nets[..i], false)
    {
      var range := Range(Network(nets[i]).bits, Broadcast(nets[i]).bits);
      assert nets[..i + 1][..i] == nets[..i];
      if nets[i].addr.V4? { v4 := v4 + [range]; } else { v6 := v6 + [range]; }
      i := i + 1;
    }
    assert nets[..|nets|] == nets;
    RangesOfNets(nets, true, V4(0));
    RangesOfNets(nets, false, V4(0));
    SortingSorts(v4);
    SortingSorts(v6);
    SameElements(SortedRanges(v4), v4);
    SameElements(SortedRanges(v6), v6);
    var merged4 := Merged(SortedRanges(v4));
    var merged6 := Merged(SortedRanges(v6));
    s := IpSet(merged4, merged6, inverse);
    forall ip: Ip ensures Has(s, ip) <==> (SomeContains(nets, ip) != inverse) {
      RangesOfNets(nets, ip.V4?, ip);
    }
  }

  // ---------- the search ----------

  /** `partition_point(|r| r.0 <= n)`: the number of ranges that start at or below n. */
  method PartitionPoint(ranges: seq<Range>, n: nat) returns (i: nat)
    requires Apart(ranges) && AllValid(ranges)
    ensures i <= |ranges|
    ensures forall k :: 0 <= k < i ==> ranges[k].low <= n
    ensures forall k :: i <= k < |ranges| ==> ranges[k].low > n
  {
    var low, high := 0, |ranges|;
    while low < high
      invariant 0 <= low <= high <= |ranges|
      invariant forall k :: 0 <= k < low ==> ranges[k].low <= n
      invariant forall k :: high <= k < |ranges| ==> ranges[k].low > n
    {
      var middle := (low + high) / 2;
      assert ranges[middle] in ranges;
      if ranges[middle].low <= n {
        forall k | 0 <= k <= middle ensures ranges[k].low <= n { assert ranges[k] in ranges; }
        low := middle + 1;
      } else {
        high := middle;
      }
    }
    i := low;
  }

  /** Only the last range that starts at or below n can hold it. */
  lemma OnlyTheLastCanHold(ranges: seq<Range>, n: nat, i: nat)
    requires Apart(ranges) && AllValid(ranges) && i <= |ranges|
    requires forall k :: 0 <= k < i ==> ranges[k].low <= n
    requires forall k :: i <= k < |ranges| ==> ranges[k].low > n
    ensures InSome(ranges, n) <==> i > 0 && n <= ranges[i - 1].high
  {
    if i > 0 && n <= ranges[i - 1].high {
      assert ranges[i - 1] in ranges && ranges[i - 1].Has(n);
    }
    if InSome(ranges, n) {
      var k :| 0 <= k < |ranges| && ranges[k].Has(n);
      assert k < i;
    }
  }

  method Matches(s: IpSet, ip: Ip) returns (matched: bool)
    requires ValidIndex(s)
    ensures matched == Has(s, ip)
  {
    var ranges := if ip.V4? then s.v4 else s.v6;
    var i := PartitionPoint(ranges, ip.bits);
    OnlyTheLastCanHold(ranges, ip.bits, i);
    matched := (i > 0 && ip.bits <= ranges[i - 1].high) != s.inverse;
  }

  /** The index agrees with the scan for every list, every address and either value of `inverse`. */
  method IndexAgreesWithScan(nets: seq<IpNet>, inverse: bool, ip: Ip) returns (matched: bool)
    requires forall net :: net in nets ==> ValidNet(net)
    ensures matched <==> (SomeContains(nets, ip) != inverse)
  {
    var s := NewIpSet(nets, inverse);
    matched := Matches(s, ip);
  }
}
