/**
The fake-IP allocator of the resolver: two maps that stay inverse to each other, a counter for each
family, and the saved form that rebuilds all of it.
*/
module FakeIp {
  import opened Prelude
  import opened Addresses
  import opened Domains
  import IpSets

  type Key = (string, bool)        // host and whether the address is IPv6
  type Entry = (string, Ip)

  const CAPACITY := 32768

  /** Distance from the start of the pool. */
  function Offset(net: IpNet, ip: Ip): int {
    ip.bits - Network(net).bits
  }

  /** Addresses the pool gives out: never the first two, and no IPv4 broadcast address. */
  predicate InPool(net: IpNet, ip: Ip) {
    Contains(net, ip) && Offset(net, ip) >= 2 && (ip.V4? ==> ip != Broadcast(net))
  }

  predicate NamesPoint(byName: map<Key, Ip>, byIp: map<Ip, string>) {
    forall key :: key in byName ==> byName[key].V6? == key.1 && byName[key] in byIp && byIp[byName[key]] == key.0
  }

  predicate AddressesPoint(byName: map<Key, Ip>, byIp: map<Ip, string>) {
    forall ip :: ip in byIp ==> (byIp[ip], ip.V6?) in byName && byName[(byIp[ip], ip.V6?)] == ip
  }

  /** The two maps say the same. */
  predicate Inverse(byName: map<Key, Ip>, byIp: map<Ip, string>) {
    NamesPoint(byName, byIp) && AddressesPoint(byName, byIp)
  }

  /** Every address of the family is below the counter, which is no larger than that requires. */
  predicate Counted(net: IpNet, byIp: map<Ip, string>, next: nat) {
    && next >= 2
    && (forall ip :: ip in byIp && SameFamily(ip, net.addr) ==> InPool(net, ip) && Offset(net, ip) < next)
    && (next > 2 ==> exists ip :: ip in byIp && SameFamily(ip, net.addr) && Offset(net, ip) == next - 1)
  }

  /** `checked_add(1)` on a `u128` succeeds. */
  predicate Fits(net: IpNet, ip: Ip) {
    ip.V6? ==> Offset(net, ip) + 1 <= IpSets.MAX
  }

  predicate DistinctAddresses(entries: seq<Entry>) {
    forall i, j :: 0 <= i < j < |entries| ==> entries[i].1 != entries[j].1
  }

  function NameKey(e: Entry): Key {
    (Normalised(e.0), e.1.V6?)
  }

  predicate DistinctNames(entries: seq<Entry>) {
    forall i, j :: 0 <= i < j < |entries| ==> NameKey(entries[i]) != NameKey(entries[j])
  }

  /** The entries of the map, each once. */
  predicate Lists(entries: seq<Entry>, byIp: map<Ip, string>) {
    && |entries| == |byIp| && DistinctAddresses(entries)
    && forall e :: e in entries ==> e.1 in byIp && e.0 == byIp[e.1]
  }

  /** The map holds the entries under their normal names, and nothing else. */
  predicate Collects(entries: seq<Entry>, byIp: map<Ip, string>) {
    && (forall j :: 0 <= j < |entries| ==> entries[j].1 in byIp && byIp[entries[j].1] == Normalised(entries[j].0))
    && (forall ip :: ip in byIp ==> exists j :: 0 <= j < |entries| && entries[j].1 == ip)
  }

  datatype Saved = Saved(byName: map<Key, Ip>, byIp: map<Ip, string>, next4: nat, next6: nat)

  /** The maps are inverse, the counters count them, and the larger counter is a `u128`. */
  predicate Sound(range4: IpNet, range6: IpNet, s: Saved) {
    && Inverse(s.byName, s.byIp) && |s.byIp| == |s.byName| <= CAPACITY
    && Counted(range4, s.byIp, s.next4) && Counted(range6, s.byIp, s.next6) && s.next6 <= IpSets.MAX
  }

  class FakeMap {
    const range4: IpNet
    const range6: IpNet
    var byName: map<Key, Ip>
    var byIp: map<Ip, string>
    var next4: nat
    var next6: nat

    function Range(v6: bool): IpNet {
      if v6 then range6 else range4
    }

    predicate Ranges() {
      && range4.addr.V4? && IpSets.ValidNet(range4)
      && range6.addr.V6? && IpSets.ValidNet(range6)
    }

    predicate Valid()
      reads this
    {
      Ranges() && Sound(range4, range6, Saved(byName, byIp, next4, next6))
    }

    constructor (range4: IpNet, range6: IpNet)
      requires range4.addr.V4? && IpSets.ValidNet(range4) && range6.addr.V6? && IpSets.ValidNet(range6)
      ensures Valid() && this.range4 == range4 && this.range6 == range6 && byIp == map[]
    {
      this.range4, this.range6 := range4, range6;
      byName, byIp, next4, next6 := map[], map[], 2, 2;
    }

    /** The address the counter points at. */
    function Candidate(v6: bool): Ip
      reads this
    {
      if v6 then V6(Network(range6).bits + next6) else V4(Network(range4).bits + next4)
    }

    /** The request takes the last IPv6 address there is, and the counter has no successor. */
    predicate Overflows(host: string, v6: bool)
      reads this
    {
      && v6 && (host, v6) !in byName && |byName| < CAPACITY
      && next6 == IpSets.MAX && InPool(range6, Candidate(true))
    }

    /**
    A new address, where the pool and the capacity leave one; an old one stays as it is. The
    increment of the IPv6 counter wraps, and that is the only way to leave a valid state.
    */
    method FakeAddress(host: string, v6: bool) returns (r: Option<Ip>)
      requires Valid()
      modifies this
      ensures Valid() <==> !old(Overflows(host, v6))
      ensures range6.prefix >= 1 ==> Valid()
      ensures r.None? <==> (host, v6) !in old(byName) && (|old(byName)| >= CAPACITY || !InPool(Range(v6), old(Candidate(v6))))
      ensures r.None? ==> byName == old(byName) && byIp == old(byIp) && next4 == old(next4) && next6 == old(next6)
      ensures r.Some? && (host, v6) in old(byName) ==>
                r.value == old(byName)[(host, v6)]
                && byName == old(byName) && byIp == old(byIp) && next4 == old(next4) && next6 == old(next6)
      ensures r.Some? && (host, v6) !in old(byName) ==>
                && r.value == old(Candidate(v6)) && r.value !in old(byIp)
                && byName == old(byName)[(host, v6) := r.value] && byIp == old(byIp)[r.value := host]
                && next4 == old(next4) + (if v6 then 0 else 1)
                && next6 == (if !v6 then old(next6) else if old(next6) == IpSets.MAX then 0 else old(next6) + 1)
      ensures r.Some? ==> r.value in byIp && byIp[r.value] == host && r.value.V6? == v6 && InPool(Range(v6), r.value)
    {
      hide Inverse, Counted, Contains;
      var key := (host, v6);
      if key in byName {
        KnownIsPooled(key);
        return Some(byName[key]);
      }
      if |byName| >= CAPACITY { return None; }
      var ip := Candidate(v6);
      if !(Contains(Range(v6), ip) && (v6 || ip != Broadcast(range4))) { return None; }
      CandidateIsNew(ip, v6);
      InsertKeepsInverse(byName, byIp, key, ip);
      if v6 {
        CountedNext(range6, byIp, next6, ip, host);
        CountedOther(range4, byIp, next4, ip, host);
        if range6.prefix >= 1 { PoolFits(range6, ip); }
        ZeroCountsNothing(range6, byIp[ip := host]);
        next6 := if next6 == IpSets.MAX then 0 else next6 + 1;
      } else {
        CountedNext(range4, byIp, next4, ip, host);
        CountedOther(range6, byIp, next6, ip, host);
        next4 := next4 + 1;
      }
      byName, byIp := byName[key := ip], byIp[ip := host];
      r := Some(ip);
    }

    /** The name behind an address. */
    function Original(ip: Ip): Option<string>
      reads this
    {
      if ip in byIp then Some(byIp[ip]) else None
    }

    /** All entries, in the order of the hash map: any order. */
    method Export() returns (entries: seq<Entry>)
      ensures Lists(entries, byIp)
    {
      entries := [];
      var rest := byIp.Keys;
      while rest != {}
        invariant rest <= byIp.Keys && |entries| + |rest| == |byIp|
        invariant forall e :: e in entries ==> e.1 in byIp && e.1 !in rest && e.0 == byIp[e.1]
        invariant DistinctAddresses(entries)
        decreases |rest|
      {
        var ip :| ip in rest;
        rest := rest - {ip};
        entries := entries + [(byIp[ip], ip)];
      }
    }

    /** An entry that may be imported on its own; `named` is the syntax check of host names. */
    predicate GoodEntry(named: string -> bool, e: Entry) {
      named(e.0) && InPool(Range(e.1.V6?), e.1) && Fits(Range(e.1.V6?), e.1)
    }

    predicate Importable(named: string -> bool, entries: seq<Entry>) {
      && |entries| <= CAPACITY
      && (forall e :: e in entries ==> GoodEntry(named, e))
      && DistinctAddresses(entries) && DistinctNames(entries)
    }

    /** What the entries so far have become. */
    predicate Built(named: string -> bool, entries: seq<Entry>, s: Saved) {
      && Importable(named, entries) && Collects(entries, s.byIp)
      && Inverse(s.byName, s.byIp) && |s.byIp| == |s.byName| == |entries|
      && Counted(range4, s.byIp, s.next4) && Counted(range6, s.byIp, s.next6) && s.next6 <= IpSets.MAX
    }

    function Added(s: Saved, e: Entry): Saved {
      var key := NameKey(e);
      Saved(s.byName[key := e.1], s.byIp[e.1 := key.0],
            if e.1.V6? then s.next4 else Max(s.next4, Offset(range4, e.1) + 1),
            if e.1.V6? then Max(s.next6, Offset(range6, e.1) + 1) else s.next6)
    }

    /** All or nothing: the saved entries become the maps exactly when none is bad and none repeats. */
    method Import(named: string -> bool, entries: seq<Entry>) returns (ok: bool)
      requires Ranges()
      modifies this
      ensures ok <==> Importable(named, entries)
      ensures ok ==> Valid() && Collects(entries, byIp)
      ensures !ok ==> byName == old(byName) && byIp == old(byIp) && next4 == old(next4) && next6 == old(next6)
    {
      hide Built, GoodEntry, Importable, Added, Collects, Inverse, Counted, NameKey;
      BuiltEmpty(named, entries);
      if |entries| > CAPACITY { return false; }
      var s := Saved(map[], map[], 2, 2);
      var i := 0;
      while i < |entries|
        invariant 0 <= i <= |entries| && Built(named, entries[..i], s) && unchanged(this)
      {
        var e := entries[i];
        assert entries[..i + 1] == entries[..i] + [e];
        if !GoodEntry(named, e) || e.1 in s.byIp || NameKey(e) in s.byName {
          RefusedEntry(named, entries, i, s);
          return false;
        }
        BuiltStep(named, entries[..i], e, s);
        s := Added(s, e);
        i := i + 1;
      }
      assert entries[..|entries|] == entries;
      BuiltIsValid(named, entries, s);
      byName, byIp, next4, next6 := s.byName, s.byIp, s.next4, s.next6;
      ok := true;
    }

    lemma BuiltEmpty(named: string -> bool, entries: seq<Entry>)
      ensures Built(named, entries[..0], Saved(map[], map[], 2, 2))
      ensures |entries| > CAPACITY ==> !Importable(named, entries)
    {
    }

    lemma BuiltIsValid(named: string -> bool, entries: seq<Entry>, s: Saved)
      requires Built(named, entries, s)
      ensures Importable(named, entries) && Collects(entries, s.byIp)
      ensures Inverse(s.byName, s.byIp) && |s.byIp| == |s.byName| <= CAPACITY
      ensures Counted(range4, s.byIp, s.next4) && Counted(range6, s.byIp, s.next6) && s.next6 <= IpSets.MAX
    {
    }

    lemma BuiltStep(named: string -> bool, before: seq<Entry>, e: Entry, s: Saved)
      requires Ranges() && Built(named, before, s) && |before| < CAPACITY
      requires GoodEntry(named, e) && e.1 !in s.byIp && NameKey(e) !in s.byName
      ensures Built(named, before + [e], Added(s, e))
    {
      hide Importable, Collects, Inverse, Counted, GoodEntry;
      GoodIsPooled(named, e);
      AcceptedEntry(named, before, e, s.byName, s.byIp);
      InsertKeepsInverse(s.byName, s.byIp, NameKey(e), e.1);
      if e.1.V6? {
        CountedMax(range6, s.byIp, s.next6, e.1, Normalised(e.0));
        CountedOther(range4, s.byIp, s.next4, e.1, Normalised(e.0));
      } else {
        CountedMax(range4, s.byIp, s.next4, e.1, Normalised(e.0));
        CountedOther(range6, s.byIp, s.next6, e.1, Normalised(e.0));
      }
    }

    lemma RefusedEntry(named: string -> bool, entries: seq<Entry>, i: nat, s: Saved)
      requires i < |entries| && Built(named, entries[..i], s)
      requires !GoodEntry(named, entries[i]) || entries[i].1 in s.byIp || NameKey(entries[i]) in s.byName
      ensures !Importable(named, entries)
    {
      hide Counted, GoodEntry, NameKey, Inverse, Collects;
      var e := entries[i];
      assert e in entries;
      if e.1 in s.byIp {
        var j := EntryOfAddress(entries[..i], s.byIp, e.1);
        assert entries[j].1 == entries[i].1;
      } else if NameKey(e) in s.byName {
        var j := EntryOfName(entries[..i], s.byName, s.byIp, NameKey(e));
        assert NameKey(entries[j]) == NameKey(entries[i]);
      }
    }

    lemma GoodIsPooled(named: string -> bool, e: Entry)
      requires GoodEntry(named, e) && Ranges()
      ensures InPool(Range(e.1.V6?), e.1) && Fits(Range(e.1.V6?), e.1) && SameFamily(e.1, Range(e.1.V6?).addr)
    {
    }

    lemma AcceptedEntry(named: string -> bool, before: seq<Entry>, e: Entry, names: map<Key, Ip>, ips: map<Ip, string>)
      requires Importable(named, before) && Collects(before, ips) && Inverse(names, ips) && |before| < CAPACITY
      requires GoodEntry(named, e) && e.1 !in ips && NameKey(e) !in names
      ensures Importable(named, before + [e]) && Collects(before + [e], ips[e.1 := Normalised(e.0)])
    {
      hide Collects, Inverse, GoodEntry, NameKey;
      CollectsMore(before, e, ips);
      forall j | 0 <= j < |before| ensures before[j].1 != e.1 && NameKey(before[j]) != NameKey(e) {
        EntryIsTaken(before, names, ips, j);
      }
    }

    lemma KnownIsPooled(key: Key)
      requires Valid() && key in byName
      ensures var ip := byName[key]; ip in byIp && byIp[ip] == key.0 && ip.V6? == key.1 && InPool(Range(key.1), ip)
    {
    }

    lemma CandidateIsNew(ip: Ip, v6: bool)
      requires Valid() && ip == Candidate(v6)
      ensures ip !in byIp && ip.V6? == v6 && SameFamily(ip, Range(v6).addr)
      ensures Offset(Range(v6), ip) == (if v6 then next6 else next4) >= 2
    {
    }
  }

  lemma SizeAfter<K, V>(m: map<K, V>, key: K, value: V)
    requires key !in m
    ensures |m[key := value]| == |m| + 1
  {
    assert m[key := value].Keys == m.Keys + {key};
  }

  lemma InsertKeepsNames(byName: map<Key, Ip>, byIp: map<Ip, string>, key: Key, ip: Ip)
    requires NamesPoint(byName, byIp) && key !in byName && ip !in byIp && ip.V6? == key.1
    ensures NamesPoint(byName[key := ip], byIp[ip := key.0])
  {
  }

  lemma InsertKeepsAddresses(byName: map<Key, Ip>, byIp: map<Ip, string>, key: Key, ip: Ip)
    requires AddressesPoint(byName, byIp) && key !in byName && ip !in byIp && ip.V6? == key.1
    ensures AddressesPoint(byName[key := ip], byIp[ip := key.0])
  {
  }

  lemma InsertKeepsInverse(byName: map<Key, Ip>, byIp: map<Ip, string>, key: Key, ip: Ip)
    requires Inverse(byName, byIp) && |byIp| == |byName|
    requires key !in byName && ip !in byIp && ip.V6? == key.1
    ensures Inverse(byName[key := ip], byIp[ip := key.0])
    ensures |byIp[ip := key.0]| == |byName[key := ip]| == |byName| + 1
  {
    hide NamesPoint, AddressesPoint;
    InsertKeepsNames(byName, byIp, key, ip);
    InsertKeepsAddresses(byName, byIp, key, ip);
    SizeAfter(byName, key, ip);
    SizeAfter(byIp, ip, key.0);
  }

  lemma CountedNext(net: IpNet, byIp: map<Ip, string>, next: nat, ip: Ip, host: string)
    requires Counted(net, byIp, next) && SameFamily(ip, net.addr) && InPool(net, ip) && Offset(net, ip) == next
    ensures Counted(net, byIp[ip := host], next + 1)
  {
    assert ip in byIp[ip := host];
  }

  lemma ZeroCountsNothing(net: IpNet, byIp: map<Ip, string>)
    ensures !Counted(net, byIp, 0)
  {
  }

  lemma CountedOther(net: IpNet, byIp: map<Ip, string>, next: nat, ip: Ip, host: string)
    requires Counted(net, byIp, next) && !SameFamily(ip, net.addr)
    ensures Counted(net, byIp[ip := host], next)
  {
    var more := byIp[ip := host];
    if next > 2 {
      var last :| last in byIp && SameFamily(last, net.addr) && Offset(net, last) == next - 1;
      assert last in more;
    }
  }

  lemma EntryIsTaken(entries: seq<Entry>, names: map<Key, Ip>, ips: map<Ip, string>, j: nat)
    requires Collects(entries, ips) && Inverse(names, ips) && j < |entries|
    ensures entries[j].1 in ips && NameKey(entries[j]) in names
  {
  }

  lemma EntryOfAddress(entries: seq<Entry>, ips: map<Ip, string>, ip: Ip) returns (j: nat)
    requires Collects(entries, ips) && ip in ips
    ensures j < |entries| && entries[j].1 == ip
  {
    j :| 0 <= j < |entries| && entries[j].1 == ip;
  }

  lemma EntryOfName(entries: seq<Entry>, names: map<Key, Ip>, ips: map<Ip, string>, key: Key) returns (j: nat)
    requires Collects(entries, ips) && Inverse(names, ips) && key in names
    ensures j < |entries| && NameKey(entries[j]) == key
  {
    hide Normalised;
    j := EntryOfAddress(entries, ips, names[key]);
  }

  lemma CollectsMore(before: seq<Entry>, e: Entry, ips: map<Ip, string>)
    requires Collects(before, ips) && e.1 !in ips
    ensures Collects(before + [e], ips[e.1 := Normalised(e.0)])
  {
    var after := before + [e];
    assert after[|before|] == e;
    forall ip | ip in ips ensures exists j :: 0 <= j < |after| && after[j].1 == ip {
      var j :| 0 <= j < |before| && before[j].1 == ip;
      assert after[j].1 == ip;
    }
  }

  lemma CountedMax(net: IpNet, byIp: map<Ip, string>, next: nat, ip: Ip, host: string)
    requires Counted(net, byIp, next) && SameFamily(ip, net.addr) && InPool(net, ip) && ip !in byIp
    ensures Counted(net, byIp[ip := host], Max(next, Offset(net, ip) + 1))
  {
    var more := byIp[ip := host];
    assert ip in more;
    if next > 2 {
      var last :| last in byIp && SameFamily(last, net.addr) && Offset(net, last) == next - 1;
      assert last in more;
    }
  }

  lemma InverseIsUnique(a: map<Key, Ip>, b: map<Key, Ip>, byIp: map<Ip, string>)
    requires Inverse(a, byIp) && Inverse(b, byIp)
    ensures a == b
  {
    forall key | key in a ensures key in b && b[key] == a[key] { assert a[key] in byIp; }
    forall key | key in b ensures key in a { assert b[key] in byIp; }
  }

  lemma CountedIsUnique(net: IpNet, byIp: map<Ip, string>, a: nat, b: nat)
    requires Counted(net, byIp, a) && Counted(net, byIp, b)
    ensures a == b
  {
  }

  // ---------- there and back ----------

  /** The names in the map are in normal form and pass the syntax check. */
  predicate NormalNames(named: string -> bool, byIp: map<Ip, string>) {
    forall ip :: ip in byIp ==> Normalised(byIp[ip]) == byIp[ip] && named(byIp[ip])
  }

  /** An IPv6 pool of at least one prefix bit leaves room for the counter in a `u128`. */
  lemma PoolFits(net: IpNet, ip: Ip)
    requires IpSets.ValidNet(net) && net.addr.V6? && net.prefix >= 1 && Contains(net, ip)
    ensures Offset(net, ip) + 2 <= IpSets.MAX
  {
    ContainsIsInterval(net, ip);
    IpSets.Pow2Of128();
    IpSets.Pow2Adds(net.prefix, 128 - net.prefix);
    var size := Size(net.addr, net.prefix);
    assert Pow2(net.prefix) >= 2;
    ProductIsMonotone(2, Pow2(net.prefix), size);
  }

  /** With at least one prefix bit the counter always has a successor. */
  lemma CounterHasSuccessor(range4: IpNet, range6: IpNet, s: Saved)
    requires IpSets.ValidNet(range6) && range6.addr.V6? && range6.prefix >= 1 && Sound(range4, range6, s)
    ensures s.next6 < IpSets.MAX
  {
    if s.next6 > 2 {
      var last :| last in s.byIp && SameFamily(last, range6.addr) && Offset(range6, last) == s.next6 - 1;
      PoolFits(range6, last);
    }
  }

  /** A sound state of the pool ::/0 whose counter is at its end: one saved name at the last address but one. */
  lemma LastAddressIsSound(range4: IpNet, range6: IpNet, host: string) returns (s: Saved)
    requires IpSets.ValidNet(range6) && range6.addr.V6? && range6.prefix == 0 && range4.addr.V4?
    ensures Sound(range4, range6, s) && s.next6 == IpSets.MAX
    ensures s.byIp == map[V6(IpSets.MAX - 1) := host] && s.byName == map[(host, true) := V6(IpSets.MAX - 1)]
  {
    var ip := V6(IpSets.MAX - 1);
    WholeSpace(range6, ip);
    s := Saved(map[(host, true) := ip], map[ip := host], 2, IpSets.MAX);
    assert ip in s.byIp;
  }

  /** The pool ::/0 starts at zero and has every address. */
  lemma WholeSpace(net: IpNet, ip: Ip)
    requires IpSets.ValidNet(net) && net.addr.V6? && net.prefix == 0 && ip.V6? && ip.bits <= IpSets.MAX
    ensures Contains(net, ip) && Offset(net, ip) == ip.bits
  {
    hide Pow2, Floor;
    IpSets.Pow2Of128();
    FloorOfSmall(net.addr.bits, Size(net.addr, 0));
    FloorOfSmall(ip.bits, Size(net.addr, 0));
  }

  lemma FloorOfSmall(n: nat, size: nat)
    requires n < size
    ensures Floor(n, size) == 0
  {
    assert n / size == 0;
  }

  /** The allocator never runs its IPv6 counter over, in any sound state, exactly from one prefix bit on. */
  lemma NeverOverflowsIff(range4: IpNet, range6: IpNet)
    requires IpSets.ValidNet(range6) && range6.addr.V6? && range4.addr.V4?
    ensures range6.prefix >= 1 <==> forall s :: Sound(range4, range6, s) ==> s.next6 < IpSets.MAX
  {
    if range6.prefix >= 1 {
      forall s | Sound(range4, range6, s) ensures s.next6 < IpSets.MAX { CounterHasSuccessor(range4, range6, s); }
    } else {
      var s := LastAddressIsSound(range4, range6, "a");
    }
  }

  /** The run that shows it: a saved address one before the last, and one request. */
  method OverflowsOnWholeSpace(m: FakeMap, named: string -> bool) returns (r: Option<Ip>)
    requires m.Ranges() && m.range6.prefix == 0 && named("a")
    modifies m
    ensures r == Some(V6(IpSets.MAX)) && m.next6 == 0 && !m.Valid()
  {
    hide Contains, Network, Inverse, Counted;
    var ip := V6(IpSets.MAX - 1);
    WholeSpace(m.range6, ip);
    WholeSpace(m.range6, V6(IpSets.MAX));
    var entries := [("a", ip)];
    assert m.GoodEntry(named, entries[0]);
    var ok := m.Import(named, entries);
    OneCollected("a", ip, m.byIp);
    ghost var s := LastAddressIsSound(m.range4, m.range6, "a");
    CountedIsUnique(m.range6, m.byIp, m.next6, s.next6);
    InverseIsUnique(m.byName, s.byName, m.byIp);
    r := m.FakeAddress("b", true);
  }

  lemma OneCollected(host: string, ip: Ip, byIp: map<Ip, string>)
    requires Collects([(host, ip)], byIp) && host == "a"
    ensures byIp == map[ip := host]
  {
    assert Normalised("a") == "a";
    assert [(host, ip)][0].1 in byIp;
    forall other | other in byIp ensures other == ip {
      var j :| 0 <= j < 1 && [(host, ip)][j].1 == other;
    }
  }

  lemma {:induction false} ListHasAll(entries: seq<Entry>, ips: set<Ip>)
    requires DistinctAddresses(entries) && (forall e :: e in entries ==> e.1 in ips) && |entries| == |ips|
    ensures forall ip :: ip in ips ==> exists j :: 0 <= j < |entries| && entries[j].1 == ip
    decreases |entries|
  {
    if entries != [] {
      var k := |entries| - 1;
      var rest, last := entries[..k], entries[k];
      assert last in entries;
      forall e | e in rest ensures e.1 in ips - {last.1} {
        var j :| 0 <= j < k && entries[j] == e;
      }
      ListHasAll(rest, ips - {last.1});
      forall ip | ip in ips ensures exists j :: 0 <= j < |entries| && entries[j].1 == ip {
        if ip == last.1 {
          assert entries[k].1 == ip;
        } else {
          assert ip in ips - {last.1};
          var j :| 0 <= j < |rest| && rest[j].1 == ip;
          assert entries[j].1 == ip;
        }
      }
    }
  }

  /** What was listed and then collected is the map itself. */
  lemma ListedCollected(named: string -> bool, entries: seq<Entry>, a: map<Ip, string>, b: map<Ip, string>)
    requires Lists(entries, a) && Collects(entries, b) && NormalNames(named, a)
    ensures a == b
  {
    hide Normalised;
    ListHasAll(entries, a.Keys);
    assert a.Keys == b.Keys;
    forall ip | ip in a ensures a[ip] == b[ip] {
      var j :| 0 <= j < |entries| && entries[j].1 == ip;
      assert entries[j] in entries;
    }
  }

  lemma ListedIsImportable(m: FakeMap, named: string -> bool, entries: seq<Entry>)
    requires m.Valid() && Lists(entries, m.byIp) && NormalNames(named, m.byIp)
    ensures m.Importable(named, entries)
  {
    hide Normalised, Contains;
    forall e | e in entries ensures m.GoodEntry(named, e) {
      assert e.1 in m.byIp;
    }
    forall i, j | 0 <= i < j < |entries| ensures NameKey(entries[i]) != NameKey(entries[j]) {
      assert entries[i] in entries && entries[j] in entries;
    }
  }

  /** Importing an export rebuilds the same maps and the same counters. */
  method ExportThenImport(m: FakeMap, named: string -> bool) returns (ok: bool)
    requires m.Valid() && NormalNames(named, m.byIp)
    modifies m
    ensures ok && m.Valid()
    ensures m.byName == old(m.byName) && m.byIp == old(m.byIp)
    ensures m.next4 == old(m.next4) && m.next6 == old(m.next6)
  {
    hide Inverse, Counted, Lists, Collects, NormalNames;
    var entries := m.Export();
    ListedIsImportable(m, named, entries);
    ok := m.Import(named, entries);
    ListedCollected(named, entries, old(m.byIp), m.byIp);
    InverseIsUnique(m.byName, old(m.byName), m.byIp);
    CountedIsUnique(m.range4, m.byIp, m.next4, old(m.next4));
    CountedIsUnique(m.range6, m.byIp, m.next6, old(m.next6));
  }

  /** The answer belongs to the request, in both maps. */
  predicate Given(byName: map<Key, Ip>, byIp: map<Ip, string>, request: Key, answer: Option<Ip>) {
    answer.Some? ==>
      && request in byName && byName[request] == answer.value
      && answer.value in byIp && byIp[answer.value] == request.0 && answer.value.V6? == request.1
  }

  lemma GivenStays(byName: map<Key, Ip>, byIp: map<Ip, string>, key: Key, ip: Ip, request: Key, answer: Option<Ip>)
    requires Given(byName, byIp, request, answer) && key !in byName && ip !in byIp
    ensures Given(byName[key := ip], byIp[ip := key.0], request, answer)
  {
  }

  /**
  Any run of requests, up to one that would run the IPv6 counter over: an address that was given
  out still belongs to the name it was given to, so no address serves two names.
  */
  method Serve(m: FakeMap, requests: seq<Key>) returns (answers: seq<Option<Ip>>)
    requires m.Valid()
    modifies m
    ensures m.Valid() && |answers| <= |requests|
    ensures |answers| < |requests| ==> m.range6.prefix == 0 && m.Overflows(requests[|answers|].0, true)
    ensures forall i :: 0 <= i < |answers| ==> Given(m.byName, m.byIp, requests[i], answers[i])
    ensures forall i :: 0 <= i < |answers| && answers[i].Some? ==> m.Original(answers[i].value) == Some(requests[i].0)
    ensures forall i, j :: 0 <= i < |answers| && 0 <= j < |answers| && answers[i].Some? && answers[j].Some? ==>
              (answers[i] == answers[j] <==> requests[i] == requests[j])
  {
    hide Inverse, Counted, InPool;
    answers := [];
    while |answers| < |requests|
      invariant |answers| <= |requests| && m.Valid()
      invariant forall i :: 0 <= i < |answers| ==> Given(m.byName, m.byIp, requests[i], answers[i])
    {
      var request := requests[|answers|];
      if m.Overflows(request.0, request.1) {
        if m.range6.prefix >= 1 {
          CounterHasSuccessor(m.range4, m.range6, Saved(m.byName, m.byIp, m.next4, m.next6));
        }
        return;
      }
      hide Given;
      ghost var byName, byIp := m.byName, m.byIp;
      var answer := m.FakeAddress(request.0, request.1);
      forall i | 0 <= i < |answers| ensures Given(m.byName, m.byIp, requests[i], answers[i]) {
        if answer.Some? && request !in byName {
          GivenStays(byName, byIp, request, answer.value, requests[i], answers[i]);
        }
      }
      NowGiven(m, request, answer);
      answers := answers + [answer];
    }
  }

  lemma NowGiven(m: FakeMap, request: Key, answer: Option<Ip>)
    requires m.Valid()
    requires answer.Some? ==>
               answer.value in m.byIp && m.byIp[answer.value] == request.0 && answer.value.V6? == request.1
    ensures Given(m.byName, m.byIp, request, answer)
  {
  }
}
