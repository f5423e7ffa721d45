/**
The desktop route journal: a write-ahead log that must undo the system route
changes of a TUN session after a crash at any point.

Every write of the journal file, every change of the route table and every
change of the journal in memory is one step, and `history` keeps the state after
each of them. A crash is a return to one of these states with the journal in
memory lost; an error that ends a call leaves one of them with it kept.
*/
module RouteJournal {
  import opened Prelude
  import opened Addresses

  datatype Platform = Windows | Linux | MacOs

  datatype Interface = Interface(index: nat, name: string, gateway: Option<Ip>)

  datatype Spec = Spec(network: IpNet, interface: Interface)

  datatype Route = Route(destination: Ip, prefix: nat, ifIndex: Option<nat>,
                         gateway: Option<Ip>, metric: Option<nat>, table: nat)

  const JOURNAL_LIMIT := 4096

  predicate Unspecified(ip: Ip) {
    ip.bits == 0
  }

  /** The route that a specification asks the system to add. */
  function RouteOf(p: Platform, s: Spec): Route {
    Route(Network(s.network), s.network.prefix, Some(s.interface.index), s.interface.gateway,
          if p.MacOs? then None else Some(7), if p.Linux? then 254 else 0)
  }

  predicate Matches(p: Platform, s: Spec, r: Route) {
    && (p.MacOs? || r.metric == Some(7))
    && Network(s.network) == Masked(r.destination, r.prefix)
    && s.network.prefix == r.prefix
    && r.ifIndex == Some(s.interface.index)
    && s.interface.gateway
       == (if r.gateway.Some? && !Unspecified(r.gateway.value) then r.gateway else None)
  }

  /** What a caller can check before it asks for a route: no 0.0.0.0 or :: gateway. */
  predicate Recognisable(s: Spec) {
    s.interface.gateway.Some? ==> !Unspecified(s.interface.gateway.value)
  }

  /** A route as it was asked for: host bits cleared, an unspecified gateway dropped. */
  function Plainly(r: Route): Route {
    r.(destination := Masked(r.destination, r.prefix),
       gateway := if r.gateway.Some? && !Unspecified(r.gateway.value) then r.gateway else None)
  }

  /** Equal but for what a specification leaves to the system: the table, and on macOS the metric. */
  predicate SameRequest(p: Platform, a: Route, b: Route) {
    a.(table := b.table, metric := if p.MacOs? then b.metric else a.metric) == b
  }

  /**
  What a specification matches, said by the route it asks for: exactly the routes that are this
  one, for every route, and none if its gateway is unspecified.
  */
  lemma MatchesIff(p: Platform, s: Spec, r: Route)
    ensures Matches(p, s, r) <==> Recognisable(s) && SameRequest(p, Plainly(r), RouteOf(p, s))
  {
  }

  /** Two specifications that match one route ask for the same one. */
  lemma MatchersAgree(p: Platform, s: Spec, t: Spec, r: Route)
    requires Matches(p, s, r) && Matches(p, t, r)
    ensures RouteOf(p, s) == RouteOf(p, t)
    ensures s.interface.index == t.interface.index && s.interface.gateway == t.interface.gateway
    ensures Network(s.network) == Network(t.network) && s.network.prefix == t.network.prefix
  {
    MatchesIff(p, s, r);
    MatchesIff(p, t, r);
  }

  lemma MatchesItsOwnRoute(p: Platform, s: Spec)
    ensures Matches(p, s, RouteOf(p, s)) <==> Recognisable(s)
  {
    MaskedTwice(s.network.addr, s.network.prefix);
  }

  // ---------- what a completed restore would leave ----------

  predicate Owned(p: Platform, journal: seq<Spec>, r: Route) {
    exists s :: s in journal && Matches(p, s, r)
  }

  /** The route table, the journal file and the journal in memory. */
  datatype Moment = Moment(table: set<Route>, saved: seq<Spec>, memory: seq<Spec>)

  /** The table that a restore leaves when it starts from this durable state and completes. */
  function Restored(p: Platform, table: set<Route>, journal: seq<Spec>): set<Route> {
    set r | r in table && !Owned(p, journal, r)
  }

  /** The table without the routes of one specification. */
  function Unmatched(p: Platform, table: set<Route>, s: Spec): set<Route> {
    set r | r in table && !Matches(p, s, r)
  }

  /** Adding a route is undone by a restore exactly if the saved journal owns the route. */
  lemma AddIsUndoneIff(p: Platform, table: set<Route>, journal: seq<Spec>, r: Route)
    ensures Restored(p, table + {r}, journal) == Restored(p, table, journal)
            <==> r in table || Owned(p, journal, r)
  {
    if r !in table && !Owned(p, journal, r) {
      assert r in Restored(p, table + {r}, journal);
    } else {
      assert Restored(p, table + {r}, journal) == Restored(p, table, journal);
    }
  }

  /** Deleting a route keeps what a restore leaves exactly if the journal owns the route. */
  lemma DeleteIsHarmlessIff(p: Platform, table: set<Route>, journal: seq<Spec>, r: Route)
    requires r in table
    ensures Restored(p, table - {r}, journal) == Restored(p, table, journal)
            <==> Owned(p, journal, r)
  {
    if Owned(p, journal, r) {
      assert Restored(p, table - {r}, journal) == Restored(p, table, journal);
    } else {
      assert r in Restored(p, table, journal);
    }
  }

  /** The specification matches only routes that the journal owns already. */
  predicate MayGrow(p: Platform, table: set<Route>, journal: seq<Spec>, s: Spec) {
    forall r :: r in table && Matches(p, s, r) ==> Owned(p, journal, r)
  }

  lemma OwnedByMore(p: Platform, journal: seq<Spec>, s: Spec, r: Route)
    ensures Owned(p, journal + [s], r) <==> Owned(p, journal, r) || Matches(p, s, r)
  {
    hide Matches;
    if Owned(p, journal, r) {
      var t :| t in journal && Matches(p, t, r);
      assert t in journal + [s];
    }
    if Matches(p, s, r) { assert s in journal + [s]; }
  }

  /** A journal grows without changing what a restore leaves exactly by such a specification. */
  lemma GrowthIsHarmlessIff(p: Platform, table: set<Route>, journal: seq<Spec>, s: Spec)
    ensures Restored(p, table, journal + [s]) == Restored(p, table, journal) <==> MayGrow(p, table, journal, s)
  {
    hide Matches, Owned;
    forall r ensures Owned(p, journal + [s], r) <==> Owned(p, journal, r) || Matches(p, s, r) {
      OwnedByMore(p, journal, s, r);
    }
    if !MayGrow(p, table, journal, s) {
      var r :| r in table && Matches(p, s, r) && !Owned(p, journal, r);
      assert r in Restored(p, table, journal) && r !in Restored(p, table, journal + [s]);
    }
  }

  /** A specification may leave the journal once the table has no route that it matches. */
  lemma JournalMayForget(p: Platform, table: set<Route>, journal: seq<Spec>, s: Spec)
    requires forall r :: r in table ==> !Matches(p, s, r)
    ensures Restored(p, table, Without(journal, s)) == Restored(p, table, journal)
  {
    WithoutKeepsTheRest(journal, s);
    forall r | r in table
      ensures Owned(p, Without(journal, s), r) <==> Owned(p, journal, r)
    {
      if Owned(p, journal, r) {
        var t :| t in journal && Matches(p, t, r);
        assert t in Without(journal, s);
      }
    }
  }

  /** `retain(|r| r != &spec)`. */
  function Without(journal: seq<Spec>, s: Spec): (rest: seq<Spec>)
    ensures |rest| <= |journal|
  {
    if journal == [] then []
    else if journal[0] == s then Without(journal[1..], s)
    else [journal[0]] + Without(journal[1..], s)
  }

  lemma {:induction false} WithoutKeepsTheRest(journal: seq<Spec>, s: Spec)
    ensures forall t :: t in Without(journal, s) <==> t in journal && t != s
  {
    if journal != [] {
      WithoutKeepsTheRest(journal[1..], s);
      assert journal == [journal[0]] + journal[1..];
    }
  }

  // ---------- which calls of `apply` can be undone ----------

  predicate Missing(p: Platform, present: set<Route>, s: Spec) {
    forall r :: r in present ==> !Matches(p, s, r)
  }

  /** The route is there already, or both the file and the journal in memory own it. */
  predicate MayAdd(p: Platform, table: set<Route>, memory: seq<Spec>, saved: seq<Spec>, r: Route) {
    r in table || (Owned(p, memory, r) && Owned(p, saved, r))
  }

  /**
  What a caller can check before it calls `apply`. Each missing specification is looked at in
  turn: one that is in memory is added without another save, any other is journaled and saved
  first, where the journal has room.
  */
  predicate SafeAdds(p: Platform, present: set<Route>, table: set<Route>, memory: seq<Spec>, saved: seq<Spec>,
                     desired: seq<Spec>)
    decreases |desired|
  {
    desired != [] ==>
      var s, rest := desired[0], desired[1..];
      var r := RouteOf(p, s);
      if !Missing(p, present, s) then SafeAdds(p, present, table, memory, saved, rest)
      else if s in memory then
        MayAdd(p, table, memory, saved, r) && SafeAdds(p, present, table + {r}, memory, saved, rest)
      else if |memory| >= JOURNAL_LIMIT then true
      else
        var more := memory + [s];
        MayGrow(p, table, memory, s) && MayAdd(p, table, more, more, r) && SafeAdds(p, present, table + {r}, more, more, rest)
  }

  /** The part of it that one missing specification adds. */
  predicate SafeOne(p: Platform, table: set<Route>, memory: seq<Spec>, saved: seq<Spec>, s: Spec) {
    if s in memory then MayAdd(p, table, memory, saved, RouteOf(p, s))
    else if |memory| >= JOURNAL_LIMIT then true
    else MayGrow(p, table, memory, s) && MayAdd(p, table, memory + [s], memory + [s], RouteOf(p, s))
  }

  lemma SafeAddsStep(p: Platform, present: set<Route>, table: set<Route>, memory: seq<Spec>, saved: seq<Spec>, desired: seq<Spec>)
    requires desired != []
    ensures var s, rest := desired[0], desired[1..];
            var more := if s in memory then memory else memory + [s];
            SafeAdds(p, present, table, memory, saved, desired)
            <==> if !Missing(p, present, s) then SafeAdds(p, present, table, memory, saved, rest)
                 else SafeOne(p, table, memory, saved, s)
                      && ((s !in memory && |memory| >= JOURNAL_LIMIT)
                          || SafeAdds(p, present, table + {RouteOf(p, s)}, more, if s in memory then saved else more, rest))
  {
    hide MayAdd, MayGrow, Missing, RouteOf;
  }

  lemma SafeAddsNone(p: Platform, present: set<Route>, table: set<Route>, memory: seq<Spec>, saved: seq<Spec>)
    ensures SafeAdds(p, present, table, memory, saved, [])
  {
  }

  /**
  The ordinary case: no entry is in memory only, no gateway is unspecified, and every route that
  is not among the present ones was added before. Then every call can be undone.
  */
  lemma {:induction false} SyncedIsSafe(p: Platform, present: set<Route>, table: set<Route>, memory: seq<Spec>,
                                        saved: seq<Spec>, desired: seq<Spec>)
    requires forall s :: s in memory ==> s in saved
    requires forall s :: s in desired ==> Recognisable(s)
    requires forall r :: r in table && r !in present ==> Owned(p, memory, r)
    ensures SafeAdds(p, present, table, memory, saved, desired)
    decreases |desired|
  {
    hide Matches, RouteOf, Recognisable;
    if desired != [] {
      var s, rest := desired[0], desired[1..];
      var r := RouteOf(p, s);
      MatchesItsOwnRoute(p, s);
      if !Missing(p, present, s) {
        SyncedIsSafe(p, present, table, memory, saved, rest);
      } else if s in memory {
        SyncedIsSafe(p, present, table + {r}, memory, saved, rest);
      } else {
        var more := memory + [s];
        forall q ensures Owned(p, more, q) <==> Owned(p, memory, q) || Matches(p, s, q) { OwnedByMore(p, memory, s, q); }
        SyncedIsSafe(p, present, table + {r}, more, more, rest);
      }
    }
  }

  /**
  A specification with an unspecified gateway does not match its own route, so its call can be
  undone exactly if the route is there or another entry of the journal owns it.
  */
  lemma UnspecifiedGatewaySafeIff(p: Platform, table: set<Route>, journal: seq<Spec>, s: Spec)
    requires !Recognisable(s) && Missing(p, table, s) && s !in journal && |journal| < JOURNAL_LIMIT
    ensures SafeAdds(p, table, table, journal, journal, [s]) <==> RouteOf(p, s) in table || Owned(p, journal, RouteOf(p, s))
  {
    MatchesItsOwnRoute(p, s);
    OwnedByMore(p, journal, s, RouteOf(p, s));
    assert SafeAdds(p, table, table + {RouteOf(p, s)}, journal + [s], journal + [s], [s][1..]);
  }

  /**
  Why an `apply` after a failed save can leak: the specification is in memory only. The first call
  can be undone; if its save fails and leaves the file as it was, the second call adds the route
  without another save, and a crash then leaves it in the table.
  */
  lemma ApplyAfterFailedSaveLeaks(p: Platform, table: set<Route>, s: Spec)
    requires Recognisable(s) && Missing(p, table, s)
    ensures SafeAdds(p, table, table, [], [], [s])
    ensures !SafeAdds(p, table, table, [s], [], [s])
    ensures Restored(p, table, []) == table && Restored(p, table + {RouteOf(p, s)}, []) == table + {RouteOf(p, s)} != table
  {
    MatchesItsOwnRoute(p, s);
    SyncedIsSafe(p, table, table, [], [], [s]);
    assert !Owned(p, [], RouteOf(p, s));
  }

  // ---------- what `apply` should leave ----------

  ghost function Added(p: Platform, present: set<Route>, desired: seq<Spec>): set<Route> {
    set s | s in desired && Missing(p, present, s) :: RouteOf(p, s)
  }

  /** The present routes and the missing ones, without those of an obsolete specification. */
  ghost function Applied(p: Platform, present: set<Route>, journal: seq<Spec>, desired: seq<Spec>): set<Route> {
    set r | r in present + Added(p, present, desired)
            && !Obsolete(p, journal, desired, r)
  }

  /** A journaled specification that is no longer desired matches the route. */
  ghost predicate Obsolete(p: Platform, journal: seq<Spec>, desired: seq<Spec>, r: Route) {
    exists s :: s in journal && s !in desired && Matches(p, s, r)
  }

  /** A specification matches the route of another only if both ask for the same. */
  lemma MatchesOther(p: Platform, s: Spec, t: Spec)
    requires Recognisable(s) && Recognisable(t)
    ensures Matches(p, s, RouteOf(p, t)) <==> RouteOf(p, s) == RouteOf(p, t)
  {
    MatchesItsOwnRoute(p, t);
    MatchesItsOwnRoute(p, s);
    if Matches(p, s, RouteOf(p, t)) { MatchersAgree(p, s, t, RouteOf(p, t)); }
  }

  /**
  The exit moves: the routes of the specifications no longer desired go and those of the desired
  ones come, whatever else is in the table.
  */
  lemma ExitMoves(p: Platform, others: set<Route>, a: Spec, b: Spec)
    requires Recognisable(a) && Recognisable(b) && RouteOf(p, a) != RouteOf(p, b)
    requires forall r :: r in others ==> !Matches(p, a, r) && !Matches(p, b, r)
    ensures Applied(p, others + {RouteOf(p, a)}, [a], [b]) == others + {RouteOf(p, b)}
  {
    hide Matches, RouteOf;
    MatchesOther(p, a, b);
    MatchesOther(p, b, a);
    MatchesOther(p, a, a);
    var present := others + {RouteOf(p, a)};
    assert Missing(p, present, b);
    assert Added(p, present, [b]) == {RouteOf(p, b)} by {
      assert b in [b];
    }
    assert a != b;
    forall r | r in present + {RouteOf(p, b)} ensures Obsolete(p, [a], [b], r) <==> r == RouteOf(p, a) {
      if r == RouteOf(p, a) { assert a in [a] && a !in [b] && Matches(p, a, r); }
    }
  }

  // ---------- the transaction ----------

  /** A restore leaves the original, in this process or, from the file, in the next. */
  predicate Good(p: Platform, m: Moment, original: set<Route>) {
    && Restored(p, m.table, m.saved) == original && Restored(p, m.table, m.memory) == original
    && |m.saved| <= JOURNAL_LIMIT && |m.memory| <= JOURNAL_LIMIT
  }

  datatype Command = Apply(desired: seq<Spec>) | Restore | Crash(at: nat)

  class Transaction {
    const platform: Platform
    var routes: seq<Spec>              // the journal in memory
    var saved: seq<Spec>               // the journal file; a missing file is an empty journal
    var table: set<Route>              // the system route table
    var history: seq<Moment>           // the state after each step, for `Crash`

    function Now(): Moment
      reads this
    {
      Moment(table, saved, routes)
    }

    predicate AllGood(original: set<Route>)
      reads this
    {
      forall h :: h in history ==> Good(platform, h, original)
    }

    /** Whatever instant a failure or a crash picks, a restore from there leaves `original`. */
    predicate Consistent(original: set<Route>)
      reads this
    {
      Now() in history && AllGood(original)
    }

    /** Every specification in memory is also on disk: no save has failed since. */
    predicate Synced()
      reads this
    {
      forall s :: s in routes ==> s in saved
    }

    /** The exact condition under which `Apply` can be undone at every step. */
    predicate SafeToApply(desired: seq<Spec>)
      reads this
    {
      SafeAdds(platform, table, table, routes, saved, desired)
    }

    constructor (platform: Platform, table: set<Route>)
      ensures Consistent(table) && Synced()
      ensures this.platform == platform && this.table == table && routes == saved == []
      ensures history == [Moment(table, [], [])]
    {
      this.platform, this.table := platform, table;
      routes, saved, history := [], [], [Moment(table, [], [])];
    }

    /** A failed save may have renamed the new file into place or not. */
    method Save(ghost original: set<Route>) returns (ok: bool)
      requires Now() in history
      modifies `saved, `history
      ensures Now() in history && old(history) <= history
      ensures AllGood(original) == old(AllGood(original))
      ensures saved == routes || (!ok && saved == old(saved))
    {
      hide Restored;
      ok := *;
      var renamed: bool := *;
      if ok || renamed {
        saved := routes;
        history := history + [Now()];
      }
    }

    /** Pushes a specification to the journal in memory. */
    method Push(spec: Spec, ghost original: set<Route>)
      requires Now() in history && |routes| < JOURNAL_LIMIT
      modifies `routes, `history
      ensures Now() in history && old(history) <= history
      ensures AllGood(original) <==> old(AllGood(original)) && MayGrow(platform, table, old(routes), spec)
      ensures routes == old(routes) + [spec]
    {
      hide Restored, MayGrow;
      GrowthIsHarmlessIff(platform, table, routes, spec);
      routes := routes + [spec];
      history := history + [Now()];
      assert Now() in history && forall h :: h in history <==> h in old(history) || h == Now();
    }

    /** A failed add may have added the route or not. */
    method Add(r: Route, ghost original: set<Route>) returns (ok: bool)
      requires Now() in history
      modifies `table, `history
      ensures Now() in history && old(history) <= history
      ensures AllGood(original) ==> old(AllGood(original))
      ensures old(AllGood(original)) && MayAdd(platform, old(table), routes, saved, r) ==> AllGood(original)
      ensures ok && !MayAdd(platform, old(table), routes, saved, r) ==> !AllGood(original)
      ensures table == old(table) + {r} || (!ok && table == old(table))
    {
      hide Restored, Owned;
      ok := *;
      var added: bool := *;
      if ok || added {
        AddIsUndoneIff(platform, table, saved, r);
        AddIsUndoneIff(platform, table, routes, r);
        table := table + {r};
        history := history + [Now()];
      }
    }

    /** A failed delete may have deleted the route or not. */
    method Delete(r: Route, ghost original: set<Route>) returns (ok: bool)
      requires Now() in history && r in table
      modifies `table, `history
      ensures Now() in history && old(history) <= history
      ensures old(AllGood(original)) && Owned(platform, routes, r) ==> AllGood(original)
      ensures table == old(table) - {r} || (!ok && table == old(table))
    {
      ok := *;
      var deleted: bool := *;
      if ok || deleted {
        assert AllGood(original) && Owned(platform, routes, r) ==> r !in Restored(platform, table, saved);
        DeleteIsHarmlessIff(platform, table, saved, r);
        DeleteIsHarmlessIff(platform, table, routes, r);
        hide Restored, Owned;
        table := table - {r};
        history := history + [Now()];
      }
    }

    /** Every route that the specification matches is one that the journal owns. */
    predicate Claims(spec: Spec)
      reads this
    {
      MayGrow(platform, table, routes, spec)
    }

    method Remove(spec: Spec, ghost original: set<Route>) returns (ok: bool)
      requires Now() in history
      modifies `table, `history
      ensures Now() in history && old(history) <= history
      ensures old(AllGood(original) && Claims(spec)) ==> AllGood(original)
      ensures if ok then table == Unmatched(platform, old(table), spec)
              else Unmatched(platform, old(table), spec) <= table <= old(table)
    {
      hide Owned, Matches, Good;
      ok := *;          // the listing itself may fail
      if !ok { return; }
      var listed := set r | r in table && Matches(platform, spec, r);
      while listed != {}
        invariant Now() in history && old(history) <= history
        invariant old(AllGood(original) && Claims(spec)) ==> AllGood(original)
        invariant Unmatched(platform, old(table), spec) <= table <= old(table)
        invariant listed == set r | r in table && Matches(platform, spec, r)
        decreases |listed|
      {
        var r :| r in listed;
        ok := Delete(r, original);
        if !ok { return; }
        listed := listed - {r};
      }
      assert forall r :: r in table && Matches(platform, spec, r) ==> r in listed;
    }

    /**
    Removes the routes of a specification and then the specification itself. The order
    matters: the file forgets a specification only when the table has no route of it.
    */
    method Retire(spec: Spec, ghost original: set<Route>) returns (ok: bool)
      requires Now() in history
      modifies `table, `history, `routes, `saved
      ensures Now() in history && old(history) <= history
      ensures old(AllGood(original) && Claims(spec)) ==> AllGood(original)
      ensures ok ==> routes == saved == Without(old(routes), spec)
      ensures ok ==> table == Unmatched(platform, old(table), spec)
    {
      hide Owned, Matches;
      ok := Remove(spec, original);
      if !ok { return; }
      JournalMayForget(platform, table, routes, spec);
      hide Restored;
      routes := Without(routes, spec);
      history := history + [Now()];
      ok := Save(original);
    }

    method Restore(ghost original: set<Route>) returns (ok: bool)
      requires Consistent(original)
      modifies `table, `history, `routes, `saved
      ensures Consistent(original)
      ensures ok ==> table == original && routes == saved == []
      ensures old(history) <= history
    {
      var journal := routes;
      var i := |journal|;
      while i > 0
        invariant 0 <= i <= |journal|
        invariant Consistent(original) && old(history) <= history
        invariant forall s :: s in routes ==> s in journal[..i]
        invariant forall s :: s in journal[..i] && s !in routes ==> Claims(s)
      {
        i := i - 1;
        var spec := journal[i];
        ghost var before, listed := routes, table;
        assert journal[..i + 1] == journal[..i] + [spec];
        ok := Retire(spec, original);
        if !ok { return; }
        WithoutKeepsTheRest(before, spec);
        forall s | s in journal[..i] && s !in routes ensures Claims(s) {
          ClaimSurvives(before, spec, s);
        }
      }
      SomeElement(routes);
      assert Restored(platform, table, routes) == table;
      // Removing the journal file may fail or be cut short.
      ok := *;
      var removed: bool := *;
      if ok || removed {
        saved := [];
        history := history + [Now()];
      }
    }

    /**
    Brings the table to the desired routes. `present` is listed once, before the first add. On
    success the whole new state is known. A call that is safe can be undone from every instant,
    whatever step fails; one that is not, and succeeds, went through an instant from which it
    cannot be undone.
    */
    method Apply(desired: seq<Spec>, ghost original: set<Route>) returns (ok: bool)
      requires Consistent(original)
      modifies `table, `history, `routes, `saved
      ensures old(SafeToApply(desired)) ==> Consistent(original)
      ensures ok && !old(SafeToApply(desired)) ==> !AllGood(original)
      ensures Now() in history && old(history) <= history
      ensures ok && old(Synced()) ==> Synced()
      ensures ok ==> forall s :: s in routes <==> s in desired && (s in old(routes) || Missing(platform, old(table), s))
      ensures ok ==> table == Applied(platform, old(table), old(routes), desired)
    {
      hide SafeAdds, Good, Matches, Missing, RouteOf;
      ok := *;          // the listing may fail
      if !ok { return; }
      var present := table;
      ok := AddMissing(desired, present, original);
      if !ok { return; }
      ok := RetireObsolete(desired, original);
      assert ok ==> table == Applied(platform, present, old(routes), desired);
    }

    /** The exit interface changes: the route on the new one is there, and the one on the old one is gone. */
    method MoveExit(a: Spec, b: Spec, ghost others: set<Route>, ghost original: set<Route>) returns (ok: bool)
      requires Consistent(original) && routes == saved == [a] && table == others + {RouteOf(platform, a)}
      requires Recognisable(a) && Recognisable(b) && a.network == b.network && a.interface.index != b.interface.index
      requires forall r :: r in others ==> !Matches(platform, a, r) && !Matches(platform, b, r)
      modifies `table, `history, `routes, `saved
      ensures Consistent(original)
      ensures ok ==> table == others + {RouteOf(platform, b)} && forall s :: s in routes <==> s == b
    {
      ExitMoves(platform, others, a, b);
      OrdinaryCallsAreSafe([b]);
      ok := Apply([b], original);
      if ok { MatchesOther(platform, b, a); }
    }

    /** The first loop of `apply`: journal, save, then add each route that is missing. */
    method AddMissing(desired: seq<Spec>, present: set<Route>, ghost original: set<Route>) returns (ok: bool)
      requires Consistent(original) && table == present
      modifies `table, `history, `routes, `saved
      ensures old(SafeToApply(desired)) ==> AllGood(original)
      ensures ok && !old(SafeToApply(desired)) ==> !AllGood(original)
      ensures Now() in history && old(history) <= history
      ensures ok && old(Synced()) ==> Synced()
      ensures ok ==> old(routes) <= routes
      ensures ok ==> forall s :: s in routes <==> s in old(routes) || (s in desired && Missing(platform, present, s))
      ensures ok ==> table == present + Added(platform, present, desired)
    {
      hide Matches, RouteOf, Missing, Good, SafeAdds, SafeOne;
      var i := 0;
      assert desired[0..] == desired;
      while i < |desired|
        invariant 0 <= i <= |desired|
        invariant Now() in history && old(history) <= history
        invariant old(SafeToApply(desired))
                  <==> AllGood(original) && SafeAdds(platform, present, table, routes, saved, desired[i..])
        invariant old(Synced()) ==> Synced()
        invariant old(routes) <= routes
        invariant forall s :: s in routes <==> s in old(routes) || (s in desired[..i] && Missing(platform, present, s))
        invariant table == present + Added(platform, present, desired[..i])
      {
        var spec := desired[i];
        assert desired[..i + 1] == desired[..i] + [spec];
        assert desired[i..][0] == spec && desired[i..][1..] == desired[i + 1..];
        SafeAddsStep(platform, present, table, routes, saved, desired[i..]);
        if Missing(platform, present, spec) {
          ok := AddOne(spec, original);
          if !ok { return; }
        }
        i := i + 1;
      }
      assert desired[..i] == desired && desired[i..] == [];
      SafeAddsNone(platform, present, table, routes, saved);
      ok := true;
    }

    /** One missing specification. */
    method AddOne(spec: Spec, ghost original: set<Route>) returns (ok: bool)
      requires Now() in history
      modifies `table, `history, `routes, `saved
      ensures Now() in history && old(history) <= history
      ensures AllGood(original) ==> old(AllGood(original))
      ensures old(AllGood(original) && SafeOne(platform, table, routes, saved, spec)) ==> AllGood(original)
      ensures ok && !old(SafeOne(platform, table, routes, saved, spec)) ==> !AllGood(original)
      ensures ok ==> (spec in old(routes) || |old(routes)| < JOURNAL_LIMIT) && table == old(table) + {RouteOf(platform, spec)}
      ensures ok ==> routes == (if spec in old(routes) then old(routes) else old(routes) + [spec])
      ensures ok ==> saved == if spec in old(routes) then old(saved) else routes
    {
      hide Good, Matches, RouteOf, MayAdd, MayGrow;
      if spec !in routes {
        if |routes| >= JOURNAL_LIMIT { return false; }
        Push(spec, original);
        ok := Save(original);
        if !ok { return; }
      }
      ok := Add(RouteOf(platform, spec), original);
    }

    /** The second loop of `apply`: retire the journaled specifications that are not desired. */
    method RetireObsolete(desired: seq<Spec>, ghost original: set<Route>) returns (ok: bool)
      requires Now() in history
      modifies `table, `history, `routes, `saved
      ensures Now() in history && old(history) <= history
      ensures AllGood(original) <==> old(AllGood(original))
      ensures ok && old(Synced()) ==> Synced()
      ensures ok ==> forall s :: s in routes <==> s in old(routes) && s in desired
      ensures ok ==> forall r :: r in table <==> r in old(table) && !Obsolete(platform, old(routes), desired, r)
    {
      hide Good, Matches;
      var journal, i := routes, 0;
      while i < |journal|
        invariant 0 <= i <= |journal|
        invariant Now() in history && old(history) <= history
        invariant AllGood(original) <==> old(AllGood(original))
        invariant old(Synced()) ==> Synced()
        invariant forall s :: s in routes <==> s in journal && (s in desired || s !in journal[..i])
        invariant forall r :: r in table <==> r in old(table) && !Obsolete(platform, journal[..i], desired, r)
      {
        var spec := journal[i];
        assert journal[..i + 1] == journal[..i] + [spec];
        if spec !in desired {
          ghost var before := routes;
          ok := Retire(spec, original);
          if !ok { return; }
          WithoutKeepsTheRest(before, spec);
        }
        i := i + 1;
      }
      assert journal[..i] == journal;
      ok := true;
    }

    /** The process dies after some step, and the next one opens the journal file. */
    method Crash(at: nat, ghost original: set<Route>)
      requires Consistent(original) && at < |history|
      modifies `table, `routes, `saved, `history
      ensures Consistent(original) && Synced() && old(history) <= history
      ensures table == old(history)[at].table && routes == saved == old(history)[at].saved
    {
      var h := history[at];
      assert h in history;
      table, saved, routes := h.table, h.saved, h.saved;
      history := history + [Now()];
    }

    /**
    Any run of commands from an empty journal, with any failures inside them and any crashes,
    and then one restore. From every instant on the way a restore leaves the table of the start,
    in the same process or in the next, and so does the final restore if it completes. An `apply`
    is issued whenever it is safe, which is whenever no save has failed and no gateway is
    unspecified, and beyond.
    */
    method RunThenRecover(commands: seq<Command>) returns (ok: bool)
      requires routes == saved == [] && history == [Moment(table, [], [])]
      modifies `table, `history, `routes, `saved
      ensures forall h :: h in history ==>
                Restored(platform, h.table, h.saved) == old(table) && Restored(platform, h.table, h.memory) == old(table)
      ensures ok ==> table == old(table) && routes == saved == []
    {
      ghost var original := table;
      assert Restored(platform, table, []) == original;
      for i := 0 to |commands|
        invariant Consistent(original)
      {
        match commands[i]
        case Apply(desired) =>
          if SafeToApply(desired) { ok := Apply(desired, original); }
        case Restore =>
          ok := Restore(original);
        case Crash(at) =>
          Crash(at % |history|, original);
      }
      ok := Restore(original);
    }

    /** No entry in memory only and no unspecified gateway: every such call is safe. */
    lemma OrdinaryCallsAreSafe(desired: seq<Spec>)
      requires Synced() && forall s :: s in desired ==> Recognisable(s)
      ensures SafeToApply(desired)
    {
      SyncedIsSafe(platform, table, table, routes, saved, desired);
    }

    /** After a retirement, what a specification matches is still owned or gone. */
    lemma ClaimSurvives(before: seq<Spec>, spec: Spec, s: Spec)
      requires routes == Without(before, spec)
      requires forall r :: r in table ==> !Matches(platform, spec, r)
      requires s in before || forall r :: r in table && Matches(platform, s, r) ==> Owned(platform, before, r)
      ensures Claims(s)
    {
      WithoutKeepsTheRest(before, spec);
      forall r | r in table && Matches(platform, s, r)
        ensures Owned(platform, routes, r)
      {
        var t :| t in before && Matches(platform, t, r);
        assert t in routes;
      }
    }
  }
}
