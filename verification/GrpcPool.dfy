/**
The pool of gRPC connections under one key, as a state machine over the steps of concurrent
`connect` calls, stream drops and connection losses. The creation guard of the key is held from
the first look at the pool until a sender is ready.
*/
module GrpcPool {
  import opened Prelude

  datatype Options = Options(maxConnections: nat, minStreams: nat, maxStreams: nat)

  datatype Caller =
    | Waiting                  // for the guard
    | Choosing                 // at the head of the loop, with the guard
    | Chosen(id: nat)          // `pooled` gave a connection, no lease yet
    | Readying(id: nat)        // has a lease on it, waits until it is ready
    | Stale(id: nat)           // it failed and was removed; the lease is still there
    | Dialing                  // `pooled` gave nothing
    | Pushed(id: nat)          // the new connection is in the pool, no lease yet
    | ReadyingNew(id: nat)
    | Sending(id: nat)         // the guard is gone, the lease is there
    | Open(id: nat)            // the lease went over to the stream
    | Over

  /** Connections are numbered as they are made; `active` is indexed by that number. */
  datatype State = State(callers: seq<Caller>, guard: Option<nat>, pool: seq<nat>, active: seq<nat>)

  datatype Action =
    | Call
    | Enter(t: nat)
    | Pick(t: nat)
    | Lease(t: nat)
    | IsReady(t: nat)
    | NotReady(t: nat)
    | DropStale(t: nat)
    | Dialed(t: nat)
    | LeaseNew(t: nat)
    | NewIsReady(t: nat)
    | Sent(t: nat)
    | GiveUp(t: nat)           // an error or a cancellation at a point where one can happen
    | Close(t: nat)            // the stream is dropped
    | Lose(id: nat)            // the driver of the connection removes it

  const INITIAL := State([], None, [], [])

  // ---------- which connection is reused ----------

  predicate ReuseLeastLoaded(load: nat, connections: nat, o: Options) {
    if load == 0 then true
    else if o.maxConnections > 0 then connections >= o.maxConnections || load < o.minStreams
    else o.maxStreams == 0 || load < o.maxStreams
  }

  /** The first connection with the smallest load. */
  function Least(pool: seq<nat>, active: seq<nat>): (id: nat)
    requires pool != [] && forall i :: i in pool ==> i < |active|
    ensures id in pool && forall i :: i in pool ==> active[id] <= active[i]
  {
    if |pool| == 1 then pool[0]
    else
      assert pool[0] in pool && forall i :: i in pool[1..] ==> i in pool;
      var rest := Least(pool[1..], active);
      if active[pool[0]] <= active[rest] then pool[0] else rest
  }

  function Pooled(s: State, o: Options): Option<nat>
    requires forall i :: i in s.pool ==> i < |s.active|
  {
    if s.pool == [] then None
    else
      var id := Least(s.pool, s.active);
      if ReuseLeastLoaded(s.active[id], |s.pool|, o) then Some(id) else None
  }

  /** When a call dials, in terms of every connection of the pool; and otherwise it takes a least loaded one. */
  lemma DialsIff(s: State, o: Options)
    requires forall i :: i in s.pool ==> i < |s.active|
    ensures Pooled(s, o).None? <==>
              || s.pool == []
              || (o.maxConnections > 0 && |s.pool| < o.maxConnections
                  && forall i :: i in s.pool ==> s.active[i] > 0 && s.active[i] >= o.minStreams)
              || (o.maxConnections == 0 && o.maxStreams > 0 && forall i :: i in s.pool ==> s.active[i] >= o.maxStreams)
    ensures Pooled(s, o).Some? ==>
              var id := Pooled(s, o).value; id in s.pool && forall i :: i in s.pool ==> s.active[id] <= s.active[i]
  {
    if s.pool != [] {
      var id := Least(s.pool, s.active);
      assert id in s.pool;
    }
  }

  function Without(pool: seq<nat>, id: nat): (r: seq<nat>)
    ensures |r| <= |pool| && forall i :: i in r <==> i in pool && i != id
  {
    if pool == [] then []
    else (if pool[0] == id then [] else [pool[0]]) + Without(pool[1..], id)
  }

  // ---------- the steps ----------

  function With(s: State, t: nat, caller: Caller): State
    requires t < |s.callers|
  {
    s.(callers := s.callers[t := caller])
  }

  /** `fetch_add(1)` and `fetch_sub(1)`. */
  function More(s: State, id: nat): State {
    if id < |s.active| then s.(active := s.active[id := s.active[id] + 1]) else s
  }

  function Less(s: State, id: nat): State {
    if id < |s.active| && s.active[id] > 0 then s.(active := s.active[id := s.active[id] - 1]) else s
  }

  /** A connect call ends early: its lease goes, and its guard. */
  function GivenUp(s: State, t: nat): State
    requires t < |s.callers|
  {
    match s.callers[t]
    case Waiting => With(s, t, Over)
    case Dialing => With(s, t, Over).(guard := None)
    case Readying(id) => With(Less(s, id), t, Over).(guard := None)
    case ReadyingNew(id) => With(Less(s, id), t, Over).(guard := None)
    case Sending(id) => With(Less(s, id), t, Over)
    case _ => s
  }

  function StepOf(s: State, o: Options, a: Action, t: nat): State
    requires t < |s.callers| && forall i :: i in s.pool ==> i < |s.active|
  {
    match (a, s.callers[t])
    case (Enter(_), Waiting) => if s.guard.None? then With(s, t, Choosing).(guard := Some(t)) else s
    case (Pick(_), Choosing) =>
      (match Pooled(s, o) case None => With(s, t, Dialing) case Some(id) => With(s, t, Chosen(id)))
    case (Lease(_), Chosen(id)) => With(More(s, id), t, Readying(id))
    case (IsReady(_), Readying(id)) => With(s, t, Sending(id)).(guard := None)
    case (NotReady(_), Readying(id)) => With(s, t, Stale(id)).(pool := Without(s.pool, id))
    case (DropStale(_), Stale(id)) => With(Less(s, id), t, Choosing)
    case (Dialed(_), Dialing) =>
      With(s, t, Pushed(|s.active|)).(pool := s.pool + [|s.active|], active := s.active + [0])
    case (LeaseNew(_), Pushed(id)) => With(More(s, id), t, ReadyingNew(id))
    case (NewIsReady(_), ReadyingNew(id)) => With(s, t, Sending(id)).(guard := None)
    case (Sent(_), Sending(id)) => With(s, t, Open(id))
    case (Close(_), Open(id)) => With(Less(s, id), t, Over)
    case (GiveUp(_), _) => GivenUp(s, t)
    case _ => s
  }

  /** One step; a step that is not enabled changes nothing. */
  function Next(s: State, o: Options, a: Action): State
    requires forall i :: i in s.pool ==> i < |s.active|
  {
    match a
    case Call => s.(callers := s.callers + [Waiting])
    case Lose(id) => s.(pool := Without(s.pool, id))
    case _ => if a.t < |s.callers| then StepOf(s, o, a, a.t) else s
  }

  // ---------- what every step keeps ----------

  predicate Guarded(c: Caller) {
    !c.Waiting? && !c.Sending? && !c.Open? && !c.Over?
  }

  /** A lease that was not handed to a stream. */
  predicate Leased(c: Caller, id: nat) {
    (c.Readying? || c.Stale? || c.ReadyingNew? || c.Sending?) && c.id == id
  }

  predicate Streaming(c: Caller, id: nat) {
    c.Open? && c.id == id
  }

  function Leases(callers: seq<Caller>, id: nat): nat {
    if callers == [] then 0
    else Leases(callers[..|callers| - 1], id) + if Leased(callers[|callers| - 1], id) then 1 else 0
  }

  function Streams(callers: seq<Caller>, id: nat): nat {
    if callers == [] then 0
    else Streams(callers[..|callers| - 1], id) + if Streaming(callers[|callers| - 1], id) then 1 else 0
  }

  function Use(c: Caller, id: nat): nat {
    if Leased(c, id) || Streaming(c, id) then 1 else 0
  }

  /** Leases and streams together. */
  function Users(callers: seq<Caller>, id: nat): nat {
    Leases(callers, id) + Streams(callers, id)
  }

  lemma UsersOfMore(callers: seq<Caller>, c: Caller, id: nat)
    ensures Users(callers + [c], id) == Users(callers, id) + Use(c, id)
  {
    assert (callers + [c])[..|callers|] == callers;
  }

  lemma {:induction false} UsersAfter(callers: seq<Caller>, t: nat, c: Caller, id: nat)
    requires t < |callers|
    ensures Users(callers[t := c], id) == Users(callers, id) - Use(callers[t], id) + Use(c, id)
    ensures Users(callers, id) >= Use(callers[t], id)
    decreases |callers|
  {
    var n := |callers| - 1;
    var rest := callers[..n];
    assert callers == rest + [callers[n]];
    UsersOfMore(rest, callers[n], id);
    if t == n {
      assert callers[t := c] == rest + [c];
      UsersOfMore(rest, c, id);
    } else {
      assert callers[t := c] == rest[t := c] + [callers[n]];
      UsersOfMore(rest[t := c], callers[n], id);
      UsersAfter(rest, t, c, id);
    }
  }

  predicate PoolOk(s: State) {
    forall i :: i in s.pool ==> i < |s.active|
  }

  /** Who holds the guard, and that every connection a caller speaks of exists. */
  predicate GuardOk(s: State) {
    && (forall t :: 0 <= t < |s.callers| ==> (Guarded(s.callers[t]) <==> s.guard == Some(t)))
    && (s.guard.Some? ==> s.guard.value < |s.callers|)
    && (forall t :: 0 <= t < |s.callers| && HasId(s.callers[t]) ==> s.callers[t].id < |s.active|)
  }

  predicate HasId(c: Caller) {
    !c.Waiting? && !c.Choosing? && !c.Dialing? && !c.Over?
  }

  predicate CountOk(s: State) {
    forall id :: 0 <= id < |s.active| ==> s.active[id] == Users(s.callers, id)
  }

  predicate ConnectionsOk(s: State, o: Options) {
    o.maxConnections > 0 ==>
      && |s.pool| <= o.maxConnections
      && forall t :: 0 <= t < |s.callers| && s.callers[t].Dialing? ==> |s.pool| < o.maxConnections
  }

  predicate LoadOk(s: State, o: Options) {
    o.maxConnections == 0 && o.maxStreams > 0 ==>
      && (forall id :: 0 <= id < |s.active| ==> s.active[id] <= o.maxStreams)
      && forall t :: 0 <= t < |s.callers| && (s.callers[t].Chosen? || s.callers[t].Pushed?) ==>
           s.callers[t].id < |s.active| && s.active[s.callers[t].id] < o.maxStreams
  }

  predicate Inv(s: State, o: Options) {
    PoolOk(s) && GuardOk(s) && CountOk(s) && ConnectionsOk(s, o) && LoadOk(s, o)
  }

  /** The counters move by what the caller starts or stops using; a new connection has no users. */
  predicate CountsMove(s: State, n: State, t: nat)
    requires t < |s.callers| && t < |n.callers|
  {
    && |s.active| <= |n.active|
    && (forall id :: 0 <= id < |s.active| ==> n.active[id] == s.active[id] - Use(s.callers[t], id) + Use(n.callers[t], id))
    && (forall id :: |s.active| <= id < |n.active| ==> n.active[id] == Use(n.callers[t], id) == 0)
  }

  /** The guard follows the phase of the caller. */
  predicate GuardMoves(s: State, n: State, t: nat)
    requires t < |s.callers| && t < |n.callers|
  {
    var old', new' := s.callers[t], n.callers[t];
    && (Guarded(new') ==> n.guard == Some(t) && (Guarded(old') || s.guard.None?))
    && (!Guarded(new') ==> n.guard == if Guarded(old') then None else s.guard)
    && (HasId(new') ==> new'.id < |n.active|)
    && (forall i :: i in n.pool ==> i in s.pool || |s.active| == i < |n.active|)
  }

  /** Only a caller that was let through makes a connection or takes a place on one. */
  predicate LimitsMove(s: State, o: Options, n: State, t: nat)
    requires t < |s.callers| && t < |n.callers| && PoolOk(s)
  {
    var old', new' := s.callers[t], n.callers[t];
    && (if old'.Dialing? then |n.pool| <= |s.pool| + 1 && (new'.Dialing? ==> n.pool == s.pool)
        else |n.pool| <= |s.pool| && (new'.Dialing? ==> Pooled(s, o).None? && n.pool == s.pool))
    && (new' != old' && new'.Chosen? ==> Pooled(s, o) == Some(new'.id) && n.active == s.active && new'.id < |s.active|)
    && (new' != old' && new'.Pushed? ==> new'.id == |s.active| < |n.active|)
    && (forall id :: 0 <= id < |s.active| && Use(new', id) > Use(old', id) ==> old' == Chosen(id) || old' == Pushed(id))
  }

  lemma CallersMove(s: State, o: Options, a: Action, t: nat)
    requires PoolOk(s) && t < |s.callers|
    ensures var n := StepOf(s, o, a, t); n.callers == s.callers[t := n.callers[t]]
  {
    hide Pooled;
  }

  lemma StepMovesCounts(s: State, o: Options, a: Action, t: nat)
    requires PoolOk(s) && t < |s.callers| && (HasId(s.callers[t]) ==> s.callers[t].id < |s.active|)
    requires forall id :: 0 <= id < |s.active| ==> s.active[id] >= Use(s.callers[t], id)
    ensures CountsMove(s, StepOf(s, o, a, t), t)
  {
    hide Pooled;
  }

  lemma StepMovesGuard(s: State, o: Options, a: Action, t: nat)
    requires PoolOk(s) && t < |s.callers| && (HasId(s.callers[t]) ==> s.callers[t].id < |s.active|)
    requires Guarded(s.callers[t]) ==> s.guard == Some(t)
    ensures GuardMoves(s, StepOf(s, o, a, t), t)
  {
    hide ReuseLeastLoaded;
  }

  lemma StepMovesLimits(s: State, o: Options, a: Action, t: nat)
    requires PoolOk(s) && t < |s.callers|
    ensures LimitsMove(s, o, StepOf(s, o, a, t), t)
  {
    hide ReuseLeastLoaded;
  }

  lemma GuardKept(s: State, o: Options, a: Action, t: nat)
    requires PoolOk(s) && GuardOk(s) && t < |s.callers|
    requires forall id :: 0 <= id < |s.active| ==> s.active[id] >= Use(s.callers[t], id)
    ensures PoolOk(StepOf(s, o, a, t)) && GuardOk(StepOf(s, o, a, t))
  {
    CallersMove(s, o, a, t);
    StepMovesGuard(s, o, a, t);
    StepMovesCounts(s, o, a, t);
    hide StepOf;
  }

  lemma CountKept(s: State, o: Options, a: Action, t: nat)
    requires PoolOk(s) && GuardOk(s) && CountOk(s) && t < |s.callers|
    requires forall id :: 0 <= id < |s.active| ==> s.active[id] >= Use(s.callers[t], id)
    ensures CountOk(StepOf(s, o, a, t))
  {
    CallersMove(s, o, a, t);
    StepMovesCounts(s, o, a, t);
    hide StepOf;
    var n := StepOf(s, o, a, t);
    forall id | 0 <= id < |n.active| ensures n.active[id] == Users(n.callers, id) {
      UsersAfter(s.callers, t, n.callers[t], id);
      if id >= |s.active| { NoUsersYet(s.callers, id); }
    }
  }

  lemma {:induction false} NoUsersYet(callers: seq<Caller>, id: nat)
    requires forall c :: c in callers && HasId(c) ==> c.id < id
    ensures Users(callers, id) == 0
    decreases |callers|
  {
    if callers != [] {
      var n := |callers| - 1;
      assert callers == callers[..n] + [callers[n]];
      assert callers[n] in callers;
      UsersOfMore(callers[..n], callers[n], id);
      NoUsersYet(callers[..n], id);
    }
  }

  lemma ConnectionsKept(s: State, o: Options, a: Action, t: nat)
    requires PoolOk(s) && GuardOk(s) && ConnectionsOk(s, o) && t < |s.callers|
    ensures ConnectionsOk(StepOf(s, o, a, t), o)
  {
    CallersMove(s, o, a, t);
    StepMovesLimits(s, o, a, t);
    hide StepOf;
  }

  lemma LoadKept(s: State, o: Options, a: Action, t: nat)
    requires PoolOk(s) && GuardOk(s) && LoadOk(s, o) && t < |s.callers|
    requires forall id :: 0 <= id < |s.active| ==> s.active[id] >= Use(s.callers[t], id)
    ensures LoadOk(StepOf(s, o, a, t), o)
  {
    CallersMove(s, o, a, t);
    StepMovesLimits(s, o, a, t);
    StepMovesCounts(s, o, a, t);
    hide StepOf;
  }

  // ---------- every run ----------

  lemma PoolKept(s: State, o: Options, a: Action)
    requires PoolOk(s)
    ensures PoolOk(Next(s, o, a))
  {
    hide Pooled;
  }

  function RunFrom(s: State, o: Options, actions: seq<Action>): (n: State)
    requires PoolOk(s)
    ensures PoolOk(n)
    decreases |actions|
  {
    if actions == [] then s
    else
      PoolKept(s, o, actions[0]);
      RunFrom(Next(s, o, actions[0]), o, actions[1..])
  }

  function Run(o: Options, actions: seq<Action>): (s: State)
    ensures PoolOk(s)
  {
    RunFrom(INITIAL, o, actions)
  }

  lemma PoolMoves(s: State, o: Options, a: Action, t: nat)
    requires PoolOk(s) && t < |s.callers|
    ensures var n := StepOf(s, o, a, t);
            |s.active| <= |n.active| && forall i :: i in n.pool ==> i in s.pool || i >= |s.active|
  {
    hide Pooled;
  }

  predicate Gone(s: State, id: nat) {
    id < |s.active| && id !in s.pool
  }

  lemma GoneAfterStep(s: State, o: Options, a: Action, id: nat)
    requires PoolOk(s) && Gone(s, id)
    ensures var n := Next(s, o, a);
            && Gone(n, id) && |s.callers| <= |n.callers|
            && forall t :: 0 <= t < |n.callers| && n.callers[t] == Chosen(id) ==> t < |s.callers| && s.callers[t] == Chosen(id)
  {
    if !a.Call? && !a.Lose? && a.t < |s.callers| {
      DialsIff(s, o);
      CallersMove(s, o, a, a.t);
      StepMovesLimits(s, o, a, a.t);
      PoolMoves(s, o, a, a.t);
      hide Pooled, StepOf;
    }
  }

  /** A connection that is out of the pool never comes back, and no call is given it any more. */
  lemma {:induction false} LostStaysLost(s: State, o: Options, actions: seq<Action>, id: nat)
    requires PoolOk(s) && Gone(s, id)
    ensures var n := RunFrom(s, o, actions);
            && Gone(n, id)
            && forall t :: 0 <= t < |n.callers| && n.callers[t] == Chosen(id) ==> t < |s.callers| && s.callers[t] == Chosen(id)
    decreases |actions|
  {
    if actions != [] {
      GoneAfterStep(s, o, actions[0], id);
      PoolKept(s, o, actions[0]);
      hide Next;
      LostStaysLost(Next(s, o, actions[0]), o, actions[1..], id);
    }
  }

  predicate CanGiveUp(c: Caller) {
    c.Waiting? || c.Dialing? || c.Readying? || c.ReadyingNew? || c.Sending?
  }

  /**
  In every run: a call that fails or is cancelled lets go of the guard and of its lease, and of
  nothing else, and a connection that was not ready is let go in the same way; the lease of a call
  that is sent stays with the stream until the stream is dropped.
  */
  lemma NoLeaseLeaks(o: Options, actions: seq<Action>, t: nat)
    requires t < |Run(o, actions).callers|
    ensures var s := Run(o, actions); var n := Next(s, o, GiveUp(t));
            CanGiveUp(s.callers[t]) ==>
              && n.callers == s.callers[t := Over] && n.guard != Some(t) && n.pool == s.pool && |n.active| == |s.active|
              && forall id :: 0 <= id < |s.active| ==> n.active[id] == s.active[id] - Use(s.callers[t], id)
    ensures var s := Run(o, actions); var n := Next(s, o, DropStale(t));
            s.callers[t].Stale? ==>
              && n.callers == s.callers[t := Choosing] && n.guard == s.guard && n.pool == s.pool && |n.active| == |s.active|
              && forall id :: 0 <= id < |s.active| ==> n.active[id] == s.active[id] - Use(s.callers[t], id)
    ensures var s := Run(o, actions); var n := Next(s, o, Sent(t));
            s.callers[t].Sending? ==> n == s.(callers := s.callers[t := Open(s.callers[t].id)])
    ensures var s := Run(o, actions); var n := Next(s, o, Close(t));
            s.callers[t].Open? ==>
              && n.callers == s.callers[t := Over] && n.guard == s.guard && n.pool == s.pool && |n.active| == |s.active|
              && forall id :: 0 <= id < |s.active| ==> n.active[id] == s.active[id] - Use(s.callers[t], id)
  {
    hide Run, Users, ConnectionsOk, LoadOk;
    RunKeepsInv(o, actions);
    var s := Run(o, actions);
    OwnUseIsCounted(s, t);
  }

  /** The connection is lost under the pool, or the call that was given it finds it dead. */
  predicate Drops(s: State, a: Action, id: nat) {
    a == Lose(id) || (a.NotReady? && a.t < |s.callers| && s.callers[a.t] == Readying(id))
  }

  /** Whatever came before and comes after: a connection that was dropped is never given to a call again. */
  lemma DroppedIsNeverReused(o: Options, before: seq<Action>, a: Action, later: seq<Action>, id: nat)
    requires id < |Run(o, before).active| && Drops(Run(o, before), a, id)
    ensures var s := Next(Run(o, before), o, a);
            && PoolOk(s) && Gone(RunFrom(s, o, later), id)
            && forall t :: 0 <= t < |RunFrom(s, o, later).callers| && RunFrom(s, o, later).callers[t] == Chosen(id) ==>
                 t < |s.callers| && s.callers[t] == Chosen(id)
  {
    var s := Run(o, before);
    PoolKept(s, o, a);
    assert Gone(Next(s, o, a), id);
    LostStaysLost(Next(s, o, a), o, later, id);
  }

  lemma OwnUseIsCounted(s: State, t: nat)
    requires CountOk(s) && t < |s.callers|
    ensures forall id :: 0 <= id < |s.active| ==> s.active[id] >= Use(s.callers[t], id)
  {
    forall id | 0 <= id < |s.active| ensures s.active[id] >= Use(s.callers[t], id) {
      UsersAfter(s.callers, t, s.callers[t], id);
    }
  }

  lemma StepKeepsInv(s: State, o: Options, a: Action)
    requires Inv(s, o)
    ensures Inv(Next(s, o, a), o)
  {
    if a.Call? {
      forall id | 0 <= id < |s.active| ensures s.active[id] == Users(s.callers + [Waiting], id) {
        UsersOfMore(s.callers, Waiting, id);
      }
    } else if !a.Lose? && a.t < |s.callers| {
      hide StepOf;
      OwnUseIsCounted(s, a.t);
      GuardKept(s, o, a, a.t);
      CountKept(s, o, a, a.t);
      ConnectionsKept(s, o, a, a.t);
      LoadKept(s, o, a, a.t);
    }
  }

  lemma {:induction false} RunFromKeepsInv(s: State, o: Options, actions: seq<Action>)
    requires Inv(s, o)
    ensures Inv(RunFrom(s, o, actions), o)
    decreases |actions|
  {
    if actions != [] {
      StepKeepsInv(s, o, actions[0]);
      hide Inv;
      RunFromKeepsInv(Next(s, o, actions[0]), o, actions[1..]);
    }
  }

  lemma RunKeepsInv(o: Options, actions: seq<Action>)
    ensures Inv(Run(o, actions), o)
  {
    RunFromKeepsInv(INITIAL, o, actions);
  }

  /** The load of a connection is its leases that were not handed over and its open streams. */
  lemma ActiveIsExact(o: Options, actions: seq<Action>, id: nat)
    requires id < |Run(o, actions).active|
    ensures var s := Run(o, actions); s.active[id] == Leases(s.callers, id) + Streams(s.callers, id)
  {
    RunKeepsInv(o, actions);
  }

  /** No decrement ever finds a zero: whoever is about to drop a use is counted. */
  lemma NoUnderflow(o: Options, actions: seq<Action>, t: nat, id: nat)
    requires var s := Run(o, actions); t < |s.callers| && (Leased(s.callers[t], id) || Streaming(s.callers[t], id))
    ensures id < |Run(o, actions).active| && Run(o, actions).active[id] > 0
  {
    RunKeepsInv(o, actions);
    OwnUseIsCounted(Run(o, actions), t);
  }

  /** The pool never holds more than `max-connections`. */
  lemma PoolIsBounded(o: Options, actions: seq<Action>)
    requires o.maxConnections > 0
    ensures |Run(o, actions).pool| <= o.maxConnections
  {
    RunKeepsInv(o, actions);
  }

  /** With only `max-streams`, no connection carries more. */
  lemma LoadIsBounded(o: Options, actions: seq<Action>, id: nat)
    requires o.maxConnections == 0 && o.maxStreams > 0 && id < |Run(o, actions).active|
    ensures Run(o, actions).active[id] <= o.maxStreams
  {
    RunKeepsInv(o, actions);
  }

  // ---------- the two limits together ----------

  lemma {:induction false} RunAppend(s: State, o: Options, a: seq<Action>, b: seq<Action>)
    requires PoolOk(s)
    ensures RunFrom(s, o, a + b) == RunFrom(RunFrom(s, o, a), o, b)
    decreases |a|
  {
    if a == [] {
      assert a + b == b;
    } else {
      PoolKept(s, o, a[0]);
      assert (a + b)[1..] == a[1..] + b;
      RunAppend(Next(s, o, a[0]), o, a[1..], b);
    }
  }

  lemma OneStep(s: State, o: Options, a: Action, rest: seq<Action>)
    requires PoolOk(s)
    ensures PoolOk(Next(s, o, a)) && RunFrom(s, o, [a] + rest) == RunFrom(Next(s, o, a), o, rest)
  {
    PoolKept(s, o, a);
    assert ([a] + rest)[1..] == rest;
  }

  lemma Stays(s: State, o: Options)
    requires PoolOk(s)
    ensures RunFrom(s, o, []) == s
  {
  }

  /** Three steps in a row. */
  lemma ThreeSteps(s: State, o: Options, a: Action, b: Action, c: Action) returns (actions: seq<Action>)
    requires PoolOk(s)
    ensures PoolOk(Next(s, o, a)) && PoolOk(Next(Next(s, o, a), o, b))
    ensures RunFrom(s, o, actions) == Next(Next(Next(s, o, a), o, b), o, c)
  {
    hide Next, RunFrom;
    actions := [a] + ([b] + ([c] + []));
    OneStep(s, o, a, [b] + ([c] + []));
    OneStep(Next(s, o, a), o, b, [c] + []);
    OneStep(Next(Next(s, o, a), o, b), o, c, []);
    Stays(Next(Next(Next(s, o, a), o, b), o, c), o);
  }

  function Sum(loads: seq<nat>): nat {
    if loads == [] then 0 else Sum(loads[..|loads| - 1]) + loads[|loads| - 1]
  }

  lemma {:induction false} SumOfOneMore(loads: seq<nat>, i: nat)
    requires i < |loads|
    ensures Sum(loads[i := loads[i] + 1]) == Sum(loads) + 1
    decreases |loads|
  {
    var n := |loads| - 1;
    var more := loads[i := loads[i] + 1];
    if i == n {
      assert more[..n] == loads[..n];
    } else {
      assert more[..n] == loads[..n][i := loads[i] + 1];
      SumOfOneMore(loads[..n], i);
    }
  }

  lemma {:induction false} SumIsBounded(loads: seq<nat>, bound: nat)
    requires forall i :: 0 <= i < |loads| ==> loads[i] <= bound
    ensures Sum(loads) <= |loads| * bound
  {
    if loads != [] {
      var n := |loads| - 1;
      SumIsBounded(loads[..n], bound);
      assert n * bound + bound == |loads| * bound;
    }
  }

  /** Nobody holds the guard, and no connection was lost. */
  predicate Calm(s: State) {
    PoolOk(s) && s.guard.None? && |s.pool| == |s.active|
  }

  /** A caller arrives, takes the guard and looks at the pool. */
  lemma Arrival(s: State, o: Options) returns (actions: seq<Action>)
    requires Calm(s)
    ensures var n, t := RunFrom(s, o, actions), |s.callers|;
            n == s.(callers := s.callers + [match Pooled(s, o) case None => Dialing case Some(id) => Chosen(id)],
                    guard := Some(t))
  {
    var t := |s.callers|;
    actions := ThreeSteps(s, o, Call, Enter(t), Pick(t));
    hide RunFrom;
    var s1 := s.(callers := s.callers + [Waiting]);
    var s2 := s.(callers := s.callers + [Choosing], guard := Some(t));
    assert Next(s, o, Call) == s1;
    assert s1.callers[t := Choosing] == s2.callers;
    assert Next(s1, o, Enter(t)) == s2;
    assert Pooled(s2, o) == Pooled(s, o);
    var last := match Pooled(s, o) case None => Dialing case Some(id) => Chosen(id);
    assert s2.callers[t := last] == s.callers + [last];
  }

  /** A caller that was given a connection takes a place on it. */
  lemma Reuse(s: State, o: Options, t: nat, id: nat) returns (actions: seq<Action>)
    requires PoolOk(s) && t < |s.callers| && s.callers[t] == Chosen(id) && id < |s.active|
    ensures var n := RunFrom(s, o, actions);
            n.guard.None? && n.pool == s.pool && n.active == s.active[id := s.active[id] + 1]
  {
    actions := ThreeSteps(s, o, Lease(t), IsReady(t), Sent(t));
    hide RunFrom;
  }

  /** A caller that was given none makes a connection and takes a place on it. */
  lemma Dial(s: State, o: Options, t: nat) returns (actions: seq<Action>)
    requires PoolOk(s) && t < |s.callers| && s.callers[t] == Dialing
    ensures var n := RunFrom(s, o, actions);
            n.guard.None? && n.pool == s.pool + [|s.active|] && n.active == s.active + [1]
  {
    var id := |s.active|;
    actions := ThreeSteps(s, o, Dialed(t), LeaseNew(t), NewIsReady(t));
    hide RunFrom;
    assert (s.active + [0])[id := 1] == s.active + [1];
  }

  /** From a calm state one more call can always take a place. */
  lemma OneMoreStream(s: State, o: Options) returns (actions: seq<Action>)
    requires Calm(s)
    ensures var n := RunFrom(s, o, actions); Calm(n) && Sum(n.active) == Sum(s.active) + 1
  {
    var first := Arrival(s, o);
    var middle, t := RunFrom(s, o, first), |s.callers|;
    var last;
    if middle.callers[t].Chosen? {
      var id := middle.callers[t].id;
      last := Reuse(middle, o, t, id);
      SumOfOneMore(s.active, id);
    } else {
      last := Dial(middle, o, t);
      assert (s.active + [1])[..|s.active|] == s.active;
    }
    RunAppend(s, o, first, last);
    actions := first + last;
  }

  /** Any number of places can be taken at once, whatever the options say. */
  lemma {:induction false} AnyNumberOfStreams(o: Options, n: nat) returns (actions: seq<Action>)
    ensures Calm(Run(o, actions)) && Sum(Run(o, actions).active) == n
  {
    if n == 0 {
      actions := [];
    } else {
      var before := AnyNumberOfStreams(o, n - 1);
      var more := OneMoreStream(Run(o, before), o);
      RunAppend(INITIAL, o, before, more);
      actions := before + more;
    }
  }

  /**
  `max-connections` switches `max-streams` off: with a limit on the connections, some run loads
  one of them above any bound.
  */
  lemma LoadIsUnbounded(o: Options, bound: nat) returns (actions: seq<Action>, id: nat)
    requires o.maxConnections > 0
    ensures id < |Run(o, actions).active| && Run(o, actions).active[id] > bound
  {
    actions := AnyNumberOfStreams(o, o.maxConnections * bound + 1);
    PoolIsBounded(o, actions);
    var loads := Run(o, actions).active;
    if forall i :: 0 <= i < |loads| ==> loads[i] <= bound {
      SumIsBounded(loads, bound);
      ProductGrows(|loads|, o.maxConnections, bound);
      assert false;
    }
    id :| 0 <= id < |loads| && loads[id] > bound;
  }

  lemma ProductGrows(a: nat, b: nat, c: nat)
    requires a <= b
    ensures a * c <= b * c
  {
  }

  /** In every run no connection carries more streams than `max-streams` says. */
  ghost predicate MaxStreamsHolds(o: Options) {
    forall actions, id :: 0 <= id < |Run(o, actions).active| ==> Run(o, actions).active[id] <= o.maxStreams
  }

  /** `max-streams` limits the load exactly if `max-connections` is not set. */
  lemma MaxStreamsHoldsIff(o: Options)
    requires o.maxStreams > 0
    ensures MaxStreamsHolds(o) <==> o.maxConnections == 0
  {
    if o.maxConnections == 0 {
      forall actions, id | 0 <= id < |Run(o, actions).active| ensures Run(o, actions).active[id] <= o.maxStreams {
        LoadIsBounded(o, actions, id);
      }
    } else {
      var actions, id := LoadIsUnbounded(o, o.maxStreams);
    }
  }
}
