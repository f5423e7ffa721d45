/**
The session table of an XUDP multiplexer: how an id is chosen, and how registrations race with
the failure of the multiplexer. Callers test `alive`, take the lock of the table, test again,
choose an id and insert; a failure lowers `alive` first and takes the whole table afterwards.
*/
module XudpRegistry {
  import opened Prelude

  const IDS := 0x1_0000

  function Wrapped(n: nat): u16 {
    n % IDS
  }

  // ---------- the choice of an id ----------

  /** The first id that is not taken, from `next` upwards and around, within a number of tries. */
  function FirstFree(taken: set<u16>, next: u16, tries: nat): Option<u16>
    decreases tries
  {
    if tries == 0 then None
    else if next !in taken then Some(next)
    else FirstFree(taken, Wrapped(next + 1), tries - 1)
  }

  lemma WrappedOnce(a: nat, b: nat)
    ensures Wrapped(Wrapped(a) + b) == Wrapped(a + b)
  {
    assert a == IDS * (a / IDS) + a % IDS;
    assert a + b == IDS * (a / IDS) + (a % IDS + b);
    WrappedShift(a % IDS + b, a / IDS);
  }

  lemma {:induction false} WrappedShift(a: nat, turns: nat)
    ensures (IDS * turns + a) % IDS == a % IDS
  {
    if turns > 0 {
      WrappedShift(a, turns - 1);
      assert IDS * turns + a == IDS * (turns - 1) + a + IDS;
    }
  }

  lemma WrappedAround(id: u16)
    ensures Wrapped(id) == id && Wrapped(id + IDS) == id
  {
  }

  lemma {:induction false} NoneMeansTaken(taken: set<u16>, next: u16, tries: nat, j: nat)
    requires FirstFree(taken, next, tries) == None && j < tries
    ensures Wrapped(next + j) in taken
    decreases tries
  {
    if j == 0 {
      assert Wrapped(next) == next;
    } else {
      NoneMeansTaken(taken, Wrapped(next + 1), tries - 1, j - 1);
      WrappedOnce(next + 1, j - 1);
    }
  }

  function AllIds(n: nat): (ids: set<u16>)
    requires n <= IDS
    ensures |ids| == n && forall id :: id in ids <==> 0 <= id < n
  {
    if n == 0 then {} else AllIds(n - 1) + {n - 1}
  }

  lemma Subset<T>(a: set<T>, b: set<T>)
    requires a <= b
    ensures |a| <= |b|
    ensures |a| == |b| ==> a == b
  {
    var rest := b - a;
    assert b == a + rest;
    assert rest == {} ==> a == b;
  }

  /** An id is found exactly when one is left, wherever the search starts; and it is free. */
  lemma FoundIff(taken: set<u16>, next: u16)
    ensures FirstFree(taken, next, IDS).Some? <==> |taken| < IDS
    ensures FirstFree(taken, next, IDS).Some? ==> FirstFree(taken, next, IDS).value !in taken
  {
    hide AllIds, FirstFree;
    assert taken <= AllIds(IDS);
    Subset(taken, AllIds(IDS));
    FoundIsFree(taken, next, IDS);
    if FirstFree(taken, next, IDS) == None {
      forall id | id in AllIds(IDS) ensures id in taken {
        var j := (id - next) % IDS;
        NoneMeansTaken(taken, next, IDS, j);
      }
      assert taken == AllIds(IDS);
    }
  }

  lemma {:induction false} FoundIsFree(taken: set<u16>, next: u16, tries: nat)
    ensures FirstFree(taken, next, tries).Some? ==> FirstFree(taken, next, tries).value !in taken
    decreases tries
  {
    if tries > 0 && next in taken {
      FoundIsFree(taken, Wrapped(next + 1), tries - 1);
    }
  }

  class Registry<Route> {
    var routes: map<u16, Route>
    var next: u16

    constructor ()
      ensures routes == map[] && next == 0
    {
      routes, next := map[], 0;
    }

    /** Called with the table locked: up to 65536 wrapping increments of the counter. */
    method Register(route: Route) returns (id: Option<u16>)
      modifies this
      ensures id == FirstFree(old(routes).Keys, old(next), IDS)
      ensures id.Some? <==> |old(routes)| < IDS
      ensures id.Some? ==> id.value !in old(routes) && routes == old(routes)[id.value := route]
      ensures id.Some? ==> next == Wrapped(id.value + 1)
      ensures id.None? ==> routes == old(routes) && next == old(next)
    {
      hide Wrapped;
      id := None;
      var tries := 0;
      WrappedAround(next);
      while tries < IDS && id.None?
        modifies `next
        invariant 0 <= tries <= IDS
        invariant id.None? ==> FirstFree(routes.Keys, old(next), IDS) == FirstFree(routes.Keys, next, IDS - tries)
        invariant id.None? ==> next == Wrapped(old(next) + tries)
        invariant id.Some? ==> id == FirstFree(routes.Keys, old(next), IDS) && next == Wrapped(id.value + 1)
        decreases IDS - tries, id.None?
      {
        var candidate := next;
        next := Wrapped(next + 1);
        WrappedOnce(old(next) + tries, 1);
        if candidate !in routes {
          id := Some(candidate);
        }
        tries := tries + 1;
      }
      FoundIff(routes.Keys, old(next));
      assert |routes| == |routes.Keys|;
      if id.Some? {
        routes := routes[id.value := route];
      }
    }
  }

  // ---------- registrations against the failure ----------

  datatype Caller =
    | Fresh                              // has not tested `alive` yet
    | Tested                             // the first test passed
    | Inside                             // holds the lock of the table
    | Approved                           // holds it, and the second test passed
    | Returned(session: nat, id: u16)
    | Refused

  /** `fail_multiplexer`: the caller that lowered `alive` takes the table afterwards. */
  datatype Failure = Calm | Lowered | Swept

  /** Sessions are numbered as they are registered; a route holds the sender of its session. */
  datatype State = State(callers: seq<Caller>, lockedBy: Option<nat>, alive: bool, failure: Failure,
                         routes: map<u16, nat>, next: u16, sessions: nat, readerHolds: Option<nat>)

  datatype Action =
    | Call
    | Test(t: nat)
    | Lock(t: nat)
    | TestAgain(t: nat)
    | Insert(t: nat)
    | Lower
    | Sweep
    | Remove(id: u16)        // an END frame, or the session is dropped
    | Take(id: u16)          // the reader clones the sender of a route to deliver a packet
    | Release                // and drops the clone

  const INITIAL := State([], None, true, Calm, map[], 0, 0, None)

  function With(s: State, t: nat, caller: Caller): State
    requires t < |s.callers|
  {
    s.(callers := s.callers[t := caller])
  }

  predicate At(s: State, t: nat, caller: Caller) {
    t < |s.callers| && s.callers[t] == caller
  }

  function Inserted(s: State, t: nat): State
    requires t < |s.callers|
  {
    match FirstFree(s.routes.Keys, s.next, IDS)
    case None => With(s, t, Refused).(lockedBy := None)
    case Some(id) =>
      With(s, t, Returned(s.sessions, id)).(
        lockedBy := None, routes := s.routes[id := s.sessions], next := Wrapped(id + 1), sessions := s.sessions + 1)
  }

  /** One step; a step that is not enabled changes nothing. */
  function Next(s: State, a: Action): State {
    match a
    case Call => s.(callers := s.callers + [Fresh])
    case Test(t) => if At(s, t, Fresh) then With(s, t, if s.alive then Tested else Refused) else s
    case Lock(t) =>
      if At(s, t, Tested) && s.lockedBy.None? then With(s, t, Inside).(lockedBy := Some(t)) else s
    case TestAgain(t) =>
      if !At(s, t, Inside) then s
      else if s.alive then With(s, t, Approved)
      else With(s, t, Refused).(lockedBy := None)
    case Insert(t) => if At(s, t, Approved) then Inserted(s, t) else s
    case Lower => s.(alive := false, failure := if s.alive then Lowered else s.failure)
    case Sweep =>
      if s.failure.Lowered? && s.lockedBy.None? then s.(routes := map[], failure := Swept) else s
    case Remove(id) => if s.lockedBy.None? then s.(routes := s.routes - {id}) else s
    case Take(id) =>
      if s.lockedBy.None? && s.readerHolds.None? && id in s.routes then s.(readerHolds := Some(s.routes[id])) else s
    case Release => s.(readerHolds := None)
  }

  function Run(s: State, actions: seq<Action>): State
    decreases |actions|
  {
    if actions == [] then s else Run(Next(s, actions[0]), actions[1..])
  }

  /** The sessions whose receiver can still be sent to; every other receiver is closed. */
  function Senders(s: State): set<nat> {
    s.routes.Values + if s.readerHolds.Some? then {s.readerHolds.value} else {}
  }

  /** At most one caller is inside, and the table is not swept under one that is approved. */
  predicate LockInv(s: State) {
    && (s.alive <==> s.failure.Calm?)
    && (forall t :: 0 <= t < |s.callers| ==> (s.callers[t].Inside? || s.callers[t].Approved? <==> s.lockedBy == Some(t)))
    && (s.lockedBy.Some? ==> s.lockedBy.value < |s.callers|)
    && (s.failure.Swept? ==> forall t :: 0 <= t < |s.callers| ==> !s.callers[t].Approved?)
  }

  /** No two routes carry the same session. */
  predicate TableInv(s: State) {
    && (s.failure.Swept? ==> s.routes == map[])
    && (forall id :: id in s.routes ==> s.routes[id] < s.sessions)
    && (forall i, j :: i in s.routes && j in s.routes && s.routes[i] == s.routes[j] ==> i == j)
  }

  /** A session that is still in the table is there under the id its caller was given. */
  predicate NamedRight(s: State) {
    && (forall t :: 0 <= t < |s.callers| && s.callers[t].Returned? ==>
                      s.callers[t].session < s.sessions
                      && forall id :: id in s.routes && s.routes[id] == s.callers[t].session ==> id == s.callers[t].id)
    && (forall c, d :: 0 <= c < d < |s.callers| && s.callers[c].Returned? && s.callers[d].Returned? ==>
                         s.callers[c].session != s.callers[d].session)
  }

  predicate Inv(s: State) {
    LockInv(s) && TableInv(s) && NamedRight(s)
  }

  lemma InsertKeepsTable(s: State, t: nat)
    requires Inv(s) && At(s, t, Approved)
    ensures TableInv(Inserted(s, t)) && NamedRight(Inserted(s, t))
  {
    hide FirstFree, LockInv;
    FoundIff(s.routes.Keys, s.next);
    assert !s.failure.Swept? by { assert LockInv(s); assert s.callers[t].Approved?; Unswept(s, t); }
  }

  lemma Unswept(s: State, t: nat)
    requires LockInv(s) && At(s, t, Approved)
    ensures !s.failure.Swept?
  {
  }

  lemma LockKept(s: State, a: Action)
    requires LockInv(s)
    ensures LockInv(Next(s, a))
  {
    hide FirstFree;
  }

  lemma TableKept(s: State, a: Action)
    requires TableInv(s) && !a.Insert?
    ensures TableInv(Next(s, a))
  {
  }

  lemma NamesKept(s: State, a: Action)
    requires NamedRight(s) && !a.Insert?
    ensures NamedRight(Next(s, a))
  {
    var t := Next(s, a);
    assert forall id :: id in t.routes ==> id in s.routes && t.routes[id] == s.routes[id];
    assert forall c :: 0 <= c < |t.callers| && t.callers[c].Returned? ==> c < |s.callers| && t.callers[c] == s.callers[c];
    hide Next;
  }

  lemma StepKeepsInv(s: State, a: Action)
    requires Inv(s)
    ensures Inv(Next(s, a))
  {
    hide LockInv, TableInv, NamedRight;
    LockKept(s, a);
    if !a.Insert? {
      TableKept(s, a);
      NamesKept(s, a);
    } else if At(s, a.t, Approved) {
      InsertKeepsTable(s, a.t);
    }
  }

  lemma {:induction false} RunKeepsInv(s: State, actions: seq<Action>)
    requires Inv(s)
    ensures Inv(Run(s, actions))
    decreases |actions|
  {
    if actions != [] {
      StepKeepsInv(s, actions[0]);
      RunKeepsInv(Next(s, actions[0]), actions[1..]);
    }
  }

  // ---------- after the failure ----------

  /** The table was swept and the reader has let go: nothing can be sent to any session. */
  lemma AllReceiversClosed(actions: seq<Action>)
    requires var s := Run(INITIAL, actions); s.failure.Swept? && s.readerHolds.None?
    ensures Senders(Run(INITIAL, actions)) == {}
  {
    RunKeepsInv(INITIAL, actions);
  }

  /** The sweep is possible as soon as the table is not locked, and closes everything the reader does not hold. */
  lemma SweepCloses(actions: seq<Action>)
    requires var s := Run(INITIAL, actions); !s.alive && !s.failure.Swept? && s.lockedBy.None?
    ensures var s := Run(INITIAL, actions); var n := Next(s, Sweep);
            n.failure.Swept? && n.routes == map[] && Senders(n) == if s.readerHolds.Some? then {s.readerHolds.value} else {}
  {
    RunKeepsInv(INITIAL, actions);
  }

  /** No caller returned a session between the two states. */
  predicate NobodyReturned(s: State, t: State) {
    && |s.callers| <= |t.callers|
    && forall c :: 0 <= c < |t.callers| ==> (t.callers[c].Returned? <==> c < |s.callers| && s.callers[c].Returned?)
  }

  lemma StepAfterSweep(s: State, a: Action)
    requires Inv(s) && s.failure.Swept?
    ensures var t := Next(s, a);
            && t.failure.Swept? && t.routes == map[] && t.sessions == s.sessions
            && Senders(t) <= Senders(s) && NobodyReturned(s, t)
  {
    hide FirstFree;
    if a.Insert? && At(s, a.t, Approved) {
      Unswept(s, a.t);
    }
  }

  /** And it stays so: no interleaving registers a session, or opens a receiver, after the sweep. */
  lemma {:induction false} NothingAfterSweep(s: State, actions: seq<Action>)
    requires Inv(s) && s.failure.Swept?
    ensures var t := Run(s, actions);
            && t.failure.Swept? && t.routes == map[] && t.sessions == s.sessions
            && Senders(t) <= Senders(s) && NobodyReturned(s, t)
    decreases |actions|
  {
    if actions == [] {
      assert s.routes == map[];
    } else {
      StepAfterSweep(s, actions[0]);
      StepKeepsInv(s, actions[0]);
      hide Next, Inv, Senders;
      NothingAfterSweep(Next(s, actions[0]), actions[1..]);
    }
  }

  /**
  Before the sweep, registering always puts the new session under an id of its own and leaves
  every other route alone; only a removal or the sweep takes a route away.
  */
  lemma RoutesOnlyLeaveByRemoval(s: State, a: Action, id: u16)
    requires Inv(s) && id in s.routes && !a.Sweep? && a != Remove(id)
    ensures var t := Next(s, a); id in t.routes && t.routes[id] == s.routes[id]
  {
    hide FirstFree;
    FoundIff(s.routes.Keys, s.next);
  }

  /** A call that comes after the failure is refused at its first look, whatever the others do. */
  lemma {:induction false} LateCallIsRefused(s: State, actions: seq<Action>, t: nat)
    requires !s.alive && t < |s.callers| && (s.callers[t].Fresh? || s.callers[t].Refused?)
    ensures var n := Run(s, actions);
            && !n.alive && t < |n.callers| && (n.callers[t].Fresh? || n.callers[t].Refused?)
            && (s.callers[t].Refused? || Test(t) in actions ==> n.callers[t].Refused?)
    decreases |actions|
  {
    if actions != [] {
      var n := Next(s, actions[0]);
      assert !n.alive && t < |n.callers| && (n.callers[t].Fresh? || n.callers[t].Refused?)
          && (s.callers[t].Refused? || actions[0] == Test(t) ==> n.callers[t].Refused?) by { hide FirstFree; }
      hide Next;
      LateCallIsRefused(n, actions[1..], t);
      assert Test(t) in actions ==> actions[0] == Test(t) || Test(t) in actions[1..];
    }
  }

  /** Steps upwards and around from one id to another. */
  function Distance(from: u16, to: u16): nat {
    if to >= from then to - from else to - from + IDS
  }

  lemma {:induction false} TakenBefore(taken: set<u16>, next: u16, tries: nat, id: u16, i: nat)
    requires FirstFree(taken, next, tries) == Some(id) && i < Distance(next, id)
    ensures Wrapped(next + i) in taken
    decreases tries
  {
    if i == 0 {
      assert Wrapped(next) == next;
    } else {
      assert Distance(Wrapped(next + 1), id) == Distance(next, id) - 1;
      TakenBefore(taken, Wrapped(next + 1), tries - 1, id, i - 1);
      WrappedOnce(next + 1, i - 1);
    }
  }

  /** Behind an id the search comes back to it only if every other one is taken. */
  lemma LastResort(taken: set<u16>, id: u16)
    requires id !in taken
    ensures FirstFree(taken, Wrapped(id + 1), IDS) == Some(id) <==> |taken| == IDS - 1
  {
    hide AllIds, FirstFree;
    var others, next := AllIds(IDS) - {id}, Wrapped(id + 1);
    assert |others| == IDS - 1 && taken <= others;
    FoundIff(taken, next);
    Subset(taken, others);
    if FirstFree(taken, next, IDS) == Some(id) {
      forall other | other in others ensures other in taken {
        TakenBefore(taken, next, IDS, id, Distance(next, other));
      }
      assert taken == others;
    }
  }

  /** An id that was given out and freed again rests: the next session gets it only if no other one is left. */
  lemma FreedIdRests(actions: seq<Action>, t: nat, id: u16)
    requires var s := Run(INITIAL, actions);
             At(s, t, Approved) && FirstFree(s.routes.Keys, s.next, IDS) == Some(id)
    ensures var n := Next(Next(Run(INITIAL, actions), Insert(t)), Remove(id));
            && id !in n.routes
            && (FirstFree(n.routes.Keys, n.next, IDS) == Some(id) <==> |n.routes| == IDS - 1)
  {
    var s := Run(INITIAL, actions);
    var n := Next(Next(s, Insert(t)), Remove(id));
    assert id !in n.routes && n.next == Wrapped(id + 1);
    assert |n.routes| == |n.routes.Keys|;
    LastResort(n.routes.Keys, id);
  }

  /** Two sessions that are registered at the same time have different ids, in every run. */
  lemma LiveIdsDiffer(actions: seq<Action>, c: nat, d: nat)
    requires var s := Run(INITIAL, actions);
             && c < d < |s.callers| && s.callers[c].Returned? && s.callers[d].Returned?
             && s.callers[c].session in s.routes.Values && s.callers[d].session in s.routes.Values
    ensures Run(INITIAL, actions).callers[c].id != Run(INITIAL, actions).callers[d].id
  {
    RunKeepsInv(INITIAL, actions);
    var s := Run(INITIAL, actions);
    var i :| i in s.routes && s.routes[i] == s.callers[c].session;
    var j :| j in s.routes && s.routes[j] == s.callers[d].session;
  }
}
