/**
The selected member of each group, the updates that change it, and `leaf`, which follows the
selections at most once more than there are groups.
*/
module Selections {
  import opened Prelude
  import opened Groups

  type Selection = map<Name, Name>

  /** Every group has one of its members selected. */
  predicate Chosen(groups: Members, selection: Selection) {
    selection.Keys == groups.Keys && forall name :: name in groups ==> selection[name] in groups[name]
  }

  /** At most `steps` selections are followed; nothing if a group is still left. */
  function Chased(selection: Selection, name: Name, steps: nat): Option<Name>
    decreases steps
  {
    if name !in selection then Some(name)
    else if steps == 0 then None
    else Chased(selection, selection[name], steps - 1)
  }

  /** The names met on the way, the first `n + 1` of them. */
  function Trail(selection: Selection, name: Name, n: nat): seq<Name>
    decreases n
  {
    if n == 0 || name !in selection then [name] else [name] + Trail(selection, selection[name], n - 1)
  }

  lemma {:induction false} TrailIsWalk(groups: Members, selection: Selection, name: Name, n: nat)
    requires Chosen(groups, selection)
    ensures Walk(groups, Trail(selection, name, n)) && Trail(selection, name, n)[0] == name
    decreases n
  {
    if n > 0 && name in selection {
      TrailIsWalk(groups, selection, selection[name], n - 1);
      WalkFromChild(groups, name, Trail(selection, selection[name], n - 1));
    }
  }

  lemma {:induction false} TrailOfLost(selection: Selection, name: Name, n: nat)
    requires Chased(selection, name, n).None?
    ensures |Trail(selection, name, n)| == n + 1 && forall x :: x in Trail(selection, name, n) ==> x in selection
    decreases n
  {
    if n > 0 { TrailOfLost(selection, selection[name], n - 1); }
  }

  lemma {:induction false} DistinctFits(w: seq<Name>, keys: set<Name>)
    requires Distinct(w) && forall x :: x in w ==> x in keys
    ensures |w| <= |keys|
    decreases |w|
  {
    if w != [] {
      var rest := w[1..];
      forall x | x in rest ensures x in keys - {w[0]} {
        var k :| 0 <= k < |rest| && rest[k] == x;
        assert w[k + 1] == x && w[0] != w[k + 1];
        assert x in w;
      }
      assert Distinct(rest) by {
        forall j, k | 0 <= j < k < |rest| ensures rest[j] != rest[k] { assert w[j + 1] != w[k + 1]; }
      }
      DistinctFits(rest, keys - {w[0]});
      assert w[0] in w;
    }
  }

  /** No walk along the groups comes back to where it was. */
  ghost predicate Acyclic(groups: Members) {
    forall w :: Walk(groups, w) ==> Distinct(w)
  }

  /** Without a cycle every selection leads to a node in time. */
  lemma AcyclicReachesNode(groups: Members, selection: Selection, name: Name)
    requires Acyclic(groups) && Chosen(groups, selection)
    ensures Chased(selection, name, |groups|).Some?
  {
    if Chased(selection, name, |groups|).None? {
      var w := Trail(selection, name, |groups|);
      TrailIsWalk(groups, selection, name, |groups|);
      TrailOfLost(selection, name, |groups|);
      DistinctFits(w, groups.Keys);
      assert false;
    }
  }

  // ---------- with a cycle ----------

  /** A walk whose last name has the first one as a member, each name once. */
  predicate Ring(groups: Members, w: seq<Name>) {
    Walk(groups, w) && Distinct(w) && w[|w| - 1] in groups && w[0] in groups[w[|w| - 1]]
  }

  lemma Part(groups: Members, w: seq<Name>, j: nat, k: nat)
    requires Walk(groups, w) && j < k <= |w|
    ensures Walk(groups, w[j..k])
  {
    var v := w[j..k];
    forall i | 0 <= i < |v| - 1 ensures v[i] in groups && v[i + 1] in groups[v[i]] {
      assert v[i] == w[j + i] && v[i + 1] == w[j + i + 1];
    }
  }

  /** Between two visits of a name there is a ring. */
  lemma {:induction false} FindRing(groups: Members, w: seq<Name>, j: nat, k: nat) returns (ring: seq<Name>)
    requires Walk(groups, w) && j < k < |w| && w[j] == w[k]
    ensures Ring(groups, ring)
    decreases k - j
  {
    ring := w[j..k];
    Part(groups, w, j, k);
    if Distinct(ring) {
      assert ring[|ring| - 1] == w[k - 1] && w[k] in groups[w[k - 1]];
    } else {
      var a, b :| 0 <= a < b < |ring| && ring[a] == ring[b];
      ring := FindRing(groups, w, j + a, j + b);
    }
  }

  function IndexOf(w: seq<Name>, name: Name): (i: nat)
    requires name in w
    ensures i < |w| && w[i] == name
  {
    if w[0] == name then 0 else 1 + IndexOf(w[1..], name)
  }

  function After(w: seq<Name>, name: Name): Name
    requires name in w
  {
    var i := IndexOf(w, name) + 1;
    if i < |w| then w[i] else w[0]
  }

  /** The selection that goes round the ring. */
  function Around(groups: Members, ring: seq<Name>): Selection
    requires forall name :: name in groups ==> groups[name] != []
  {
    map name | name in groups :: if name in ring then After(ring, name) else groups[name][0]
  }

  lemma AfterIsNext(groups: Members, ring: seq<Name>, name: Name)
    requires Ring(groups, ring) && name in ring
    ensures name in groups && After(ring, name) in groups[name] && After(ring, name) in ring
  {
    hide IndexOf, Distinct;
    var i := IndexOf(ring, name);
    if i + 1 < |ring| { assert ring[i + 1] in groups[ring[i]]; }
  }

  lemma AroundIsChosen(groups: Members, ring: seq<Name>)
    requires Ring(groups, ring) && forall name :: name in groups ==> groups[name] != []
    ensures Chosen(groups, Around(groups, ring))
    ensures forall name :: name in ring ==> name in groups && Around(groups, ring)[name] in ring
  {
    forall name | name in ring ensures name in groups && After(ring, name) in groups[name] && After(ring, name) in ring {
      AfterIsNext(groups, ring, name);
    }
    hide After, Ring, Walk, Distinct;
  }

  lemma {:induction false} NeverLeaves(selection: Selection, inside: seq<Name>, name: Name, steps: nat)
    requires name in inside && forall x :: x in inside ==> x in selection && selection[x] in inside
    ensures Chased(selection, name, steps).None?
    decreases steps
  {
    if steps > 0 { NeverLeaves(selection, inside, selection[name], steps - 1); }
  }

  /** The bounded walk finds a node for every name under every selection. */
  ghost predicate LeafAlwaysEnds(groups: Members) {
    forall selection, name :: Chosen(groups, selection) ==> Chased(selection, name, |groups|).Some?
  }

  /** The bounded walk finds a node for every name under every selection exactly when there is no cycle. */
  lemma AcyclicIffLeafEnds(groups: Members)
    requires forall name :: name in groups ==> groups[name] != []
    ensures Acyclic(groups) <==> LeafAlwaysEnds(groups)
  {
    if Acyclic(groups) {
      forall selection, name | Chosen(groups, selection) ensures Chased(selection, name, |groups|).Some? {
        AcyclicReachesNode(groups, selection, name);
      }
    } else {
      var w :| Walk(groups, w) && !Distinct(w);
      var j, k :| 0 <= j < k < |w| && w[j] == w[k];
      var ring := FindRing(groups, w, j, k);
      AroundIsChosen(groups, ring);
      NeverLeaves(Around(groups, ring), ring, ring[0], |groups|);
    }
  }

  // ---------- an accepted configuration ----------

  /** Every member of every group is a node or a group that exists. */
  predicate AllKnown(config: Config) {
    forall g, name :: g in config.groups && name in g.proxies ==> Known(NamesOf(config), name)
  }

  /** With names given once, the map has the members of each group. */
  lemma {:induction false} MembersAre(groups: seq<Group>, g: Group)
    requires Distinct(GroupNames(groups)) && g in groups
    ensures g.name in MembersOf(groups) && MembersOf(groups)[g.name] == g.proxies
    decreases |groups|
  {
    var k := |groups| - 1;
    var rest := groups[..k];
    var i :| 0 <= i < |groups| && groups[i] == g;
    if i < k {
      assert forall j :: 0 <= j < k ==> GroupNames(rest)[j] == GroupNames(groups)[j];
      assert rest[i] == g;
      MembersAre(rest, g);
      assert GroupNames(groups)[i] != GroupNames(groups)[k];
    }
  }

  lemma GroupNamesAreDistinct(config: Config)
    requires FreshNames(config.proxies + GroupNames(config.groups))
    ensures Distinct(GroupNames(config.groups))
  {
    var all, n := config.proxies + GroupNames(config.groups), |config.proxies|;
    assert forall k :: 0 <= k < |config.groups| ==> all[n + k] == GroupNames(config.groups)[k];
  }

  lemma KeyIsGroup(config: Config, name: Name) returns (g: Group)
    requires FreshNames(config.proxies + GroupNames(config.groups)) && name in MembersOf(config.groups)
    ensures g in config.groups && g.name == name && g.proxies == MembersOf(config.groups)[name]
  {
    GroupNamesAreDistinct(config);
    g :| g in config.groups && g.name == name;
    MembersAre(config.groups, g);
  }

  lemma AcceptedIsAcyclic(config: Config)
    requires Accepted(config)
    ensures Acyclic(MembersOf(config.groups))
    ensures forall name :: name in MembersOf(config.groups) ==> MembersOf(config.groups)[name] != []
  {
    var groups := MembersOf(config.groups);
    forall w | Walk(groups, w) ensures Distinct(w) {
      if |w| > 1 {
        var g := KeyIsGroup(config, w[0]);
        assert GoodWalk(groups, NamesOf(config), {}, w);
      }
    }
    forall name | name in groups ensures groups[name] != [] {
      var g := KeyIsGroup(config, name);
    }
  }

  /**
  Given usable names, non-empty groups and members that exist, the recursive check accepts a
  configuration exactly when no choice of selections can make `leaf` report a cycle.
  */
  lemma AcceptedIffLeafEnds(config: Config)
    requires FreshNames(config.proxies + GroupNames(config.groups)) && AllKnown(config)
    requires forall g :: g in config.groups ==> g.proxies != []
    ensures Accepted(config) <==> LeafAlwaysEnds(MembersOf(config.groups))
  {
    hide FreshNames, AllKnown, MembersOf, NamesOf, Sound, Acyclic, LeafAlwaysEnds;
    var groups := MembersOf(config.groups);
    forall name | name in groups ensures groups[name] != [] {
      var g := KeyIsGroup(config, name);
    }
    AcyclicIffLeafEnds(groups);
    if Accepted(config) {
      AcceptedIsAcyclic(config);
    }
    if Acyclic(groups) {
      forall g | g in config.groups ensures Sound(groups, NamesOf(config), {}, g.name) {
        AcyclicIsSound(config, g);
      }
    }
  }

  lemma AcyclicIsSound(config: Config, g: Group)
    requires FreshNames(config.proxies + GroupNames(config.groups)) && AllKnown(config)
    requires Acyclic(MembersOf(config.groups)) && g in config.groups
    ensures Sound(MembersOf(config.groups), NamesOf(config), {}, g.name)
  {
    hide FreshNames, AllKnown, MembersOf, NamesOf, Known, Distinct;
    var groups := MembersOf(config.groups);
    GroupIsKnown(config, g);
    forall w | Walk(groups, w) && w[0] == g.name ensures GoodWalk(groups, NamesOf(config), {}, w) {
      WalkIsKnown(config, w);
    }
  }

  lemma WalkIsKnown(config: Config, w: seq<Name>)
    requires FreshNames(config.proxies + GroupNames(config.groups)) && AllKnown(config)
    requires Walk(MembersOf(config.groups), w) && Known(NamesOf(config), w[0])
    ensures forall name :: name in w ==> Known(NamesOf(config), name)
  {
    forall k | 0 <= k < |w| ensures Known(NamesOf(config), w[k]) {
      if k > 0 {
        assert w[k - 1] in MembersOf(config.groups);
        var g := KeyIsGroup(config, w[k - 1]);
      }
    }
  }

  lemma GroupIsKnown(config: Config, g: Group)
    requires FreshNames(config.proxies + GroupNames(config.groups)) && g in config.groups
    ensures Known(NamesOf(config), g.name)
  {
    var k :| 0 <= k < |config.groups| && config.groups[k] == g;
    assert GroupNames(config.groups)[k] == g.name;
    assert g.name in config.proxies + GroupNames(config.groups);
  }

  /** Groups without groups in them are accepted exactly if each member is DIRECT, REJECT or a node; GLOBAL is none. */
  lemma FlatGroups(config: Config)
    requires FreshNames(config.proxies + GroupNames(config.groups))
    requires forall g :: g in config.groups ==> g.proxies != []
    requires forall g, name :: g in config.groups && name in g.proxies ==> name !in GroupNames(config.groups)
    ensures Accepted(config) <==> forall g, name :: g in config.groups && name in g.proxies ==>
                                    name == "DIRECT" || name == "REJECT" || name in config.proxies
  {
    var groups, names := MembersOf(config.groups), NamesOf(config);
    if Accepted(config) {
      forall g, name | g in config.groups && name in g.proxies
        ensures name == "DIRECT" || name == "REJECT" || name in config.proxies
      {
        GroupNamesAreDistinct(config);
        MembersAre(config.groups, g);
        var w := [g.name, name];
        assert Walk(groups, w) && w[0] == g.name;
        assert GoodWalk(groups, names, {}, w);
        assert name in w;
      }
    } else {
      assert !AllKnown(config) by {
        if AllKnown(config) {
          FlatIsAcyclic(config);
          forall g | g in config.groups ensures Sound(groups, names, {}, g.name) { AcyclicIsSound(config, g); }
        }
      }
    }
  }

  lemma FlatIsAcyclic(config: Config)
    requires FreshNames(config.proxies + GroupNames(config.groups))
    requires forall g, name :: g in config.groups && name in g.proxies ==> name !in GroupNames(config.groups)
    ensures Acyclic(MembersOf(config.groups))
  {
    var groups := MembersOf(config.groups);
    forall w | Walk(groups, w) ensures Distinct(w) {
      if |w| > 1 {
        var g := KeyIsGroup(config, w[0]);
        assert w[1] in g.proxies;
        KeyIsGroupName(config, w[0]);
        KeyIsGroupName(config, w[1]);
        assert |w| == 2;
      }
    }
  }

  // ---------- the policy and its updates ----------

  lemma {:induction false} MembersFit(groups: seq<Group>)
    ensures |MembersOf(groups)| <= |groups|
  {
    if groups != [] {
      var last := groups[|groups| - 1];
      var rest := MembersOf(groups[..|groups| - 1]);
      MembersFit(groups[..|groups| - 1]);
      assert rest[last.name := last.proxies].Keys == rest.Keys + {last.name};
    }
  }

  lemma {:induction false} MoreStepsAreEnough(selection: Selection, name: Name, few: nat, many: nat)
    requires few <= many && Chased(selection, name, few).Some?
    ensures Chased(selection, name, many) == Chased(selection, name, few)
    decreases few
  {
    if name in selection { MoreStepsAreEnough(selection, selection[name], few - 1, many - 1); }
  }

  lemma {:induction false} ChasedIsOnTrail(selection: Selection, name: Name, n: nat)
    requires Chased(selection, name, n).Some?
    ensures Chased(selection, name, n).value in Trail(selection, name, n)
    ensures Chased(selection, name, n).value !in selection
    decreases n
  {
    if name in selection { ChasedIsOnTrail(selection, selection[name], n - 1); }
  }

  /** A `u64`. */
  type Delay = x: int | 0 <= x <= MAX_DELAY

  const MAX_DELAY := 0xFFFF_FFFF_FFFF_FFFF

  function SaturatingSum(a: Delay, b: Delay): Delay {
    if a + b > MAX_DELAY then MAX_DELAY else a + b
  }

  /** The first of the fastest probes that succeeded. */
  predicate IsBest(outcomes: seq<Option<Delay>>, best: Option<nat>) {
    match best
    case None => forall j :: 0 <= j < |outcomes| ==> outcomes[j].None?
    case Some(k) =>
      && k < |outcomes| && outcomes[k].Some?
      && forall j :: 0 <= j < |outcomes| && outcomes[j].Some? ==>
           outcomes[k].value <= outcomes[j].value && (j < k ==> outcomes[k].value < outcomes[j].value)
  }

  /** The delay of the selected member, the largest one if it was never measured. */
  function CurrentDelay(selection: Selection, delay: map<Name, Delay>, group: Name): Delay {
    if group in selection && selection[group] in delay then delay[selection[group]] else MAX_DELAY
  }

  /** A probe that succeeded, with none of the same target after it. */
  predicate LastProbe(targets: seq<Name>, outcomes: seq<Option<Delay>>, k: nat)
    requires |targets| == |outcomes|
  {
    k < |targets| && outcomes[k].Some? && forall j :: k < j < |targets| && outcomes[j].Some? ==> targets[j] != targets[k]
  }

  predicate Probed(targets: seq<Name>, outcomes: seq<Option<Delay>>, name: Name)
    requires |targets| == |outcomes|
  {
    exists j :: 0 <= j < |targets| && outcomes[j].Some? && targets[j] == name
  }

  /** Each probed target has the outcome of its last successful probe, and every other name what it had. */
  ghost predicate Measured(before: map<Name, Delay>, targets: seq<Name>, outcomes: seq<Option<Delay>>, after: map<Name, Delay>)
    requires |targets| == |outcomes|
  {
    && (forall name :: name in after <==> name in before || Probed(targets, outcomes, name))
    && (forall name :: name in before && !Probed(targets, outcomes, name) ==> after[name] == before[name])
    && (forall k :: 0 <= k < |targets| && LastProbe(targets, outcomes, k) ==>
          targets[k] in after && after[targets[k]] == outcomes[k].value)
  }

  lemma NothingMeasured(delay: map<Name, Delay>)
    ensures Measured(delay, [], [], delay)
  {
  }

  /** One more probe. */
  lemma MeasuredNext(before: map<Name, Delay>, targets: seq<Name>, outcomes: seq<Option<Delay>>,
                     after: map<Name, Delay>, target: Name, outcome: Option<Delay>)
    requires |targets| == |outcomes| && Measured(before, targets, outcomes, after)
    ensures Measured(before, targets + [target], outcomes + [outcome],
                     if outcome.Some? then after[target := outcome.value] else after)
  {
    var ts, os := targets + [target], outcomes + [outcome];
    forall name
      ensures Probed(ts, os, name) <==> Probed(targets, outcomes, name) || (outcome.Some? && name == target)
    {
      if Probed(targets, outcomes, name) {
        var j :| 0 <= j < |targets| && outcomes[j].Some? && targets[j] == name;
        assert os[j].Some? && ts[j] == name;
      }
      if outcome.Some? && name == target { assert os[|targets|].Some? && ts[|targets|] == name; }
    }
    forall k | 0 <= k < |targets| && LastProbe(ts, os, k)
      ensures LastProbe(targets, outcomes, k) && (outcome.Some? ==> targets[k] != target)
    {
      assert forall j :: k < j < |targets| ==> ts[j] == targets[j] && os[j] == outcomes[j];
      assert ts[|targets|] == target && os[|targets|] == outcome;
    }
  }

  lemma MeasuredBest(before: map<Name, Delay>, targets: seq<Name>, outcomes: seq<Option<Delay>>, after: map<Name, Delay>)
    requires |targets| == |outcomes| && Measured(before, targets, outcomes, after)
    ensures forall k :: 0 <= k < |targets| && LastProbe(targets, outcomes, k) ==>
              targets[k] in after && after[targets[k]] == outcomes[k].value
  {
  }

  lemma {:induction false} FindLastProbe(targets: seq<Name>, outcomes: seq<Option<Delay>>, j: nat) returns (k: nat)
    requires |targets| == |outcomes| && j < |targets| && outcomes[j].Some?
    ensures j <= k < |targets| && targets[k] == targets[j] && LastProbe(targets, outcomes, k)
    decreases |targets| - j
  {
    k := j;
    if !LastProbe(targets, outcomes, j) {
      var i :| j < i < |targets| && outcomes[i].Some? && targets[i] == targets[j];
      k := FindLastProbe(targets, outcomes, i);
    }
  }

  /**
  What a round compares the best probe with: the last measurement of the selected member in this
  round, or what was known of it before if no probe of it succeeded.
  */
  lemma RoundCompares(before: map<Name, Delay>, targets: seq<Name>, outcomes: seq<Option<Delay>>,
                      after: map<Name, Delay>, selection: Selection, group: Name)
    requires |targets| == |outcomes| && Measured(before, targets, outcomes, after) && group in selection
    ensures if Probed(targets, outcomes, selection[group])
            then exists k :: 0 <= k < |targets| && targets[k] == selection[group] && LastProbe(targets, outcomes, k)
                             && CurrentDelay(selection, after, group) == outcomes[k].value
            else CurrentDelay(selection, after, group) == CurrentDelay(selection, before, group)
  {
    if Probed(targets, outcomes, selection[group]) {
      var j :| 0 <= j < |targets| && outcomes[j].Some? && targets[j] == selection[group];
      var k := FindLastProbe(targets, outcomes, j);
    }
  }

  /** The first member of every group. */
  function Firsts(groups: seq<Group>): Selection
    requires forall g :: g in groups ==> g.proxies != []
  {
    if groups == [] then map[]
    else
      var last := groups[|groups| - 1];
      Firsts(groups[..|groups| - 1])[last.name := last.proxies[0]]
  }

  lemma {:induction false} FirstsAreChosen(groups: seq<Group>)
    requires forall g :: g in groups ==> g.proxies != []
    ensures Chosen(MembersOf(groups), Firsts(groups))
  {
    if groups != [] { FirstsAreChosen(groups[..|groups| - 1]); }
  }

  lemma ChosenUpdate(groups: Members, selection: Selection, name: Name, member: Name)
    requires Chosen(groups, selection) && name in groups && member in groups[name]
    ensures Chosen(groups, selection[name := member]) && selection[name := member].Keys == selection.Keys
  {
  }

  datatype Update =
    | Select(group: Name, member: Name)
    | UrlTest(tested: Group, tolerance: Delay, outcomes: seq<Option<Delay>>)
    | Load(saved: Selection)

  class Policy {
    const config: Config
    var selection: Selection
    var delay: map<Name, Delay>

    predicate Valid()
      reads this
    {
      && FreshNames(config.proxies + GroupNames(config.groups))
      && Chosen(MembersOf(config.groups), selection)
    }

    constructor (config: Config)
      requires Accepted(config)
      ensures this.config == config && Valid()
      ensures selection == Firsts(config.groups) && delay == map[]
    {
      hide Sound, MembersOf, FreshNames, Chosen;
      this.config := config;
      selection, delay := map[], map[];
      new;
      var i := 0;
      while i < |config.groups|
        invariant 0 <= i <= |config.groups|
        invariant selection == Firsts(config.groups[..i]) && delay == map[]
      {
        var g := config.groups[i];
        assert g in config.groups;
        assert config.groups[..i + 1][..i] == config.groups[..i];
        selection := selection[g.name := g.proxies[0]];
        i := i + 1;
      }
      assert config.groups[..|config.groups|] == config.groups;
      FirstsAreChosen(config.groups);
    }

    /** Some group of that name has the member. */
    predicate Allowed(group: Name, member: Name) {
      exists g :: g in config.groups && g.name == group && member in g.proxies
    }

    lemma AllowedIsMember(group: Name, member: Name)
      requires FreshNames(config.proxies + GroupNames(config.groups)) && Allowed(group, member)
      ensures group in MembersOf(config.groups) && member in MembersOf(config.groups)[group]
    {
      GroupNamesAreDistinct(config);
      var g :| g in config.groups && g.name == group && member in g.proxies;
      MembersAre(config.groups, g);
    }

    method Choose(group: Name, member: Name) returns (ok: bool)
      requires Valid()
      modifies `selection
      ensures Valid()
      ensures ok <==> Allowed(group, member)
      ensures selection == if ok then old(selection)[group := member] else old(selection)
    {
      ok := Allowed(group, member);
      if ok {
        AllowedIsMember(group, member);
        ChosenUpdate(MembersOf(config.groups), selection, group, member);
        selection := selection[group := member];
      }
    }

    /** One round of the url-test task: the probes, then the update under the lock. */
    method Retest(g: Group, tolerance: Delay, outcomes: seq<Option<Delay>>) returns (best: Option<nat>)
      requires Valid() && g in config.groups && |outcomes| == |g.proxies|
      modifies this
      ensures Valid() && IsBest(outcomes, best)
      ensures Measured(old(delay), g.proxies, outcomes, delay)
      ensures selection == if best.Some? && outcomes[best.value].value + tolerance < CurrentDelay(old(selection), delay, g.name)
                           then old(selection)[g.name := g.proxies[best.value]] else old(selection)
      ensures best.Some? && LastProbe(g.proxies, outcomes, best.value) ==>
                CurrentDelay(selection, delay, g.name) <= outcomes[best.value].value + tolerance
    {
      hide Chosen, FreshNames, MembersOf, Measured;
      best := None;
      NothingMeasured(delay);
      assert g.proxies[..0] == [] && outcomes[..0] == [];
      var i := 0;
      while i < |g.proxies|
        invariant 0 <= i <= |g.proxies| && selection == old(selection) && Valid()
        invariant IsBest(outcomes[..i], best)
        invariant Measured(old(delay), g.proxies[..i], outcomes[..i], delay)
      {
        MeasuredNext(old(delay), g.proxies[..i], outcomes[..i], delay, g.proxies[i], outcomes[i]);
        assert g.proxies[..i + 1] == g.proxies[..i] + [g.proxies[i]] && outcomes[..i + 1] == outcomes[..i] + [outcomes[i]];
        if outcomes[i].Some? {
          delay := delay[g.proxies[i] := outcomes[i].value];
          if best.None? || outcomes[i].value < outcomes[best.value].value { best := Some(i); }
        }
        i := i + 1;
      }
      assert outcomes[..|outcomes|] == outcomes && g.proxies[..|outcomes|] == g.proxies;
      MeasuredBest(old(delay), g.proxies, outcomes, delay);
      if best.Some? && SaturatingSum(outcomes[best.value].value, tolerance) < CurrentDelay(selection, delay, g.name) {
        var target := g.proxies[best.value];
        assert Allowed(g.name, target);
        AllowedIsMember(g.name, target);
        ChosenUpdate(MembersOf(config.groups), selection, g.name, target);
        selection := selection[g.name := target];
      }
    }

    /** A saved profile: what it says of groups and members that still exist. */
    method Restore(saved: Selection)
      requires Valid()
      modifies `selection
      ensures Valid() && selection.Keys == old(selection.Keys)
      ensures forall name :: name in selection ==>
                selection[name] == if name in saved && Allowed(name, saved[name]) then saved[name] else old(selection)[name]
    {
      hide Chosen, FreshNames, MembersOf, Allowed;
      var rest := saved.Keys;
      while rest != {}
        invariant rest <= saved.Keys && Valid() && selection.Keys == old(selection.Keys)
        invariant forall name :: name in selection ==>
                    selection[name] == if name in saved && name !in rest && Allowed(name, saved[name]) then saved[name]
                                       else old(selection)[name]
        decreases |rest|
      {
        var group :| group in rest;
        if Allowed(group, saved[group]) {
          AllowedIsMember(group, saved[group]);
          ChosenUpdate(MembersOf(config.groups), selection, group, saved[group]);
          selection := selection[group := saved[group]];
        }
        rest := rest - {group};
      }
    }

    /** Where `leaf` starts: GLOBAL stands for the first group, or the first node. */
    function Start(name: Name): Name {
      if name != "GLOBAL" then name
      else if config.groups != [] then config.groups[0].name
      else if config.proxies != [] then config.proxies[0]
      else "DIRECT"
    }

    lemma StartIsKnown(name: Name)
      requires FreshNames(config.proxies + GroupNames(config.groups)) && name in NamesOf(config)
      ensures Known(NamesOf(config), Start(name))
    {
      if name == "GLOBAL" {
        if config.groups != [] {
          GroupIsKnown(config, config.groups[0]);
        } else if config.proxies != [] {
          assert config.proxies[0] in config.proxies + GroupNames(config.groups);
        }
      }
    }

    /** The chain always ends in time, at a node that exists. */
    lemma LeafIsNode(name: Name)
      requires Valid() && Accepted(config)
      ensures Chased(selection, Start(name), |config.groups|).Some?
      ensures name in NamesOf(config) ==>
                var node := Chased(selection, Start(name), |config.groups|).value;
                Known(NamesOf(config), node) && node !in GroupNames(config.groups)
    {
      var groups, n := MembersOf(config.groups), |config.groups|;
      AcceptedIsAcyclic(config);
      AcyclicReachesNode(groups, selection, Start(name));
      MembersFit(config.groups);
      MoreStepsAreEnough(selection, Start(name), |groups|, n);
      if name in NamesOf(config) {
        StartIsKnown(name);
        var node := Chased(selection, Start(name), n).value;
        ChasedIsOnTrail(selection, Start(name), n);
        TrailIsWalk(groups, selection, Start(name), n);
        KnownOnWalk(config, Trail(selection, Start(name), n));
        GroupNameIsKey(config, node);
      }
    }

    method Leaf(name: Name) returns (node: Option<Name>)
      requires Valid() && Accepted(config)
      ensures node.Some? && node == Chased(selection, Start(name), |config.groups|)
      ensures name in NamesOf(config) ==> Known(NamesOf(config), node.value) && node.value !in GroupNames(config.groups)
    {
      LeafIsNode(name);
      var current := Start(name);
      var i := 0;
      while i <= |config.groups|
        invariant 0 <= i <= |config.groups| + 1
        invariant i <= |config.groups| ==>
                    Chased(selection, Start(name), |config.groups|) == Chased(selection, current, |config.groups| - i)
        invariant i > |config.groups| ==> Chased(selection, Start(name), |config.groups|).None?
      {
        if current !in selection { return Some(current); }
        current := selection[current];
        i := i + 1;
      }
      node := None;
    }

    /**
    GLOBAL leads where the first group leads, to the first node if there is no group, and to
    DIRECT if there is neither; a name that is no group leads to itself.
    */
    lemma GlobalLeads(name: Name)
      requires Valid() && Accepted(config)
      ensures var n := |config.groups|;
              Chased(selection, Start("GLOBAL"), n)
              == if config.groups != [] then Chased(selection, Start(config.groups[0].name), n)
                 else if config.proxies != [] then Some(config.proxies[0]) else Some("DIRECT")
      ensures name != "GLOBAL" && name !in GroupNames(config.groups) ==> Chased(selection, Start(name), |config.groups|) == Some(name)
    {
      if config.groups != [] {
        GroupIsKnown(config, config.groups[0]);
      }
      KeyIsGroupName(config, name);
    }

    /** Whatever the updates were, the walk afterwards ends at a node. */
    method LeafAfter(updates: seq<Update>, name: Name) returns (node: Option<Name>)
      requires Valid() && Accepted(config)
      requires forall u :: u in updates && u.UrlTest? ==> u.tested in config.groups && |u.outcomes| == |u.tested.proxies|
      modifies this
      ensures node.Some?
      ensures name in NamesOf(config) ==> Known(NamesOf(config), node.value) && node.value !in GroupNames(config.groups)
    {
      var i := 0;
      while i < |updates|
        invariant 0 <= i <= |updates| && Valid()
      {
        var u := updates[i];
        assert u in updates;
        match u {
          case Select(group, member) => var _ := Choose(group, member);
          case UrlTest(g, tolerance, outcomes) => var _ := Retest(g, tolerance, outcomes);
          case Load(saved) => Restore(saved);
        }
        i := i + 1;
      }
      node := Leaf(name);
    }
  }

  lemma KnownOnWalk(config: Config, w: seq<Name>)
    requires Accepted(config) && Walk(MembersOf(config.groups), w) && Known(NamesOf(config), w[0])
    ensures forall name :: name in w ==> Known(NamesOf(config), name)
  {
    if |w| > 1 {
      var g := KeyIsGroup(config, w[0]);
      assert GoodWalk(MembersOf(config.groups), NamesOf(config), {}, w);
    }
  }

  lemma KeyIsGroupName(config: Config, name: Name)
    ensures name in MembersOf(config.groups) ==> name in GroupNames(config.groups)
  {
    if name in MembersOf(config.groups) {
      var g :| g in config.groups && g.name == name;
      var k :| 0 <= k < |config.groups| && config.groups[k] == g;
      assert GroupNames(config.groups)[k] == name;
    }
  }

  lemma GroupNameIsKey(config: Config, name: Name)
    ensures name in GroupNames(config.groups) ==> name in MembersOf(config.groups)
  {
    if name in GroupNames(config.groups) {
      var k :| 0 <= k < |config.groups| && GroupNames(config.groups)[k] == name;
      assert config.groups[k] in config.groups;
    }
  }
}
