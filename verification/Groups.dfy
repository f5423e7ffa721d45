/**
Proxy groups: the cycle check that accepts a configuration, and the bounded walk along the
selections that relies on it. A configuration is accepted exactly when every choice of selections
leads every name to a node.
*/
module Groups {
  import opened Prelude

  type Name = string

  /** The members of each group; a name that is no key is a node. */
  type Members = map<Name, seq<Name>>

  // ---------- walks ----------

  /** Each name is a member of the group before it. */
  predicate Walk(groups: Members, w: seq<Name>) {
    w != [] && forall k :: 0 <= k < |w| - 1 ==> w[k] in groups && w[k + 1] in groups[w[k]]
  }

  predicate Known(names: set<Name>, name: Name) {
    name in names && name != "GLOBAL"
  }

  predicate Distinct(w: seq<Name>) {
    forall j, k :: 0 <= j < k < |w| ==> w[j] != w[k]
  }

  /** A walk on which every name is known, no group is in `path` and nothing comes twice. */
  predicate GoodWalk(groups: Members, names: set<Name>, path: set<Name>, w: seq<Name>) {
    && (forall name :: name in w ==> Known(names, name) && (name in groups ==> name !in path))
    && Distinct(w)
  }

  /** Every walk from the name is good. */
  ghost predicate Sound(groups: Members, names: set<Name>, path: set<Name>, name: Name) {
    forall w :: Walk(groups, w) && w[0] == name ==> GoodWalk(groups, names, path, w)
  }

  lemma WalkFromChild(groups: Members, name: Name, w: seq<Name>)
    requires Walk(groups, w) && name in groups && w[0] in groups[name]
    ensures Walk(groups, [name] + w)
  {
    var v := [name] + w;
    forall k | 0 <= k < |v| - 1 ensures v[k] in groups && v[k + 1] in groups[v[k]] {
      if k > 0 { assert v[k] == w[k - 1] && v[k + 1] == w[k]; }
    }
  }

  lemma WalkRest(groups: Members, w: seq<Name>)
    requires Walk(groups, w) && |w| > 1
    ensures w[0] in groups && w[1] in groups[w[0]] && Walk(groups, w[1..])
  {
    forall k | 0 <= k < |w| - 2 ensures w[1..][k] in groups && w[1..][k + 1] in groups[w[1..][k]] {
      assert w[1..][k] == w[k + 1] && w[1..][k + 1] == w[k + 2];
    }
  }

  lemma SoundIsLocal(groups: Members, names: set<Name>, path: set<Name>, name: Name)
    requires Sound(groups, names, path, name)
    ensures Known(names, name) && (name in groups ==> name !in path)
  {
    assert Walk(groups, [name]);
    assert GoodWalk(groups, names, path, [name]);
    assert name in [name];
  }

  lemma SoundChild(groups: Members, names: set<Name>, path: set<Name>, name: Name, child: Name)
    requires Sound(groups, names, path, name) && name in groups && child in groups[name]
    ensures Sound(groups, names, path + {name}, child)
  {
    forall w | Walk(groups, w) && w[0] == child ensures GoodWalk(groups, names, path + {name}, w) {
      WalkFromChild(groups, name, w);
      var v := [name] + w;
      assert GoodWalk(groups, names, path, v);
      forall x | x in w ensures Known(names, x) && (x in groups ==> x !in path + {name}) {
        var k :| 0 <= k < |w| && w[k] == x;
        assert v[k + 1] == x && v[0] != v[k + 1];
        assert x in v;
      }
      assert Distinct(w) by {
        forall j, k | 0 <= j < k < |w| ensures w[j] != w[k] { assert v[j + 1] != v[k + 1]; }
      }
    }
  }

  lemma SoundFromChildren(groups: Members, names: set<Name>, path: set<Name>, name: Name)
    requires Known(names, name)
    requires name in groups ==> name !in path
    requires name in groups ==> forall child :: child in groups[name] ==> Sound(groups, names, path + {name}, child)
    ensures Sound(groups, names, path, name)
  {
    forall w | Walk(groups, w) && w[0] == name ensures GoodWalk(groups, names, path, w) {
      if |w| > 1 {
        WalkRest(groups, w);
        var rest := w[1..];
        assert GoodWalk(groups, names, path + {name}, rest);
        assert forall x :: x in w ==> x == name || x in rest;
        assert forall k :: 1 <= k < |w| ==> w[k] == rest[k - 1] && w[k] in rest;
      }
    }
  }

  // ---------- the check ----------

  class Visitor {
    const groups: Members
    const names: set<Name>
    var path: set<Name>

    constructor (groups: Members, names: set<Name>)
      ensures this.groups == groups && this.names == names && path == {}
    {
      this.groups, this.names, path := groups, names, {};
    }

    /** The name is accepted exactly when every walk from it is good; the path is left as it was. */
    method Visit(name: Name) returns (ok: bool)
      requires path <= groups.Keys
      modifies `path
      ensures ok <==> Sound(groups, names, old(path), name)
      ensures ok ==> path == old(path)
      decreases |groups.Keys - path|, 0
    {
      if name !in names || name == "GLOBAL" {
        if Sound(groups, names, path, name) { SoundIsLocal(groups, names, path, name); }
        return false;
      }
      if name in groups {
        if name in path {
          if Sound(groups, names, path, name) { SoundIsLocal(groups, names, path, name); }
          return false;
        }
        path := path + {name};
        ok := VisitChildren(name);
        if !ok {
          return false;
        }
        path := path - {name};
      }
      SoundFromChildren(groups, names, old(path), name);
      ok := true;
    }

    method VisitChildren(name: Name) returns (ok: bool)
      requires name in groups && name in path && path <= groups.Keys
      modifies `path
      ensures ok ==> path == old(path) && forall child :: child in groups[name] ==> Sound(groups, names, path, child)
      ensures !ok ==> !Sound(groups, names, old(path) - {name}, name)
      decreases |groups.Keys - path|, 1
    {
      ghost var outer := path - {name};
      assert outer + {name} == path;
      var i := 0;
      while i < |groups[name]|
        invariant 0 <= i <= |groups[name]| && path == old(path)
        invariant forall j :: 0 <= j < i ==> Sound(groups, names, path, groups[name][j])
      {
        var child := groups[name][i];
        ok := Visit(child);
        if !ok {
          if Sound(groups, names, outer, name) { SoundChild(groups, names, outer, name, child); }
          return false;
        }
        i := i + 1;
      }
      ok := true;
    }
  }

  datatype Group = Group(name: Name, proxies: seq<Name>)

  datatype Config = Config(proxies: seq<Name>, groups: seq<Group>)

  const RESERVED: set<Name> := {"DIRECT", "REJECT", "GLOBAL"}

  function MembersOf(groups: seq<Group>): (m: Members)
    ensures forall name :: name in m <==> exists g :: g in groups && g.name == name
  {
    if groups == [] then map[]
    else
      var last := groups[|groups| - 1];
      assert groups == groups[..|groups| - 1] + [last];
      MembersOf(groups[..|groups| - 1])[last.name := last.proxies]
  }

  function GroupNames(groups: seq<Group>): seq<Name> {
    seq(|groups|, i requires 0 <= i < |groups| => groups[i].name)
  }

  function NamesOf(config: Config): set<Name> {
    RESERVED + (set name | name in config.proxies) + (set name | name in GroupNames(config.groups))
  }

  /** Names are not empty, not reserved and given once. */
  predicate FreshNames(names: seq<Name>) {
    && Distinct(names)
    && forall name :: name in names ==> name != "" && name !in RESERVED
  }

  /** What the group part of `validate` accepts, without its recursion. */
  ghost predicate Accepted(config: Config) {
    && FreshNames(config.proxies + GroupNames(config.groups))
    && (forall g :: g in config.groups ==> g.proxies != [])
    && (forall g :: g in config.groups ==> Sound(MembersOf(config.groups), NamesOf(config), {}, g.name))
  }

  /** Adds the names to a set that holds the reserved names and the earlier ones. */
  method InsertNames(earlier: seq<Name>, names: seq<Name>) returns (ok: bool)
    requires FreshNames(earlier)
    ensures ok <==> FreshNames(earlier + names)
  {
    var taken := RESERVED + set name | name in earlier;
    var i := 0;
    while i < |names|
      invariant 0 <= i <= |names|
      invariant FreshNames(earlier + names[..i])
      invariant taken == RESERVED + set name | name in earlier + names[..i]
    {
      var before, name := earlier + names[..i], names[i];
      assert earlier + names[..i + 1] == before + [name];
      if name == "" || name in taken {
        NotFresh(earlier, names, i);
        return false;
      }
      taken := taken + {name};
      i := i + 1;
    }
    assert names[..|names|] == names;
    ok := true;
  }

  lemma NotFresh(earlier: seq<Name>, names: seq<Name>, i: nat)
    requires i < |names|
    requires names[i] == "" || names[i] in RESERVED || names[i] in earlier + names[..i]
    ensures !FreshNames(earlier + names)
  {
    var all := earlier + names;
    var k := |earlier| + i;
    assert all[k] == names[i] && all[k] in all;
    assert all[..k] == earlier + names[..i];
    if names[i] in all[..k] {
      var j :| 0 <= j < k && all[j] == names[i];
    }
  }

  /** The group part of `validate`. */
  method ValidateGroups(config: Config) returns (ok: bool)
    ensures ok <==> Accepted(config)
  {
    ok := InsertNames([], config.proxies);
    assert [] + config.proxies == config.proxies;
    if !ok {
      PrefixIsFresh(config.proxies, GroupNames(config.groups));
      return;
    }
    ok := InsertNames(config.proxies, GroupNames(config.groups));
    if !ok { return; }
    if exists g :: g in config.groups && g.proxies == [] { return false; }
    var members, names := MembersOf(config.groups), NamesOf(config);
    var i := 0;
    while i < |config.groups|
      invariant 0 <= i <= |config.groups|
      invariant forall j :: 0 <= j < i ==> Sound(members, names, {}, config.groups[j].name)
    {
      var visitor := new Visitor(members, names);
      ok := visitor.Visit(config.groups[i].name);
      if !ok {
        assert config.groups[i] in config.groups;
        return;
      }
      i := i + 1;
    }
    ok := true;
  }

  lemma PrefixIsFresh(a: seq<Name>, b: seq<Name>)
    ensures FreshNames(a + b) ==> FreshNames(a)
  {
    if FreshNames(a + b) {
      assert forall k :: 0 <= k < |a| ==> a[k] == (a + b)[k];
      assert forall name :: name in a ==> name in a + b;
    }
  }
}
