/** Host conditions of rules, and the set of them that one rule provider holds. */
module Domains {
  import opened Prelude

  predicate EndsWith(s: string, end: string) {
    |end| <= |s| && s[|s| - |end|..] == end
  }

  predicate PartAt(s: string, part: string, i: nat) {
    i + |part| <= |s| && s[i..i + |part|] == part
  }

  predicate HasPart(s: string, part: string) {
    exists i :: 0 <= i <= |s| && PartAt(s, part, i)
  }

  /** The host is the domain, or lies below it on a label boundary. */
  predicate Under(host: string, domain: string) {
    host == domain || (EndsWith(host, domain) && |host| > |domain| && host[|host| - |domain| - 1] == '.')
  }

  datatype DomainSet = DomainSet(exact: set<string>, suffix: set<string>, keywords: seq<string>,
                                 regex: seq<string -> bool>)

  /** Some member of the set matches the host as a rule of its own would. */
  predicate SomeMember(s: DomainSet, host: string) {
    || host in s.exact
    || (exists d :: d in s.suffix && Under(host, d))
    || (exists k :: k in s.keywords && HasPart(host, k))
    || (exists i :: 0 <= i < |s.regex| && s.regex[i](host))
  }

  /** Position k starts the host or follows a dot. */
  predicate Boundary(host: string, k: nat) {
    k <= |host| && (k == 0 || host[k - 1] == '.')
  }

  /** What is below a domain ends in it at a boundary, and the other way round. */
  lemma UnderIsABoundary(host: string, domain: string)
    ensures Under(host, domain) <==> exists k :: 0 <= k <= |host| && Boundary(host, k) && host[k..] == domain
  {
    if Under(host, domain) {
      var k := |host| - |domain|;
      assert host[k..] == domain && Boundary(host, k);
    }
  }

  /** What lies below a domain is a name, a dot and the domain. */
  lemma UnderMeans(host: string, domain: string)
    ensures Under(host, domain) <==> host == domain || exists name: string :: host == name + "." + domain
  {
    if Under(host, domain) && host != domain {
      var k := |host| - |domain|;
      assert host[..k] == host[..k - 1] + "." && host == host[..k] + host[k..];
      assert host == host[..k - 1] + "." + domain;
    }
    if exists name: string :: host == name + "." + domain {
      var name: string :| host == name + "." + domain;
      var k := |name| + 1;
      assert host[k..] == domain && host[k - 1] == '.';
    }
  }

  /** `strip_suffix` and `ends_with('.')`. */
  lemma UnderByStripping(host: string, domain: string)
    requires EndsWith(host, domain)
    ensures var rest := host[..|host| - |domain|]; host == domain || EndsWith(rest, ".") <==> Under(host, domain)
  {
    var k := |host| - |domain|;
    var rest := host[..k];
    if k > 0 { assert rest[k - 1..] == [rest[k - 1]] && rest[k - 1] == host[k - 1]; }
  }

  lemma HasPartMeans(host: string, part: string)
    ensures HasPart(host, part) <==> exists before: string, after: string :: host == before + part + after
  {
    if HasPart(host, part) {
      var i :| 0 <= i <= |host| && PartAt(host, part, i);
      assert host == host[..i] + part + host[i + |part|..];
    }
    if exists before: string, after: string :: host == before + part + after {
      var before: string, after: string :| host == before + part + after;
      assert PartAt(host, part, |before|) && 0 <= |before| <= |host|;
    }
  }

  /** `split_once('.')`: the position behind the first dot at or after k. */
  method AfterDot(host: string, k: nat) returns (next: Option<nat>)
    requires k <= |host|
    ensures next.None? ==> forall j :: k < j <= |host| ==> !Boundary(host, j)
    ensures next.Some? ==> k < next.value <= |host| && Boundary(host, next.value)
                           && forall j :: k < j < next.value ==> !Boundary(host, j)
  {
    var i := k;
    while i < |host|
      invariant k <= i <= |host|
      invariant forall j :: k < j <= i ==> !Boundary(host, j)
    {
      i := i + 1;
      if host[i - 1] == '.' { return Some(i); }
    }
    next := None;
  }

  /** The walk over the labels finds exactly what the members of the set describe. */
  method Matches(s: DomainSet, host: string) returns (matched: bool)
    ensures matched == SomeMember(s, host)
  {
    if host in s.exact { return true; }
    var k: nat := 0;
    while true
      invariant k <= |host| && Boundary(host, k)
      invariant forall j :: 0 <= j < k && Boundary(host, j) ==> host[j..] !in s.suffix
      decreases |host| - k
    {
      if host[k..] in s.suffix {
        UnderIsABoundary(host, host[k..]);
        return true;
      }
      var next := AfterDot(host, k);
      if next.None? { break; }
      k := next.value;
    }
    forall d | d in s.suffix ensures !Under(host, d) { UnderIsABoundary(host, d); }
    matched := (exists w :: w in s.keywords && HasPart(host, w))
               || (exists i :: 0 <= i < |s.regex| && s.regex[i](host));
  }

  // ---------- normal form of a host ----------

  function TrimDots(s: string): string {
    if s != [] && s[|s| - 1] == '.' then TrimDots(s[..|s| - 1]) else s
  }

  function Lower(c: char): char {
    if 'A' <= c <= 'Z' then (c as int + 32) as char else c
  }

  function LowerAll(s: string): string {
    seq(|s|, i requires 0 <= i < |s| => Lower(s[i]))
  }

  function Normalised(host: string): string {
    LowerAll(TrimDots(host))
  }

  lemma {:induction false} TrimmedEnds(s: string)
    ensures TrimDots(s) == [] || TrimDots(s)[|TrimDots(s)| - 1] != '.'
  {
    if s != [] && s[|s| - 1] == '.' { TrimmedEnds(s[..|s| - 1]); }
  }

  /** The same letter, in lower case on the right. */
  predicate Lowered(a: char, b: char) {
    !('A' <= b <= 'Z') && (a == b || ('A' <= a <= 'Z' && 'a' <= b <= 'z' && b as int - 'a' as int == a as int - 'A' as int))
  }

  /** The host without the dots at its end, letter by letter in lower case. */
  lemma {:induction false} NormalisedIs(host: string) returns (kept: string, dots: string)
    ensures host == kept + dots && (forall c :: c in dots ==> c == '.')
    ensures kept == [] || kept[|kept| - 1] != '.'
    ensures |Normalised(host)| == |kept| && forall i :: 0 <= i < |kept| ==> Lowered(kept[i], Normalised(host)[i])
    decreases |host|
  {
    kept, dots := host, "";
    if host != [] && host[|host| - 1] == '.' {
      var n := |host| - 1;
      kept, dots := NormalisedIs(host[..n]);
      dots := dots + ".";
      assert host == host[..n] + ".";
    }
  }

  /** Routing normalises the host and each rule does so again: the second time changes nothing. */
  lemma NormalisedTwice(host: string)
    ensures Normalised(Normalised(host)) == Normalised(host)
  {
    var t := TrimDots(host);
    TrimmedEnds(host);
    assert LowerAll(t) == [] || LowerAll(t)[|t| - 1] != '.';
    assert TrimDots(LowerAll(t)) == LowerAll(t);
    assert LowerAll(LowerAll(t)) == LowerAll(t);
  }
}
