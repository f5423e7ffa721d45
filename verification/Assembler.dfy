/**
The range assembler that reassembly relies on: a list of received runs, in order, disjoint and
not touching each other. The library type itself is not part of this model; only the behaviour
that `accept` uses is: runs merge when they touch, and a list past its cap is an error.
*/
module Assembler {

  datatype Run = Run(from: nat, to: nat)

  /** Sorted, non-empty runs with a gap after each. */
  predicate Canonical(runs: seq<Run>) {
    && (forall i :: 0 <= i < |runs| ==> runs[i].from < runs[i].to)
    && (forall i, j :: 0 <= i < j < |runs| ==> runs[i].to < runs[j].from)
  }

  predicate Covers(runs: seq<Run>, x: int) {
    exists i :: 0 <= i < |runs| && runs[i].from <= x < runs[i].to
  }

  /** `add`, merging every run that the new one touches. */
  function AddRun(runs: seq<Run>, from: nat, to: nat): (r: seq<Run>)
    decreases |runs|
  {
    if runs == [] then [Run(from, to)]
    else if to < runs[0].from then [Run(from, to)] + runs
    else if runs[0].to < from then [runs[0]] + AddRun(runs[1..], from, to)
    else AddRun(runs[1..], if from < runs[0].from then from else runs[0].from,
                if to < runs[0].to then runs[0].to else to)
  }

  /** `peek_front`: how many bytes are there from the start without a gap. */
  function Front(runs: seq<Run>): nat {
    if runs != [] && runs[0].from == 0 then runs[0].to else 0
  }

  lemma CoversSplit(runs: seq<Run>, x: int)
    requires runs != []
    ensures Covers(runs, x) <==> runs[0].from <= x < runs[0].to || Covers(runs[1..], x)
  {
    if Covers(runs, x) {
      var i :| 0 <= i < |runs| && runs[i].from <= x < runs[i].to;
      assert i > 0 ==> runs[1..][i - 1] == runs[i];
    }
    if Covers(runs[1..], x) {
      var i :| 0 <= i < |runs[1..]| && runs[1..][i].from <= x < runs[1..][i].to;
      assert runs[i + 1] == runs[1..][i];
    }
  }

  lemma {:induction false} AddRunAdds(runs: seq<Run>, from: nat, to: nat)
    requires Canonical(runs) && from < to
    ensures Canonical(AddRun(runs, from, to))
    ensures AddRun(runs, from, to) != []
    ensures AddRun(runs, from, to)[0].from >= from || (runs != [] && AddRun(runs, from, to)[0].from >= runs[0].from)
    ensures forall x :: Covers(AddRun(runs, from, to), x) <==> Covers(runs, x) || from <= x < to
    decreases |runs|
  {
    var r := AddRun(runs, from, to);
    if runs == [] {
      assert r[0] == Run(from, to);
    } else if to < runs[0].from {
      forall x ensures Covers(r, x) <==> Covers(runs, x) || from <= x < to {
        CoversSplit(r, x);
        assert r[1..] == runs;
      }
    } else {
      var merge := runs[0].to >= from;
      var f := if merge && runs[0].from < from then runs[0].from else from;
      var t := if merge && runs[0].to > to then runs[0].to else to;
      AddRunAdds(runs[1..], f, t);
      forall x ensures Covers(r, x) <==> Covers(runs, x) || from <= x < to {
        CoversSplit(runs, x);
        CoversSplit(r, x);
        if !merge { assert r[1..] == AddRun(runs[1..], from, to); }
      }
    }
  }

  lemma CoversSomething(runs: seq<Run>)
    requires Canonical(runs) && runs != []
    ensures Covers(runs, runs[0].from)
  {
  }

  /** A set of numbers has at most one canonical list of runs. */
  lemma {:induction false} CanonicalIsUnique(a: seq<Run>, b: seq<Run>)
    requires Canonical(a) && Canonical(b)
    requires forall x :: Covers(a, x) <==> Covers(b, x)
    ensures a == b
    decreases |a|
  {
    if a != [] { CoversSomething(a); }
    if b != [] { CoversSomething(b); }
    assert a == [] <==> b == [];
    if a != [] {
      FirstRunAgrees(a, b);
      forall x ensures Covers(a[1..], x) <==> Covers(b[1..], x) {
        CoversSplit(a, x);
        CoversSplit(b, x);
      }
      CanonicalIsUnique(a[1..], b[1..]);
      assert a == [a[0]] + a[1..] && b == [b[0]] + b[1..];
    }
  }

  lemma FirstRunAgrees(a: seq<Run>, b: seq<Run>)
    requires Canonical(a) && Canonical(b) && a != [] && b != []
    requires forall x :: Covers(a, x) <==> Covers(b, x)
    ensures a[0] == b[0]
  {
    assert Covers(a, a[0].from) && Covers(b, b[0].from);
    assert !Covers(a, a[0].to) && !Covers(b, b[0].to);
    assert Covers(a, a[0].to - 1) && Covers(b, b[0].to - 1);
  }

  /** Everything below `n` and nothing else has arrived: one run from zero, and conversely. */
  lemma FrontIsWholePrefix(runs: seq<Run>, n: nat)
    requires Canonical(runs) && n > 0
    requires forall x :: Covers(runs, x) ==> x < n
    ensures Front(runs) == n <==> forall x :: 0 <= x < n ==> Covers(runs, x)
  {
    if Front(runs) == n {
      forall x | 0 <= x < n ensures Covers(runs, x) { assert runs[0].from <= x < runs[0].to; }
    }
    if forall x :: 0 <= x < n ==> Covers(runs, x) {
      assert Covers(runs, 0);
      assert !Covers(runs, runs[0].to);
      assert Covers(runs, runs[0].to - 1);
    }
  }
}
