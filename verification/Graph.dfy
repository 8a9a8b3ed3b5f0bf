/** The theory behind the launcher and the kernel's dependency graph: the set of services that
    a dependency-respecting launch order reaches is a least fixpoint. Service i of a graph needs
    every service in deps[i]; `ok(i)` says whether spawning i succeeds. */
module Graph {

  type Deps = seq<set<nat>>

  datatype Attempt = Attempt(service: nat, ok: bool)

  /** Services whose spawn succeeded somewhere in the log. */
  ghost function Started(log: seq<Attempt>): (s: set<nat>)
    ensures forall i :: i in s <==> Attempt(i, true) in log
  {
    set a | a in log && a.ok :: a.service
  }

  /** The k-th attempt is of a known service that is not up yet and whose dependencies all are. */
  ghost predicate OrderlyAt(deps: Deps, log: seq<Attempt>, k: nat)
    requires k < |log|
  {
    && log[k].service < |deps|
    && deps[log[k].service] <= Started(log[..k])
    && log[k].service !in Started(log[..k])
  }

  ghost predicate Orderly(deps: Deps, log: seq<Attempt>) {
    forall k {:trigger OrderlyAt(deps, log, k)} | 0 <= k < |log| :: OrderlyAt(deps, log, k)
  }

  /** Nothing is left that could be started: an unstarted service lacks a dependency or failed in `tail`. */
  ghost predicate Exhausted(deps: Deps, log: seq<Attempt>, tail: seq<Attempt>) {
    forall i | 0 <= i < |deps| && i !in Started(log) && deps[i] <= Started(log) ::
      Attempt(i, false) in tail
  }

  /** Each attempt had the outcome fixed for its service. */
  ghost predicate Fixed(ok: nat -> bool, log: seq<Attempt>) {
    forall k | 0 <= k < |log| :: log[k].ok == ok(log[k].service)
  }

  ghost predicate IsFixpoint(deps: Deps, ok: nat -> bool, x: set<nat>) {
    forall i: nat :: i in x <==> i < |deps| && ok(i) && deps[i] <= x
  }

  /** x contains every service that can start once x is up. */
  ghost predicate Closed(deps: Deps, ok: nat -> bool, x: set<nat>) {
    forall i | 0 <= i < |deps| && ok(i) && deps[i] <= x :: i in x
  }

  ghost predicate IsLeast(deps: Deps, ok: nat -> bool, x: set<nat>) {
    IsFixpoint(deps, ok, x) && forall y | Closed(deps, ok, y) :: x <= y
  }

  lemma {:induction false} OrderlyWithin(deps: Deps, ok: nat -> bool, log: seq<Attempt>, y: set<nat>)
    requires Orderly(deps, log) && Fixed(ok, log) && Closed(deps, ok, y)
    ensures Started(log) <= y
  {
    var k := 0;
    while k < |log|
      invariant 0 <= k <= |log|
      invariant Started(log[..k]) <= y
    {
      assert OrderlyAt(deps, log, k);
      assert log[..k + 1] == log[..k] + [log[k]];
      k := k + 1;
    }
    assert log[..k] == log;
  }

  /** With fixed outcomes, any orderly launch that leaves nothing startable reaches exactly the least fixpoint. */
  lemma {:induction false} ExhaustedIsLeast(deps: Deps, ok: nat -> bool, log: seq<Attempt>, tail: seq<Attempt>)
    requires Orderly(deps, log) && Fixed(ok, log) && Exhausted(deps, log, tail)
    requires forall a :: a in tail ==> a in log
    ensures IsLeast(deps, ok, Started(log))
  {
    var x := Started(log);
    forall i: nat
      ensures i in x <==> i < |deps| && ok(i) && deps[i] <= x
    {
      if i in x {
        var k :| 0 <= k < |log| && log[k] == Attempt(i, true);
        assert OrderlyAt(deps, log, k);
        assert Started(log[..k]) <= x;
      } else if i < |deps| && deps[i] <= x {
        var k :| 0 <= k < |log| && log[k] == Attempt(i, false);
      }
    }
    forall y | Closed(deps, ok, y)
      ensures x <= y
    {
      OrderlyWithin(deps, ok, log, y);
    }
  }

  lemma {:induction false} LeastUnique(deps: Deps, ok: nat -> bool, x: set<nat>, y: set<nat>)
    requires IsLeast(deps, ok, x) && IsLeast(deps, ok, y)
    ensures x == y
  {
    assert Closed(deps, ok, x) && Closed(deps, ok, y);
  }

  // ----- renaming: the result does not depend on table order -----

  ghost predicate IsRenaming(p: seq<nat>) {
    && (forall i | 0 <= i < |p| :: p[i] < |p|)
    && (forall i, j | 0 <= i < j < |p| :: p[i] != p[j])
    && (forall m: nat | m < |p| :: m in p)
  }

  ghost function Image(p: seq<nat>, x: set<nat>): set<nat> {
    set i | i in x && i < |p| :: p[i]
  }

  /** `deps2`/`ok2` is the same graph with service i moved to table position p[i]. */
  ghost predicate Reordered(deps: Deps, ok: nat -> bool, p: seq<nat>, deps2: Deps, ok2: nat -> bool) {
    && IsRenaming(p) && |p| == |deps| == |deps2|
    && (forall i, d | 0 <= i < |deps| && d in deps[i] :: d < |deps|)
    && (forall i | 0 <= i < |p| :: ok2(p[i]) == ok(i) && deps2[p[i]] == Image(p, deps[i]))
  }

  lemma {:induction false} ImageIn(p: seq<nat>, x: set<nat>, i: nat)
    requires IsRenaming(p) && i < |p|
    ensures p[i] in Image(p, x) <==> i in x
  {}

  lemma {:induction false} ImageSubset(p: seq<nat>, x: set<nat>, y: set<nat>)
    requires IsRenaming(p) && forall i | i in x :: i < |p|
    ensures Image(p, x) <= Image(p, y) <==> x <= y
  {
    if Image(p, x) <= Image(p, y) {
      forall i | i in x
        ensures i in y
      {
        ImageIn(p, x, i);
        ImageIn(p, y, i);
      }
    }
  }

  lemma {:induction false} PulledBackClosed(deps: Deps, ok: nat -> bool, p: seq<nat>,
                                            deps2: Deps, ok2: nat -> bool, x2: set<nat>)
    requires Reordered(deps, ok, p, deps2, ok2) && IsFixpoint(deps2, ok2, x2)
    ensures Closed(deps, ok, set i: nat | i < |p| && p[i] in x2)
  {}

  /** Reordering the service table reorders the result and changes nothing else. */
  lemma {:induction false} LeastReordered(deps: Deps, ok: nat -> bool, x: set<nat>,
                       p: seq<nat>, deps2: Deps, ok2: nat -> bool, x2: set<nat>)
    requires Reordered(deps, ok, p, deps2, ok2)
    requires IsLeast(deps, ok, x) && IsLeast(deps2, ok2, x2)
    ensures x2 == Image(p, x)
  {
    forall m: nat | m < |deps2| && ok2(m) && deps2[m] <= Image(p, x)
      ensures m in Image(p, x)
    {
      assert m in p;
      var i :| 0 <= i < |p| && p[i] == m;
      ImageSubset(p, deps[i], x);
      assert i in x;
    }
    assert Closed(deps2, ok2, Image(p, x));
    PulledBackClosed(deps, ok, p, deps2, ok2, x2);
  }

  // ----- cycles -----

  /** A nonempty walk along dependency edges. */
  ghost predicate IsWalk(deps: Deps, w: seq<nat>) {
    && (forall k | 0 <= k < |w| :: w[k] < |deps|)
    && (forall j, k | 0 <= j && k == j + 1 < |w| :: w[k] in deps[w[j]])
  }

  ghost predicate Acyclic(deps: Deps) {
    forall w: seq<nat> | |w| > 1 && IsWalk(deps, w) :: w[0] != w[|w| - 1]
  }

  ghost predicate InRange(deps: Deps) {
    forall i, d | 0 <= i < |deps| && d in deps[i] :: d < |deps|
  }

  ghost predicate NeedsMember(deps: Deps, u: set<nat>, i: nat)
    requires i < |deps|
  {
    exists d :: d in deps[i] && d in u
  }

  /** Every member of u waits for some member of u. */
  ghost predicate Stuck(deps: Deps, u: set<nat>) {
    && (forall i | i in u :: i < |deps|)
    && (forall i {:trigger NeedsMember(deps, u, i)} | i in u :: NeedsMember(deps, u, i))
  }

  /** Inside a stuck set there are walks of any length. */
  lemma {:induction false} LongWalk(deps: Deps, u: set<nat>, n: nat) returns (w: seq<nat>)
    requires u != {} && Stuck(deps, u)
    ensures |w| == n + 1 && IsWalk(deps, w) && forall k | 0 <= k <= n :: w[k] in u
  {
    if n == 0 {
      var i :| i in u;
      w := [i];
    } else {
      var w' := LongWalk(deps, u, n - 1);
      assert NeedsMember(deps, u, w'[n - 1]);
      var d :| d in deps[w'[n - 1]] && d in u;
      w := w' + [d];
    }
  }

  lemma {:induction false} Pigeonhole(w: seq<nat>, u: set<nat>) returns (a: nat, b: nat)
    requires |w| > |u| && forall k | 0 <= k < |w| :: w[k] in u
    ensures a < b < |w| && w[a] == w[b]
    decreases |w|
  {
    var n := |w| - 1;
    if k :| 0 <= k < n && w[k] == w[n] {
      a, b := k, n;
    } else {
      assert |u - {w[n]}| == |u| - 1;
      a, b := Pigeonhole(w[..n], u - {w[n]});
    }
  }

  /** A set that never contains a dependency-minimal element exposes a cycle. */
  lemma {:induction false} StuckMeansCycle(deps: Deps, u: set<nat>)
    requires u != {} && Stuck(deps, u)
    ensures !Acyclic(deps)
  {
    var w := LongWalk(deps, u, |u|);
    var a, b := Pigeonhole(w, u);
    var c := w[a..b + 1];
    assert forall k | 0 <= k < |c| :: c[k] == w[a + k];
    assert IsWalk(deps, c) && c[0] == c[|c| - 1];
  }

  /** In an orderly log a walk along dependencies goes strictly back in time. */
  lemma {:induction false} WalkGoesBack(deps: Deps, log: seq<Attempt>, w: seq<nat>, a: nat)
    requires Orderly(deps, log) && IsWalk(deps, w) && |w| > 1
    requires a < |log| && log[a] == Attempt(w[0], true)
    ensures exists b :: 0 <= b < a && log[b] == Attempt(w[|w| - 1], true)
  {
    assert OrderlyAt(deps, log, a) && w[1] in deps[w[0]];
    assert w[1] in Started(log[..a]);
    var b :| 0 <= b < a && log[b] == Attempt(w[1], true);
    if |w| > 2 {
      WalkGoesBack(deps, log, w[1..], b);
    }
  }

  /** Everything starts exactly when every spawn succeeds, no dependency dangles and there is no cycle. */
  lemma {:induction false} AllStartIff(deps: Deps, ok: nat -> bool, log: seq<Attempt>, tail: seq<Attempt>)
    requires Orderly(deps, log) && Fixed(ok, log) && Exhausted(deps, log, tail)
    requires forall a :: a in tail ==> a in log
    ensures (forall i | 0 <= i < |deps| :: i in Started(log)) <==>
            InRange(deps) && Acyclic(deps) && forall i | 0 <= i < |deps| :: ok(i)
  {
    ExhaustedIsLeast(deps, ok, log, tail);
    var x := Started(log);
    if forall i | 0 <= i < |deps| :: i in x {
      forall w: seq<nat> | |w| > 1 && IsWalk(deps, w)
        ensures w[0] != w[|w| - 1]
      {
        if w[0] == w[|w| - 1] {
          assert w[0] in x;
          var a :| 0 <= a < |log| && log[a] == Attempt(w[0], true);
          assert OrderlyAt(deps, log, a);
          WalkGoesBack(deps, log, w, a);
        }
      }
    } else if InRange(deps) && forall i | 0 <= i < |deps| :: ok(i) {
      var u := set i: nat | i < |deps| && i !in x;
      var s :| 0 <= s < |deps| && s !in x;
      assert s in u;
      forall i | i in u
        ensures NeedsMember(deps, u, i)
      {
        var d :| d in deps[i] && d !in x;
        assert d in u;
      }
      StuckMeansCycle(deps, u);
    }
  }
}
