/** Orders of the numbers below `n` that respect dependencies, and the cycles that rule them out. */
module Orderings {

  /** What each number has to come after. */
  type Deps = seq<set<nat>>

  predicate DependsOn(d: Deps, i: nat, j: nat) {
    i < |d| && j < |d| && j in d[i]
  }

  // ----- cycles

  predicate DependsAt(d: Deps, p: seq<nat>, k: nat)
    requires k + 1 < |p|
  {
    DependsOn(d, p[k], p[k + 1])
  }

  ghost predicate DependencyWalk(d: Deps, p: seq<nat>) {
    p != [] && forall k: nat | k + 1 < |p| :: DependsAt(d, p, k)
  }

  ghost predicate Cycle(d: Deps, p: seq<nat>) {
    DependencyWalk(d, p) && |p| >= 2 && p[0] == p[|p| - 1]
  }

  ghost predicate HasCycle(d: Deps) {
    exists p :: Cycle(d, p)
  }

  // ----- orders

  /** No index twice, none out of range. */
  ghost predicate Listing(order: seq<nat>, n: nat) {
    && (forall a | 0 <= a < |order| :: order[a] < n)
    && (forall a, b | 0 <= a < b < |order| :: order[a] != order[b])
  }

  /** `perm` lists each position below `n` once. */
  ghost predicate Permutation(perm: seq<nat>, n: nat) {
    && |perm| == n
    && (forall i | 0 <= i < n :: perm[i] < n)
    && (forall i, j | 0 <= i < j < n :: perm[i] != perm[j])
    && (forall v: nat | v < n :: v in perm)
  }

  function Along<T>(xs: seq<T>, perm: seq<nat>): seq<T>
    requires forall i | 0 <= i < |perm| :: perm[i] < |xs|
  {
    seq(|perm|, i requires 0 <= i < |perm| => xs[perm[i]])
  }

  /** The order things are in already. */
  function InOrder(n: nat): seq<nat> {
    seq(n, i => i)
  }

  lemma InOrderIsPermutation(n: nat)
    ensures Permutation(InOrder(n), n)
  {
    forall v: nat | v < n ensures v in InOrder(n) { assert InOrder(n)[v] == v; }
  }

  lemma PositionOf(perm: seq<nat>, n: nat, v: nat) returns (q: nat)
    requires Permutation(perm, n) && v < n
    ensures q < |perm| && perm[q] == v
  {
    assert v in perm;
    q :| 0 <= q < |perm| && perm[q] == v;
  }

  lemma Composed<T>(xs: seq<T>, p: seq<nat>, q: seq<nat>)
    requires Permutation(p, |xs|) && Permutation(q, |xs|)
    ensures Permutation(Along(p, q), |xs|) && Along(Along(xs, p), q) == Along(xs, Along(p, q))
  {
    forall v: nat | v < |xs| ensures v in Along(p, q) {
      var i := PositionOf(p, |xs|, v);
      var j := PositionOf(q, |xs|, i);
      assert Along(p, q)[j] == v;
    }
  }

  /** The order that undoes an order. */
  lemma Undone<T>(xs: seq<T>, p: seq<nat>) returns (q: seq<nat>)
    requires Permutation(p, |xs|)
    ensures Permutation(q, |xs|) && Along(p, q) == InOrder(|xs|) && Along(Along(xs, q), p) == xs
  {
    q := [];
    for n := 0 to |xs|
      invariant |q| == n && forall v | 0 <= v < n :: q[v] < |xs| && p[q[v]] == v
    {
      var i := PositionOf(p, |xs|, n);
      q := q + [i];
    }
    forall i: nat | i < |xs| ensures q[p[i]] == i && i in q {
      assert p[q[p[i]]] == p[i];
    }
  }

  lemma AlongUndone<T>(xs: seq<T>, p: seq<nat>, q: seq<nat>)
    requires Permutation(p, |xs|) && Permutation(q, |xs|) && Along(p, q) == InOrder(|xs|)
    ensures Along(Along(xs, p), q) == xs
  {
    Composed(xs, p, q);
  }

  ghost predicate AfterDependencies(d: Deps, order: seq<nat>, a: nat)
    requires a < |order|
  {
    forall j: nat | DependsOn(d, order[a], j) :: j in order[..a]
  }

  /** Everything comes after what it depends on. */
  ghost predicate Topological(d: Deps, order: seq<nat>) {
    forall a: nat | a < |order| :: AfterDependencies(d, order, a)
  }

  lemma {:induction false} ListingBound(order: seq<nat>, n: nat)
    requires Listing(order, n)
    ensures |order| <= n
    ensures |order| == n ==> forall v: nat | v < n :: v in order
  {
    var first := if order == [] then 0 else order[0];
    assert order != [] ==> first < n;
    if n == 0 {
    } else if p :| 0 <= p < |order| && order[p] == n - 1 {
      var rest := order[..p] + order[p + 1..];
      assert forall a | 0 <= a < |rest| :: rest[a] == order[if a < p then a else a + 1];
      ListingBound(rest, n - 1);
      forall v: nat | v in rest ensures v in order { }
    } else {
      ListingBound(order, n - 1);
    }
  }

  lemma {:induction false} CoversAll(order: seq<nat>, n: nat)
    requires Listing(order, n) && forall v: nat | v < n :: v in order
    ensures |order| == n
  {
    ListingBound(order, n);
    if n > 0 {
      assert n - 1 in order;
      var p :| 0 <= p < |order| && order[p] == n - 1;
      var rest := order[..p] + order[p + 1..];
      assert forall a | 0 <= a < |rest| :: rest[a] == order[if a < p then a else a + 1];
      forall v: nat | v < n - 1 ensures v in rest {
        assert v in order;
        var a :| 0 <= a < |order| && order[a] == v;
        assert rest[if a < p then a else a - 1] == v;
      }
      CoversAll(rest, n - 1);
    }
  }

  // ----- an order that respects dependencies rules out cycles, and being stuck means one

  lemma {:induction false} Descends(d: Deps, order: seq<nat>, p: seq<nat>, start: nat, k: nat) returns (a: nat)
    requires Topological(d, order) && DependencyWalk(d, p)
    requires start < |order| && order[start] == p[0] && k < |p|
    ensures a + k <= start && order[a] == p[k]
    decreases k
  {
    if k == 0 {
      a := start;
    } else {
      var b := Descends(d, order, p, start, k - 1);
      assert DependsAt(d, p, k - 1);
      assert AfterDependencies(d, order, b);
      assert p[k] in order[..b];
      a :| 0 <= a < b && order[..b][a] == p[k];
    }
  }

  lemma OrderedMeansAcyclic(d: Deps, order: seq<nat>)
    requires Listing(order, |d|) && |order| == |d| && Topological(d, order)
    ensures !HasCycle(d)
  {
    ListingBound(order, |d|);
    forall p ensures !Cycle(d, p) {
      if Cycle(d, p) {
        assert DependsAt(d, p, 0);
        assert p[0] in order;
        var start :| 0 <= start < |order| && order[start] == p[0];
        var a := Descends(d, order, p, start, |p| - 1);
        assert false;
      }
    }
  }

  /** Everything not listed yet waits for something not listed. */
  ghost predicate Stuck(d: Deps, order: seq<nat>) {
    forall i: nat | i < |d| && i !in order :: exists j :: DependsOn(d, i, j) && j !in order
  }

  lemma DependsInRange(d: Deps, i: nat, j: nat)
    requires DependsOn(d, i, j)
    ensures i < |d| && j < |d|
  {
  }

  lemma {:induction false} StuckWalk(d: Deps, order: seq<nat>, i: nat, len: nat) returns (w: seq<nat>)
    requires Stuck(d, order) && i < |d| && i !in order
    ensures |w| == len + 1 && DependencyWalk(d, w) && w[0] == i
    ensures forall a | 0 <= a < |w| :: w[a] < |d|
    decreases len
  {
    hide DependsOn;
    if len == 0 {
      w := [i];
    } else {
      var j: nat :| DependsOn(d, i, j) && j !in order;
      DependsInRange(d, i, j);
      var rest := StuckWalk(d, order, j, len - 1);
      w := [i] + rest;
      forall k: nat | k + 1 < |w| ensures DependsAt(d, w, k) {
        if k > 0 { assert DependsAt(d, rest, k - 1); }
      }
    }
  }

  lemma StuckMeansCycle(d: Deps, order: seq<nat>, i: nat)
    requires Stuck(d, order) && i < |d| && i !in order
    ensures HasCycle(d)
  {
    hide DependsOn;
    var w := StuckWalk(d, order, i, |d|);
    if Listing(w, |d|) { ListingBound(w, |d|); }
    var a, b :| 0 <= a < b < |w| && w[a] == w[b];
    var p := w[a..b + 1];
    forall k: nat | k + 1 < |p| ensures DependsAt(d, p, k) { assert DependsAt(d, w, a + k); }
    assert Cycle(d, p);
  }

  // ----- without a cycle there is an order

  lemma ExtendOrder(d: Deps, order: seq<nat>, i: nat)
    requires Listing(order, |d|) && Topological(d, order)
    requires i < |d| && i !in order && forall j: nat | DependsOn(d, i, j) :: j in order
    ensures Listing(order + [i], |d|) && Topological(d, order + [i]) && |order| < |d|
  {
    hide DependsOn;
    var grown := order + [i];
    assert forall a | 0 <= a < |order| :: order[a] in order;
    ListingBound(grown, |d|);
    forall a: nat | a < |grown| ensures AfterDependencies(d, grown, a) {
      if a < |order| {
        assert AfterDependencies(d, order, a) && grown[..a] == order[..a];
      } else {
        assert grown[..a] == order;
      }
    }
  }

  lemma {:induction false} CompleteOrder(d: Deps, order: seq<nat>) returns (all: seq<nat>)
    requires !HasCycle(d) && Listing(order, |d|) && Topological(d, order)
    ensures Permutation(all, |d|) && Topological(d, all)
    decreases |d| - |order|
  {
    ListingBound(order, |d|);
    if |order| == |d| {
      all := order;
    } else {
      hide DependsOn, Topological, HasCycle;
      if forall v: nat | v < |d| :: v in order { CoversAll(order, |d|); }
      var u: nat :| u < |d| && u !in order;
      if Stuck(d, order) { StuckMeansCycle(d, order, u); }
      var i: nat :| i < |d| && i !in order && forall j: nat | DependsOn(d, i, j) :: j in order;
      ExtendOrder(d, order, i);
      all := CompleteOrder(d, order + [i]);
    }
  }

  /** Some order respects all dependencies exactly when they have no cycle. */
  lemma OrderExactly(d: Deps)
    ensures (exists order :: Permutation(order, |d|) && Topological(d, order)) <==> !HasCycle(d)
  {
    if !HasCycle(d) {
      var order := CompleteOrder(d, []);
    }
    forall order | Permutation(order, |d|) && Topological(d, order) ensures !HasCycle(d) {
      OrderedMeansAcyclic(d, order);
    }
  }
}
