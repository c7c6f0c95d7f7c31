/** The conflict-free zone of the scheduler: transactions strung into dependency chains, greedily and lowest index
    first. */
module CdsChains {
  import opened CdsCommit
  import opened Orderings
  import opened Options

  /** `i` depends on `j` if it reads a key that `j` writes. */
  function Reads(txs: seq<Tx>): Deps {
    seq(|txs|, i requires 0 <= i < |txs| => set j | 0 <= j < |txs| && i != j && !(txs[i].readKeys !! txs[j].writeKeys))
  }

  // ----- chains

  /** In a chain each transaction depends on the one before it. */
  ghost predicate Linked(d: Deps, chain: seq<nat>) {
    chain != [] && forall k: nat | k + 1 < |chain| :: DependsOn(d, chain[k + 1], chain[k])
  }

  /** `i` is not listed, all it depends on is, and it depends on `after` if that is given. */
  ghost predicate ReadyIn(d: Deps, order: seq<nat>, after: Option<nat>, i: nat) {
    && i < |d| && i !in order
    && (after.Some? ==> DependsOn(d, i, after.value))
    && (forall j: nat | DependsOn(d, i, j) :: j in order)
  }

  ghost predicate Lowest(d: Deps, order: seq<nat>, after: Option<nat>, i: nat) {
    ReadyIn(d, order, after, i) && forall m: nat | m < i :: !ReadyIn(d, order, after, m)
  }

  function Before(chain: seq<nat>, k: nat): Option<nat>
    requires k <= |chain|
  {
    if k == 0 then None else Some(chain[k - 1])
  }

  /** The `k`-th transaction of the chain is the lowest ready one, and depends on the one before it. */
  ghost predicate PickedAt(d: Deps, order: seq<nat>, chain: seq<nat>, k: nat)
    requires k < |chain|
  {
    Lowest(d, order + chain[..k], Before(chain, k), chain[k])
  }

  ghost predicate Picked(d: Deps, order: seq<nat>, chain: seq<nat>) {
    chain != [] && forall k: nat | k < |chain| :: PickedAt(d, order, chain, k)
  }

  /** A chain ends when nothing ready depends on its last transaction. */
  ghost predicate Exhausted(d: Deps, order: seq<nat>, chain: seq<nat>) {
    forall i: nat :: !ReadyIn(d, order + chain, Before(chain, |chain|), i)
  }

  ghost predicate ChainAt(d: Deps, chains: seq<seq<nat>>, g: nat)
    requires g < |chains|
  {
    Picked(d, Flatten(chains[..g]), chains[g]) && Exhausted(d, Flatten(chains[..g]), chains[g])
  }

  ghost predicate GreedyChains(d: Deps, chains: seq<seq<nat>>) {
    forall g: nat | g < |chains| :: ChainAt(d, chains, g)
  }

  lemma PickedIsLinked(d: Deps, order: seq<nat>, chain: seq<nat>)
    requires Picked(d, order, chain)
    ensures Linked(d, chain)
  {
    hide DependsOn;
    forall k: nat | k + 1 < |chain| ensures DependsOn(d, chain[k + 1], chain[k]) {
      assert PickedAt(d, order, chain, k + 1);
    }
  }

  lemma PickedGrows(d: Deps, order: seq<nat>, chain: seq<nat>, i: nat)
    requires (chain == [] || Picked(d, order, chain)) && Lowest(d, order + chain, Before(chain, |chain|), i)
    ensures Picked(d, order, chain + [i])
  {
    hide Lowest;
    var grown := chain + [i];
    forall k: nat | k < |grown| ensures PickedAt(d, order, grown, k) {
      if k < |chain| {
        assert PickedAt(d, order, chain, k) && grown[..k] == chain[..k];
      } else {
        assert grown[..k] == chain;
      }
    }
  }

  lemma ChainsGrow(d: Deps, chains: seq<seq<nat>>, chain: seq<nat>)
    requires GreedyChains(d, chains) && Picked(d, Flatten(chains), chain) && Exhausted(d, Flatten(chains), chain)
    ensures GreedyChains(d, chains + [chain]) && Flatten(chains + [chain]) == Flatten(chains) + chain && chain != []
  {
    var grown := chains + [chain];
    assert grown[..|chains|] == chains;
    assert Flatten(grown) == Flatten(chains) + chain;
    hide Exhausted, Flatten, PickedAt;
    forall g: nat | g < |grown| ensures ChainAt(d, grown, g) {
      if g < |chains| { assert ChainAt(d, chains, g) && grown[..g] == chains[..g]; }
    }
  }

  // ----- the chains are determined

  lemma {:induction false} SamePrefix(d: Deps, order: seq<nat>, c: seq<nat>, e: seq<nat>, k: nat)
    requires Picked(d, order, c) && Picked(d, order, e) && k <= |c| && k <= |e|
    ensures c[..k] == e[..k]
  {
    if k > 0 {
      SamePrefix(d, order, c, e, k - 1);
      hide ReadyIn;
      assert PickedAt(d, order, c, k - 1) && PickedAt(d, order, e, k - 1);
      assert Before(c, k - 1) == Before(e, k - 1) by { if k > 1 { assert c[..k - 1][k - 2] == e[..k - 1][k - 2]; } }
      assert c[k - 1] == e[k - 1];
      assert c[..k] == c[..k - 1] + [c[k - 1]] && e[..k] == e[..k - 1] + [e[k - 1]];
    }
  }

  lemma LongerIsReady(d: Deps, order: seq<nat>, c: seq<nat>, e: seq<nat>)
    requires Picked(d, order, c) && Picked(d, order, e) && |c| < |e|
    ensures ReadyIn(d, order + c, Before(c, |c|), e[|c|])
  {
    SamePrefix(d, order, c, e, |c|);
    hide ReadyIn;
    assert PickedAt(d, order, e, |c|);
    assert c[..|c|] == c && e[..|c|][|c| - 1] == e[|c| - 1];
  }

  lemma SameChain(d: Deps, order: seq<nat>, c: seq<nat>, e: seq<nat>)
    requires Picked(d, order, c) && Exhausted(d, order, c) && Picked(d, order, e) && Exhausted(d, order, e)
    ensures c == e
  {
    if |c| < |e| { LongerIsReady(d, order, c, e); }
    if |e| < |c| { LongerIsReady(d, order, e, c); }
    SamePrefix(d, order, c, e, |c|);
    assert c[..|c|] == c && e[..|e|] == e;
  }

  lemma {:induction false} SameChains(d: Deps, cs: seq<seq<nat>>, ds: seq<seq<nat>>, k: nat)
    requires GreedyChains(d, cs) && GreedyChains(d, ds) && k <= |cs| && k <= |ds|
    ensures cs[..k] == ds[..k]
  {
    if k > 0 {
      SameChains(d, cs, ds, k - 1);
      assert ChainAt(d, cs, k - 1) && ChainAt(d, ds, k - 1);
      hide Picked, Exhausted;
      SameChain(d, Flatten(cs[..k - 1]), cs[k - 1], ds[k - 1]);
      assert cs[..k] == cs[..k - 1] + [cs[k - 1]] && ds[..k] == ds[..k - 1] + [ds[k - 1]];
    }
  }

  lemma NoChainAfterAll(d: Deps, chains: seq<seq<nat>>, g: nat)
    requires g < |chains| && ChainAt(d, chains, g)
    ensures !Permutation(Flatten(chains[..g]), |d|)
  {
    assert PickedAt(d, Flatten(chains[..g]), chains[g], 0);
    assert Flatten(chains[..g]) + chains[g][..0] == Flatten(chains[..g]);
  }

  lemma NoMoreChains(d: Deps, cs: seq<seq<nat>>, ds: seq<seq<nat>>)
    requires GreedyChains(d, cs) && Permutation(Flatten(cs), |d|) && GreedyChains(d, ds)
    ensures |ds| <= |cs|
  {
    if |cs| < |ds| {
      SameChains(d, cs, ds, |cs|);
      assert cs[..|cs|] == cs;
      NoChainAfterAll(d, ds, |cs|);
    }
  }

  /** Every greedy division into chains is the same one. */
  lemma ChainsUnique(d: Deps, cs: seq<seq<nat>>, ds: seq<seq<nat>>)
    requires GreedyChains(d, cs) && Permutation(Flatten(cs), |d|)
    requires GreedyChains(d, ds) && Permutation(Flatten(ds), |d|)
    ensures cs == ds
  {
    hide GreedyChains, Permutation;
    NoMoreChains(d, cs, ds);
    NoMoreChains(d, ds, cs);
    SameChains(d, cs, ds, |cs|);
    assert cs[..|cs|] == cs && ds[..|ds|] == ds;
  }

  // ----- `build_conflict_free_chain_indices`

  /** The lists hold exactly the dependencies. */
  ghost predicate Lists(d: Deps, lists: seq<seq<nat>>) {
    |lists| == |d| && forall i: nat | i < |d| :: ListsAt(d, lists[i], i)
  }

  ghost predicate ListsAt(d: Deps, list: seq<nat>, i: nat) {
    forall j: nat :: j in list <==> DependsOn(d, i, j)
  }

  method DependencyLists(txs: seq<Tx>) returns (dependsOn: seq<seq<nat>>)
    ensures Lists(Reads(txs), dependsOn)
  {
    dependsOn := [];
    for i := 0 to |txs|
      invariant |dependsOn| == i && forall m: nat | m < i :: ListsAt(Reads(txs), dependsOn[m], m)
    {
      var list: seq<nat> := [];
      for j := 0 to |txs|
        invariant forall m: nat :: m in list <==> m < j && DependsOn(Reads(txs), i, m)
      {
        if i != j && !(txs[i].readKeys !! txs[j].writeKeys) {
          list := list + [j];
        }
      }
      dependsOn := dependsOn + [list];
    }
  }

  /** Not assigned, all its dependencies are, and it depends on `after` if that is given. */
  ghost predicate Ready(d: Deps, done: seq<bool>, after: Option<nat>, i: nat)
    requires |done| == |d|
  {
    && i < |d| && !done[i]
    && (after.Some? ==> DependsOn(d, i, after.value))
    && (forall j: nat | DependsOn(d, i, j) :: done[j])
  }

  method FindReady(ghost d: Deps, dependsOn: seq<seq<nat>>, taken: array<bool>, after: Option<nat>)
    returns (r: Option<nat>)
    requires Lists(d, dependsOn) && taken.Length == |d|
    ensures r.Some? ==> Ready(d, taken[..], after, r.value)
    ensures r.Some? ==> forall i: nat | i < r.value :: !Ready(d, taken[..], after, i)
    ensures r.None? ==> forall i: nat | i < |d| :: !Ready(d, taken[..], after, i)
  {
    for i := 0 to taken.Length
      invariant forall m: nat | m < i :: !Ready(d, taken[..], after, m)
    {
      var deps := dependsOn[i];
      assert ListsAt(d, deps, i);
      assert forall k | 0 <= k < |deps| :: deps[k] in deps;
      if !taken[i] && (after.None? || after.value in deps) && (forall k | 0 <= k < |deps| :: taken[deps[k]]) {
        return Some(i);
      }
    }
    r := None;
  }

  ghost predicate Tracks(d: Deps, done: seq<bool>, order: seq<nat>) {
    && |done| == |d|
    && Listing(order, |d|) && Topological(d, order)
    && forall i: nat | i < |d| :: done[i] <==> i in order
  }

  lemma Assigns(d: Deps, done: seq<bool>, order: seq<nat>, after: Option<nat>, i: nat)
    requires Tracks(d, done, order) && Ready(d, done, after, i)
    ensures Tracks(d, done[i := true], order + [i]) && |order| < |d|
  {
    hide DependsOn, Listing, Topological;
    forall j: nat | DependsOn(d, i, j) ensures j in order { DependsInRange(d, i, j); }
    ExtendOrder(d, order, i);
  }

  lemma ReadyByOrder(d: Deps, done: seq<bool>, order: seq<nat>, after: Option<nat>, i: nat)
    requires Tracks(d, done, order)
    ensures ReadyIn(d, order, after, i) <==> Ready(d, done, after, i)
  {
    hide DependsOn;
    forall j: nat | DependsOn(d, i, j) ensures j < |d| { DependsInRange(d, i, j); }
  }

  lemma FoundIsLowest(d: Deps, done: seq<bool>, order: seq<nat>, after: Option<nat>, i: nat)
    requires Tracks(d, done, order) && Ready(d, done, after, i) && forall m: nat | m < i :: !Ready(d, done, after, m)
    ensures Lowest(d, order, after, i)
  {
    assert |done| == |d|;
    hide Ready, Tracks, ReadyIn;
    forall m: nat | m <= i ensures ReadyIn(d, order, after, m) <==> Ready(d, done, after, m) {
      ReadyByOrder(d, done, order, after, m);
    }
  }

  lemma NoneReady(d: Deps, done: seq<bool>, order: seq<nat>, chain: seq<nat>)
    requires Tracks(d, done, order + chain)
    requires forall i: nat | i < |d| :: !Ready(d, done, Before(chain, |chain|), i)
    ensures Exhausted(d, order, chain)
  {
    forall i: nat ensures !ReadyIn(d, order + chain, Before(chain, |chain|), i) {
      ReadyByOrder(d, done, order + chain, Before(chain, |chain|), i);
    }
  }

  lemma NoneReadyAtAll(d: Deps, done: seq<bool>, order: seq<nat>)
    requires Tracks(d, done, order) && forall i: nat | i < |d| :: !Ready(d, done, None, i)
    ensures Stuck(d, order)
  {
    hide DependsOn;
    forall i: nat | i < |d| && i !in order ensures exists j :: DependsOn(d, i, j) && j !in order {
      assert !Ready(d, done, None, i);
      forall j: nat | DependsOn(d, i, j) ensures j < |d| { DependsInRange(d, i, j); }
      var j: nat :| j < |d| && DependsOn(d, i, j) && !done[j];
      DependsInRange(d, i, j);
    }
  }

  /** The inner loop: the chain from `start` until nothing extends it. */
  method GrowChain(ghost d: Deps, dependsOn: seq<seq<nat>>, taken: array<bool>, start: nat, ghost order: seq<nat>)
    returns (chain: seq<nat>)
    requires Lists(d, dependsOn) && taken.Length == |d|
    requires Tracks(d, taken[..], order)
    requires Ready(d, taken[..], None, start) && forall m: nat | m < start :: !Ready(d, taken[..], None, m)
    modifies taken
    ensures Tracks(d, taken[..], order + chain)
    ensures Picked(d, order, chain) && Exhausted(d, order, chain)
  {
    hide Tracks, Ready, DependsOn, Lists, Picked, Exhausted, Lowest;
    chain := [start];
    FoundIsLowest(d, taken[..], order, None, start);
    assert order + [] == order && [] + [start] == [start];
    PickedGrows(d, order, [], start);
    Assigns(d, taken[..], order, None, start);
    ReadyInRange(d, taken[..], None, start);
    ghost var before := taken[..];
    taken[start] := true;
    assert taken[..] == before[start := true];
    var growing := true;
    while growing
      invariant taken.Length == |d| && Tracks(d, taken[..], order + chain)
      invariant chain != [] && Picked(d, order, chain) && |chain| <= |d|
      invariant !growing ==> Exhausted(d, order, chain)
      decreases growing, |d| - |chain|
    {
      var last := chain[|chain| - 1];
      var next := FindReady(d, dependsOn, taken, Some(last));
      if next.Some? {
        FoundIsLowest(d, taken[..], order + chain, Some(last), next.value);
        PickedGrows(d, order, chain, next.value);
        Assigns(d, taken[..], order + chain, Some(last), next.value);
        ReadyInRange(d, taken[..], Some(last), next.value);
        assert order + chain + [next.value] == order + (chain + [next.value]);
        before := taken[..];
        taken[next.value] := true;
        assert taken[..] == before[next.value := true];
        chain := chain + [next.value];
      } else {
        NoneReady(d, taken[..], order, chain);
        growing := false;
      }
    }
  }

  lemma ReadyInRange(d: Deps, done: seq<bool>, after: Option<nat>, i: nat)
    requires |done| == |d| && Ready(d, done, after, i)
    ensures i < |d| && !done[i] && (after.Some? ==> DependsOn(d, i, after.value))
  {
  }

  /** `None` is the panic over a cycle; it happens exactly when there is one. Otherwise every transaction is in one
      chain, chains are dependency paths, and chain after chain nothing comes before what it depends on. */
  method BuildChains(txs: seq<Tx>) returns (r: Option<seq<seq<nat>>>)
    ensures r.None? <==> HasCycle(Reads(txs))
    ensures r.Some? ==> Permutation(Flatten(r.value), |txs|) && Topological(Reads(txs), Flatten(r.value))
    ensures r.Some? ==> GreedyChains(Reads(txs), r.value)
  {
    ghost var d := Reads(txs);
    hide DependsOn, Lists, Picked, Exhausted, Ready;
    var dependsOn := DependencyLists(txs);
    var taken := new bool[|txs|](_ => false);
    var chains: seq<seq<nat>> := [];
    while exists i :: 0 <= i < |txs| && !taken[i]
      invariant Tracks(d, taken[..], Flatten(chains)) && GreedyChains(d, chains)
      decreases |txs| - |Flatten(chains)|
    {
      ghost var order := Flatten(chains);
      var start := FindReady(d, dependsOn, taken, None);
      if start.None? {
        NoneReadyAtAll(d, taken[..], order);
        var i :| 0 <= i < |txs| && !taken[i];
        StuckMeansCycle(d, order, i);
        return None;
      }
      var chain := GrowChain(d, dependsOn, taken, start.value, order);
      ChainsGrow(d, chains, chain);
      chains := chains + [chain];
      ListingBound(Flatten(chains), |txs|);
    }
    ghost var order := Flatten(chains);
    Complete(d, taken[..], order);
    OrderedMeansAcyclic(d, order);
    r := Some(chains);
  }

  lemma Complete(d: Deps, done: seq<bool>, order: seq<nat>)
    requires Tracks(d, done, order) && forall i | 0 <= i < |d| :: done[i]
    ensures Permutation(order, |d|)
  {
    CoversAll(order, |d|);
  }

  // ----- what being in one chain means

  /** In a chain, later transactions depend on earlier ones, step by step. */
  lemma {:induction false} ChainIsWalk(d: Deps, chain: seq<nat>, k: nat, m: nat) returns (w: seq<nat>)
    requires Linked(d, chain) && k <= m < |chain|
    ensures DependencyWalk(d, w) && w[0] == chain[m] && w[|w| - 1] == chain[k]
    decreases m
  {
    if k == m {
      w := [chain[k]];
    } else {
      var rest := ChainIsWalk(d, chain, k, m - 1);
      assert DependsOn(d, chain[m - 1 + 1], chain[m - 1]);
      w := [chain[m]] + rest;
      forall a: nat | a + 1 < |w| ensures DependsAt(d, w, a) {
        if a > 0 { assert DependsAt(d, rest, a - 1); }
      }
    }
  }

  ghost predicate Leads(d: Deps, i: nat, j: nat) {
    exists w :: DependencyWalk(d, w) && w[0] == i && w[|w| - 1] == j
  }

  /** Two transactions neither of which leads to the other are never in one chain. */
  lemma UnrelatedSplit(d: Deps, chain: seq<nat>, i: nat, j: nat)
    requires Linked(d, chain) && !Leads(d, i, j) && !Leads(d, j, i)
    ensures i !in chain || j !in chain
  {
    if i in chain && j in chain {
      var a :| 0 <= a < |chain| && chain[a] == i;
      var b :| 0 <= b < |chain| && chain[b] == j;
      if a <= b { var w := ChainIsWalk(d, chain, a, b); } else { var w := ChainIsWalk(d, chain, b, a); }
    }
  }

  lemma {:induction false} ChainOf(chains: seq<seq<nat>>, v: nat) returns (g: nat)
    requires v in Flatten(chains)
    ensures g < |chains| && v in chains[g]
  {
    var n := |chains| - 1;
    if v in chains[n] {
      g := n;
    } else {
      g := ChainOf(chains[..n], v);
    }
  }

  /** Chains are not independent of each other: what two such transactions both depend on has a dependent in another
      chain than its own. */
  lemma SharedDependencyCrosses(d: Deps, chains: seq<seq<nat>>, i: nat, j: nat, k: nat)
    requires GreedyChains(d, chains) && Permutation(Flatten(chains), |d|)
    requires DependsOn(d, i, k) && DependsOn(d, j, k) && !Leads(d, i, j) && !Leads(d, j, i)
    ensures exists g, h | 0 <= g < |chains| && 0 <= h < |chains| && g != h ::
              k in chains[g] && (i in chains[h] || j in chains[h])
  {
    hide GreedyChains, Leads;
    var g := ChainOf(chains, k);
    var gi := ChainOf(chains, i);
    var gj := ChainOf(chains, j);
    ChainLinked(d, chains, g);
    UnrelatedSplit(d, chains[g], i, j);
    var h := if gi != g then gi else gj;
    assert g != h && k in chains[g] && (i in chains[h] || j in chains[h]);
  }

  lemma ChainLinked(d: Deps, chains: seq<seq<nat>>, g: nat)
    requires GreedyChains(d, chains) && g < |chains|
    ensures Linked(d, chains[g])
  {
    assert ChainAt(d, chains, g);
    PickedIsLinked(d, Flatten(chains[..g]), chains[g]);
  }
}
