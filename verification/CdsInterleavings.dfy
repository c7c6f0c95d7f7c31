/** Committing the conflict-free zone: chains in parallel, each in its own order. When the outcome is always the
    same. */
module CdsInterleavings {
  import opened CdsCommit
  import opened Orderings

  /** The chain of each position of the flattened chains. */
  function Homes<T>(chains: seq<seq<T>>): seq<nat> {
    if chains == [] then [] else
      var n := |chains| - 1;
      Homes(chains[..n]) + seq(|chains[n]|, _ => n)
  }

  lemma {:induction false} HomesFit<T>(chains: seq<seq<T>>)
    ensures |Homes(chains)| == |Flatten(chains)|
  {
    if chains != [] { HomesFit(chains[..|chains| - 1]); }
  }

  /** An order of commits that can happen: all positions, those of one chain in their order. */
  ghost predicate Interleaving(home: seq<nat>, perm: seq<nat>) {
    && Permutation(perm, |home|)
    && forall i, j | 0 <= i < |perm| && 0 <= j < |perm| && perm[i] < perm[j] && home[perm[i]] == home[perm[j]] :: i < j
  }

  /** Positions of different chains write nothing in common. */
  ghost predicate ChainsWriteApart(writes: seq<set<Key>>, home: seq<nat>)
    requires |writes| == |home|
  {
    forall a, b | 0 <= a < |home| && 0 <= b < |home| && home[a] != home[b] :: writes[a] !! writes[b]
  }

  ghost predicate HasWrites(effects: seq<State>, writes: seq<set<Key>>) {
    |effects| == |writes| && forall i | 0 <= i < |writes| :: effects[i].Keys == writes[i]
  }

  /** Whatever is written, from whatever state, every interleaving ends where chain after chain does. */
  ghost predicate AlwaysSame(writes: seq<set<Key>>, home: seq<nat>)
    requires |writes| == |home|
  {
    forall s, effects, perm | HasWrites(effects, writes) && Interleaving(home, perm) ::
      Commit(s, Along(effects, perm)) == Commit(s, effects)
  }

  lemma ApartMeansSame(writes: seq<set<Key>>, home: seq<nat>)
    requires |writes| == |home| && ChainsWriteApart(writes, home)
    ensures AlwaysSame(writes, home)
  {
    forall s, effects, perm | HasWrites(effects, writes) && Interleaving(home, perm)
      ensures Commit(s, Along(effects, perm)) == Commit(s, effects)
    {
      ReorderedCommit(s, effects, Along(effects, perm), perm);
    }
  }

  // ----- the other direction: one chain committed last

  /** Positions below `n`, in order, that are (or are not) of chain `h`. */
  function Positions(home: seq<nat>, h: nat, of: bool): seq<nat> {
    if home == [] then [] else
      var n := |home| - 1;
      Positions(home[..n], h, of) + if (home[n] == h) == of then [n] else []
  }

  predicate Of(home: seq<nat>, h: nat, of: bool, v: nat) {
    v < |home| && (home[v] == h) == of
  }

  lemma {:induction false} PositionsExact(home: seq<nat>, h: nat, of: bool)
    ensures forall v | v in Positions(home, h, of) :: Of(home, h, of, v)
    ensures forall i, j | 0 <= i < j < |Positions(home, h, of)| :: Positions(home, h, of)[i] < Positions(home, h, of)[j]
    ensures forall v: nat | Of(home, h, of, v) :: v in Positions(home, h, of)
  {
    if home != [] {
      var n := |home| - 1;
      var earlier := home[..n];
      PositionsExact(earlier, h, of);
      var q, p := Positions(earlier, h, of), Positions(home, h, of);
      forall v: nat ensures v in p <==> Of(home, h, of, v) {
        assert Of(earlier, h, of, v) <==> Of(home, h, of, v) && v != n;
      }
      forall i, j | 0 <= i < j < |p| ensures p[i] < p[j] {
        assert p[i] == q[i] && q[i] in q;
      }
    }
  }

  lemma {:induction false} PositionsSplit(home: seq<nat>, h: nat)
    ensures |Positions(home, h, false)| + |Positions(home, h, true)| == |home|
  {
    if home != [] { PositionsSplit(home[..|home| - 1], h); }
  }

  function LastChain(home: seq<nat>, h: nat): seq<nat> {
    Positions(home, h, false) + Positions(home, h, true)
  }

  lemma LastChainInterleaves(home: seq<nat>, h: nat)
    ensures Interleaving(home, LastChain(home, h))
    ensures forall i | 0 <= i < |home| :: home[LastChain(home, h)[i]] == h <==> i >= |Positions(home, h, false)|
  {
    var p, q, perm := Positions(home, h, false), Positions(home, h, true), LastChain(home, h);
    PositionsExact(home, h, false);
    PositionsExact(home, h, true);
    PositionsSplit(home, h);
    hide Positions;
    forall v: nat | v < |home| ensures v in perm {
      assert Of(home, h, false, v) || Of(home, h, true, v);
      assert v in p || v in q;
    }
    forall i | 0 <= i < |perm| ensures perm[i] < |home| && (home[perm[i]] == h <==> i >= |p|) {
      assert if i < |p| then perm[i] in p else perm[i] in q;
    }
    forall i, j | 0 <= i < j < |perm| ensures perm[i] != perm[j] {
      if j < |p| { assert p[i] < p[j]; } else if i >= |p| { assert q[i - |p|] < q[j - |p|]; }
    }
  }

  /** Each position writes its own number. */
  function Numbered(writes: seq<set<Key>>): seq<State> {
    seq(|writes|, i requires 0 <= i < |writes| => map k | k in writes[i] :: i)
  }

  lemma SharedMeansDifferent(writes: seq<set<Key>>, home: seq<nat>, a: nat, b: nat, k: Key)
    requires |writes| == |home| && a < |home| && b < |home| && home[a] != home[b]
    requires k in writes[a] && k in writes[b]
    ensures !AlwaysSame(writes, home)
  {
    var effects := Numbered(writes);
    assert k in effects[a] && k in effects[b];
    var p := FindLastWriter(effects, k);
    var s: State := map[];
    LastWriterDecides(s, effects, k, p);
    var q := if home[a] == home[p] then b else a;
    var perm := LastChain(home, home[q]);
    LastChainInterleaves(home, home[q]);
    var others := Along(effects, perm);
    var z := LastOfLastChain(s, home, effects, others, k, q);
    assert effects[z][k] == z && effects[p][k] == p;
    assert HasWrites(effects, writes);
  }

  /** With chain `home[q]` last, the last writer of a key that `q` writes is of that chain. */
  lemma LastOfLastChain(s: State, home: seq<nat>, effects: seq<State>, others: seq<State>, k: Key, q: nat)
      returns (p: nat)
    requires |effects| == |home| && q < |home| && k in effects[q]
    requires Interleaving(home, LastChain(home, home[q])) && others == Along(effects, LastChain(home, home[q]))
    ensures p < |home| && home[p] == home[q] && k in effects[p]
    ensures k in Commit(s, others) && Commit(s, others)[k] == effects[p][k]
  {
    var perm, last := LastChain(home, home[q]), Positions(home, home[q], true);
    var first := |Positions(home, home[q], false)|;
    PositionsExact(home, home[q], true);
    hide Positions;
    assert Of(home, home[q], true, q);
    var i :| 0 <= i < |last| && last[i] == q;
    assert perm[first + i] == q && k in others[first + i];
    var z := FindLastWriter(others, k);
    assert perm[z] == last[z - first] && perm[z] in last;
    p := perm[z];
    LastWriterDecides(s, others, k, z);
  }

  /** Committing chains in parallel always ends in the same state exactly when no key is written in two chains. */
  lemma ParallelExactly(writes: seq<set<Key>>, home: seq<nat>)
    requires |writes| == |home|
    ensures AlwaysSame(writes, home) <==> ChainsWriteApart(writes, home)
  {
    if ChainsWriteApart(writes, home) {
      ApartMeansSame(writes, home);
    } else {
      var a: nat, b: nat :| a < |home| && b < |home| && home[a] != home[b] && !(writes[a] !! writes[b]);
      var k :| k in writes[a] && k in writes[b];
      SharedMeansDifferent(writes, home, a, b, k);
    }
  }

  // ----- for chains of transactions

  lemma {:induction false} InHome<T>(chains: seq<seq<T>>, pos: nat) returns (a: nat)
    requires pos < |Flatten(chains)| == |Homes(chains)|
    ensures Homes(chains)[pos] < |chains|
    ensures a < |chains[Homes(chains)[pos]]| && chains[Homes(chains)[pos]][a] == Flatten(chains)[pos]
  {
    var n := |chains| - 1;
    HomesFit(chains[..n]);
    if pos < |Flatten(chains[..n])| {
      a := InHome(chains[..n], pos);
    } else {
      a := pos - |Flatten(chains[..n])|;
    }
  }

  lemma {:induction false} FlatPosition<T>(chains: seq<seq<T>>, g: nat, a: nat) returns (pos: nat)
    requires g < |chains| && a < |chains[g]|
    ensures pos < |Flatten(chains)| == |Homes(chains)|
    ensures Flatten(chains)[pos] == chains[g][a] && Homes(chains)[pos] == g
  {
    HomesFit(chains);
    var n := |chains| - 1;
    HomesFit(chains[..n]);
    if g < n {
      pos := FlatPosition(chains[..n], g, a);
    } else {
      pos := |Flatten(chains[..n])| + a;
    }
  }

  predicate Within(order: seq<nat>, n: nat) {
    forall i | 0 <= i < |order| :: order[i] < n
  }

  function WritesAlong(txs: seq<Tx>, order: seq<nat>): seq<set<Key>>
    requires Within(order, |txs|)
  {
    seq(|order|, i requires 0 <= i < |order| => txs[order[i]].writeKeys)
  }

  ghost predicate NoKeyInTwoChains(txs: seq<Tx>, chains: seq<seq<nat>>) {
    forall g, h, i, j | 0 <= g < |chains| && 0 <= h < |chains| && g != h && i in chains[g] && j in chains[h]
        && i < |txs| && j < |txs| ::
      txs[i].writeKeys !! txs[j].writeKeys
  }

  lemma NoKeyByPosition(txs: seq<Tx>, chains: seq<seq<nat>>)
    requires Within(Flatten(chains), |txs|)
    ensures |Homes(chains)| == |Flatten(chains)|
    ensures NoKeyInTwoChains(txs, chains) <==> ChainsWriteApart(WritesAlong(txs, Flatten(chains)), Homes(chains))
  {
    HomesFit(chains);
    var order, home := Flatten(chains), Homes(chains);
    var writes := WritesAlong(txs, order);
    hide Flatten, Homes;
    if NoKeyInTwoChains(txs, chains) {
      forall p, q | 0 <= p < |home| && 0 <= q < |home| && home[p] != home[q] ensures writes[p] !! writes[q] {
        var a := InHome(chains, p);
        var b := InHome(chains, q);
        assert order[p] in chains[home[p]] && order[q] in chains[home[q]];
      }
    }
    if ChainsWriteApart(writes, home) {
      forall g, h, i, j | 0 <= g < |chains| && 0 <= h < |chains| && g != h && i in chains[g] && j in chains[h]
          && i < |txs| && j < |txs|
        ensures txs[i].writeKeys !! txs[j].writeKeys
      {
        var a :| 0 <= a < |chains[g]| && chains[g][a] == i;
        var b :| 0 <= b < |chains[h]| && chains[h][b] == j;
        var p := FlatPosition(chains, g, a);
        var q := FlatPosition(chains, h, b);
        assert writes[p] !! writes[q];
      }
    }
  }

  /** Chains of transactions commit in parallel with one outcome, whatever they write, exactly when no two chains
      write a common key. */
  lemma ChainsParallelExactly(txs: seq<Tx>, chains: seq<seq<nat>>)
    requires Within(Flatten(chains), |txs|)
    ensures |Homes(chains)| == |Flatten(chains)|
    ensures AlwaysSame(WritesAlong(txs, Flatten(chains)), Homes(chains)) <==> NoKeyInTwoChains(txs, chains)
  {
    NoKeyByPosition(txs, chains);
    ParallelExactly(WritesAlong(txs, Flatten(chains)), Homes(chains));
  }
}
