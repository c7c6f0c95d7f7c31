/** Committing transactions' effects: storage as a map, the order of commits, and what running against a snapshot means.
    Shared by the two zones of the conflict-detection scheduler. */
module CdsCommit {
  import opened Orderings

  type Key = nat
  type Value = int
  type State = map<Key, Value>

  /** A transaction by its keys; `run` gives the writes it makes when executed on a state. */
  datatype Tx = Tx(id: nat, readKeys: set<Key>, writeKeys: set<Key>, run: State -> State) {
    function Keys(): set<Key> {
      readKeys + writeKeys
    }
  }

  function Get(s: State, k: Key): Value {
    if k in s then s[k] else 0
  }

  ghost predicate Agree(s: State, t: State, ks: set<Key>) {
    forall k | k in ks :: (k in s <==> k in t) && (k in s ==> s[k] == t[k])
  }

  /** `run` writes the keys announced and looks at no others than those announced. */
  ghost predicate Respects(t: Tx) {
    && (forall s :: t.run(s).Keys == t.writeKeys)
    && (forall s, u | Agree(s, u, t.readKeys) :: t.run(s) == t.run(u))
  }

  ghost predicate AllRespect(ts: seq<Tx>) {
    forall i | 0 <= i < |ts| :: Respects(ts[i])
  }

  // ----- committing effects one after the other

  function Commit(s: State, effects: seq<State>): State {
    if effects == [] then s else Commit(s, effects[..|effects| - 1]) + effects[|effects| - 1]
  }

  lemma {:induction false} Untouched(s: State, effects: seq<State>, k: Key)
    requires forall i | 0 <= i < |effects| :: k !in effects[i]
    ensures Agree(Commit(s, effects), s, {k})
  {
    if effects != [] { Untouched(s, effects[..|effects| - 1], k); }
  }

  /** The last effect that has the key decides its value. */
  ghost predicate LastWriter(effects: seq<State>, k: Key, p: nat) {
    p < |effects| && k in effects[p] && forall i | p < i < |effects| :: k !in effects[i]
  }

  lemma {:induction false} LastWriterDecides(s: State, effects: seq<State>, k: Key, p: nat)
    requires LastWriter(effects, k, p)
    ensures k in Commit(s, effects) && Commit(s, effects)[k] == effects[p][k]
  {
    var n := |effects| - 1;
    if p < n {
      assert k !in effects[n];
      assert LastWriter(effects[..n], k, p);
      LastWriterDecides(s, effects[..n], k, p);
    }
  }

  lemma {:induction false} FindLastWriter(effects: seq<State>, k: Key) returns (p: nat)
    requires exists i :: 0 <= i < |effects| && k in effects[i]
    ensures LastWriter(effects, k, p)
  {
    var n := |effects| - 1;
    if k in effects[n] {
      p := n;
    } else {
      var i :| 0 <= i < |effects| && k in effects[i];
      assert k in effects[..n][i];
      p := FindLastWriter(effects[..n], k);
      assert k in effects[p];
    }
  }

  // ----- commits in another order

  ghost predicate Reordered(effects: seq<State>, others: seq<State>, perm: seq<nat>) {
    && Permutation(perm, |effects|)
    && |others| == |effects|
    && forall i | 0 <= i < |others| :: others[i] == effects[perm[i]]
  }

  /** Effects that share a key keep their order. */
  ghost predicate KeepsConflicts(effects: seq<State>, perm: seq<nat>)
    requires Permutation(perm, |effects|)
  {
    forall i, j | 0 <= i < |perm| && 0 <= j < |perm| && perm[i] < perm[j]
        && effects[perm[i]].Keys * effects[perm[j]].Keys != {} ::
      i < j
  }

  lemma SameLastWriter(effects: seq<State>, others: seq<State>, perm: seq<nat>, k: Key, q: nat)
    requires Reordered(effects, others, perm) && KeepsConflicts(effects, perm) && LastWriter(others, k, q)
    ensures LastWriter(effects, k, perm[q])
  {
    forall p | perm[q] < p < |effects| ensures k !in effects[p] {
      assert p in perm;
      var i :| 0 <= i < |perm| && perm[i] == p;
      assert others[i] == effects[p];
      var shared := effects[perm[q]].Keys * effects[perm[i]].Keys;
      assert k in effects[p] ==> k in shared;
    }
  }

  /** Commits may be reordered at will as long as writers of a common key are not. */
  lemma ReorderedCommit(s: State, effects: seq<State>, others: seq<State>, perm: seq<nat>)
    requires Reordered(effects, others, perm) && KeepsConflicts(effects, perm)
    ensures Commit(s, others) == Commit(s, effects)
  {
    var c, d := Commit(s, effects), Commit(s, others);
    forall k: Key ensures Agree(d, c, {k}) {
      if exists i :: 0 <= i < |others| && k in others[i] {
        var q := FindLastWriter(others, k);
        SameLastWriter(effects, others, perm, k, q);
        LastWriterDecides(s, others, k, q);
        LastWriterDecides(s, effects, k, perm[q]);
      } else {
        forall p | 0 <= p < |effects| ensures k !in effects[p] {
          assert p in perm;
          var i :| 0 <= i < |perm| && perm[i] == p;
          assert others[i] == effects[p];
        }
        Untouched(s, others, k);
        Untouched(s, effects, k);
      }
    }
    assert d.Keys == c.Keys by {
      forall k: Key ensures k in d <==> k in c { assert Agree(d, c, {k}); }
    }
    forall k | k in c ensures d[k] == c[k] { assert Agree(d, c, {k}); }
  }

  /** The states that effects can lead to when they land in any order. */
  ghost predicate LandsIn(s: State, effects: seq<State>, t: State) {
    exists others, perm :: Reordered(effects, others, perm) && t == Commit(s, others)
  }

  ghost predicate KeysDisjoint(effects: seq<State>) {
    forall i, j | 0 <= i < j < |effects| :: effects[i].Keys !! effects[j].Keys
  }

  /** Effects without a common key lead to one state only. */
  lemma DisjointLands(s: State, effects: seq<State>, t: State)
    requires KeysDisjoint(effects)
    ensures LandsIn(s, effects, t) <==> t == Commit(s, effects)
  {
    if LandsIn(s, effects, t) {
      var others, perm :| Reordered(effects, others, perm) && t == Commit(s, others);
      assert KeepsConflicts(effects, perm);
      ReorderedCommit(s, effects, others, perm);
    }
    InOrderIsPermutation(|effects|);
    assert Reordered(effects, effects, InOrder(|effects|));
  }

  lemma {:induction false} CommitConcat(s: State, a: seq<State>, b: seq<State>)
    ensures Commit(s, a + b) == Commit(Commit(s, a), b)
  {
    if b == [] {
      assert a + b == a;
    } else {
      var n := |b| - 1;
      CommitConcat(s, a, b[..n]);
      assert (a + b)[..|a + b| - 1] == a + b[..n];
    }
  }

  // ----- running against a snapshot

  function Effects(s: State, ts: seq<Tx>): seq<State> {
    seq(|ts|, i requires 0 <= i < |ts| => ts[i].run(s))
  }

  function Serial(s: State, ts: seq<Tx>): State {
    if ts == [] then s else
      var t := Serial(s, ts[..|ts| - 1]);
      t + ts[|ts| - 1].run(t)
  }

  lemma {:induction false} SerialConcat(s: State, a: seq<Tx>, b: seq<Tx>)
    ensures Serial(s, a + b) == Serial(Serial(s, a), b)
  {
    if b == [] {
      assert a + b == a;
    } else {
      var n := |b| - 1;
      SerialConcat(s, a, b[..n]);
      assert (a + b)[..|a + b| - 1] == a + b[..n];
    }
  }

  lemma Pair(s: State, a: Tx, b: Tx)
    ensures Serial(s, [a, b]) == (var t := s + a.run(s); t + b.run(t))
    ensures Commit(s, Effects(s, [a, b])) == s + a.run(s) + b.run(s)
  {
    assert [a, b][..1] == [a] && [a][..0] == [];
    assert Serial(s, [a]) == s + a.run(s);
    var first: seq<State> := Effects(s, [a, b])[..1];
    assert first == [a.run(s)] && first[..0] == [];
    assert Commit(s, first) == s + a.run(s);
  }

  function Flatten<T>(groups: seq<seq<T>>): seq<T> {
    if groups == [] then [] else Flatten(groups[..|groups| - 1]) + groups[|groups| - 1]
  }
}
