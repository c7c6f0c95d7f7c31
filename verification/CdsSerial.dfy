/** Committing effects that were all computed on one snapshot: exactly when that is as good as running the
    transactions one after the other, in a given order or in some order, for every program with those keys. */
module CdsSerial {
  import opened CdsCommit
  import opened Orderings

  // ----- which transactions show

  /** What `j` writes to `w` is what is there in the end. */
  ghost predicate Survives(ts: seq<Tx>, j: nat, w: Key) {
    j < |ts| && w in ts[j].writeKeys && forall m | j < m < |ts| :: w !in ts[m].writeKeys
  }

  ghost predicate Shows(ts: seq<Tx>, j: nat) {
    exists w :: Survives(ts, j, w)
  }

  lemma {:induction false} FindSurvivor(ts: seq<Tx>, w: Key, m: nat) returns (p: nat)
    requires m < |ts| && w in ts[m].writeKeys
    ensures m <= p && Survives(ts, p, w)
  {
    var n := |ts| - 1;
    if w in ts[n].writeKeys {
      p := n;
    } else {
      assert w in ts[..n][m].writeKeys;
      p := FindSurvivor(ts[..n], w, m);
      assert w in ts[p].writeKeys;
      forall i | p < i < |ts| ensures w !in ts[i].writeKeys { if i < n { assert ts[..n][i] == ts[i]; } }
    }
  }

  /** Run serially, a key has the value its last writer gives it on the state before it. */
  lemma {:induction false} SerialSurvivor(s: State, ts: seq<Tx>, p: nat, w: Key)
    requires AllRespect(ts) && Survives(ts, p, w)
    ensures w in Serial(s, ts) && w in ts[p].run(Serial(s, ts[..p]))
        && Serial(s, ts)[w] == ts[p].run(Serial(s, ts[..p]))[w]
  {
    var n := |ts| - 1;
    assert Respects(ts[n]) && Respects(ts[p]);
    if p < n {
      var init := ts[..n];
      assert forall i | 0 <= i < n :: init[i] == ts[i];
      assert Survives(init, p, w) && AllRespect(init) && init[..p] == ts[..p];
      SerialSurvivor(s, init, p, w);
    }
  }

  lemma {:induction false} SerialUnwritten(s: State, ts: seq<Tx>, k: Key)
    requires AllRespect(ts) && forall m | 0 <= m < |ts| :: k !in ts[m].writeKeys
    ensures Agree(Serial(s, ts), s, {k})
  {
    if ts != [] {
      var n := |ts| - 1;
      assert Respects(ts[n]);
      SerialUnwritten(s, ts[..n], k);
    }
  }

  /** Committed from a snapshot, it has the value its last writer gives it on the snapshot. */
  lemma SnapshotSurvivor(s: State, ts: seq<Tx>, p: nat, w: Key)
    requires AllRespect(ts) && Survives(ts, p, w)
    ensures w in Commit(s, Effects(s, ts)) && w in ts[p].run(s) && Commit(s, Effects(s, ts))[w] == ts[p].run(s)[w]
  {
    var effects := Effects(s, ts);
    forall i | 0 <= i < |ts| ensures effects[i].Keys == ts[i].writeKeys { assert Respects(ts[i]); }
    assert LastWriter(effects, w, p);
    LastWriterDecides(s, effects, w, p);
  }

  lemma SnapshotUnwritten(s: State, ts: seq<Tx>, k: Key)
    requires AllRespect(ts) && forall m | 0 <= m < |ts| :: k !in ts[m].writeKeys
    ensures Agree(Commit(s, Effects(s, ts)), s, {k})
  {
    var effects := Effects(s, ts);
    forall i | 0 <= i < |effects| ensures k !in effects[i] { assert Respects(ts[i]); }
    Untouched(s, effects, k);
  }

  // ----- what an equivalent serial order has to respect

  /** `i` gives a key its final value and `j` writes that key too. */
  ghost predicate Overwrites(ts: seq<Tx>, i: nat, j: nat) {
    j < |ts| && exists w :: Survives(ts, i, w) && w in ts[j].writeKeys
  }

  /** `j` shows, and reads from the snapshot what `i` writes. */
  ghost predicate Misses(ts: seq<Tx>, j: nat, i: nat) {
    i < |ts| && j < |ts| && Shows(ts, j) && !(ts[j].readKeys !! ts[i].writeKeys)
  }

  /** `j` has to come before `i`. */
  ghost predicate Follows(ts: seq<Tx>, i: nat, j: nat) {
    i != j && (Overwrites(ts, i, j) || Misses(ts, j, i))
  }

  ghost function Constraints(ts: seq<Tx>): Deps {
    seq(|ts|, i requires 0 <= i < |ts| => set j | 0 <= j < |ts| && Follows(ts, i, j))
  }

  ghost predicate SameKeys(ts: seq<Tx>, us: seq<Tx>) {
    |ts| == |us| && forall i | 0 <= i < |ts| :: us[i].readKeys == ts[i].readKeys && us[i].writeKeys == ts[i].writeKeys
  }

  lemma SameKeysConcat(a: seq<Tx>, b: seq<Tx>, us: seq<Tx>, vs: seq<Tx>)
    requires SameKeys(a, us) && SameKeys(b, vs)
    ensures SameKeys(a + b, us + vs)
  {
  }

  lemma SameKeysSplit(a: seq<Tx>, b: seq<Tx>, us: seq<Tx>)
    requires SameKeys(a + b, us)
    ensures |us| == |a| + |b| && SameKeys(a, us[..|a|]) && SameKeys(b, us[|a|..])
  {
    assert forall i | 0 <= i < |a| :: (a + b)[i] == a[i];
    assert forall i | 0 <= i < |b| :: (a + b)[|a| + i] == b[i];
  }

  lemma SameSurvivors(ts: seq<Tx>, us: seq<Tx>)
    requires SameKeys(ts, us)
    ensures forall j: nat, w :: Survives(ts, j, w) <==> Survives(us, j, w)
  {
  }

  lemma SameConstraints(ts: seq<Tx>, us: seq<Tx>)
    requires SameKeys(ts, us)
    ensures Constraints(ts) == Constraints(us)
  {
    SameSurvivors(ts, us);
    hide Survives;
    forall i, j | 0 <= i < |ts| && 0 <= j < |ts| ensures Follows(ts, i, j) <==> Follows(us, i, j) {
      assert Shows(ts, j) <==> Shows(us, j);
      assert Overwrites(ts, i, j) <==> Overwrites(us, i, j);
    }
    assert forall i | 0 <= i < |ts| :: Constraints(ts)[i] == Constraints(us)[i];
  }

  // ----- an order that respects the constraints is equivalent

  lemma BeforeIn(ts: seq<Tx>, perm: seq<nat>, a: nat, b: nat)
    requires Permutation(perm, |ts|) && Topological(Constraints(ts), perm)
    requires a < |ts| && b < |ts| && Follows(ts, perm[a], perm[b])
    ensures b < a
  {
    hide Follows;
    assert DependsOn(Constraints(ts), perm[a], perm[b]);
    assert AfterDependencies(Constraints(ts), perm, a);
    assert perm[b] in perm[..a];
  }

  lemma AlongRespects(ts: seq<Tx>, perm: seq<nat>)
    requires AllRespect(ts) && Permutation(perm, |ts|)
    ensures AllRespect(Along(ts, perm))
  {
    hide Respects;
    forall i | 0 <= i < |perm| ensures Respects(Along(ts, perm)[i]) { assert Respects(ts[perm[i]]); }
  }

  /** The last writer of a key stays its last writer. */
  lemma SurvivesAlong(ts: seq<Tx>, perm: seq<nat>, q: nat, w: Key)
    requires Permutation(perm, |ts|) && Topological(Constraints(ts), perm) && q < |ts| && Survives(ts, perm[q], w)
    ensures Survives(Along(ts, perm), q, w)
  {
    hide Topological;
    var vs := Along(ts, perm);
    forall m | q < m < |vs| ensures w !in vs[m].writeKeys {
      if w in ts[perm[m]].writeKeys {
        assert Overwrites(ts, perm[q], perm[m]);
        BeforeIn(ts, perm, q, m);
      }
    }
  }

  /** What the last writer of a key reads is not written before it. */
  lemma ReadsSnapshot(s: State, ts: seq<Tx>, perm: seq<nat>, q: nat)
    requires AllRespect(ts) && Permutation(perm, |ts|) && Topological(Constraints(ts), perm)
    requires q < |ts| && Shows(ts, perm[q])
    ensures ts[perm[q]].run(Serial(s, Along(ts, perm)[..q])) == ts[perm[q]].run(s)
  {
    hide Topological, Serial;
    AlongRespects(ts, perm);
    var vs := Along(ts, perm)[..q];
    var t := Serial(s, vs);
    forall k | k in ts[perm[q]].readKeys ensures (k in t <==> k in s) && (k in t ==> t[k] == s[k]) {
      forall m | 0 <= m < |vs| ensures k !in vs[m].writeKeys {
        if k in ts[perm[m]].writeKeys {
          assert Misses(ts, perm[q], perm[m]);
          BeforeIn(ts, perm, m, q);
        }
      }
      SerialUnwritten(s, vs, k);
      assert Agree(t, s, {k});
    }
    assert Agree(t, s, ts[perm[q]].readKeys);
    assert Respects(ts[perm[q]]);
  }

  lemma SameAt(s: State, ts: seq<Tx>, perm: seq<nat>, k: Key)
    requires AllRespect(ts) && Permutation(perm, |ts|) && Topological(Constraints(ts), perm)
    ensures Agree(Commit(s, Effects(s, ts)), Serial(s, Along(ts, perm)), {k})
  {
    hide Topological, Serial, Commit, Effects;
    AlongRespects(ts, perm);
    var vs := Along(ts, perm);
    if m: nat :| m < |ts| && k in ts[m].writeKeys {
      var p := FindSurvivor(ts, k, m);
      var q := PositionOf(perm, |ts|, p);
      SurvivesAlong(ts, perm, q, k);
      SnapshotSurvivor(s, ts, p, k);
      SerialSurvivor(s, vs, q, k);
      ReadsSnapshot(s, ts, perm, q);
    } else {
      SnapshotUnwritten(s, ts, k);
      SerialUnwritten(s, vs, k);
      assert Agree(Commit(s, Effects(s, ts)), s, {k}) && Agree(Serial(s, vs), s, {k});
    }
  }

  lemma SameEverywhere(a: State, b: State)
    requires forall k: Key :: Agree(a, b, {k})
    ensures a == b
  {
    forall k: Key ensures (k in a <==> k in b) && (k in a ==> a[k] == b[k]) { assert Agree(a, b, {k}); }
  }

  lemma OrderedIsSerial(s: State, ts: seq<Tx>, perm: seq<nat>)
    requires AllRespect(ts) && Permutation(perm, |ts|) && Topological(Constraints(ts), perm)
    ensures Commit(s, Effects(s, ts)) == Serial(s, Along(ts, perm))
  {
    forall k: Key ensures Agree(Commit(s, Effects(s, ts)), Serial(s, Along(ts, perm)), {k}) { SameAt(s, ts, perm, k); }
    SameEverywhere(Commit(s, Effects(s, ts)), Serial(s, Along(ts, perm)));
  }

  // ----- and no other is

  /** For every program with the keys of `ts`, committing from a snapshot is running in the order `perm`. */
  ghost predicate AlwaysSerialIn(ts: seq<Tx>, perm: seq<nat>)
    requires Permutation(perm, |ts|)
  {
    forall us, s | SameKeys(ts, us) && AllRespect(us) :: Commit(s, Effects(s, us)) == Serial(s, Along(us, perm))
  }

  /** A program that tells what it saw: its number if nothing it reads is there yet, something else otherwise. */
  function Tell(t: Tx, m: nat): Tx {
    Tx(t.id, t.readKeys, t.writeKeys,
       (s: State) => map k | k in t.writeKeys :: if t.readKeys !! s.Keys then m else -1 - m)
  }

  function Telling(ts: seq<Tx>): seq<Tx> {
    seq(|ts|, m requires 0 <= m < |ts| => Tell(ts[m], m))
  }

  lemma Tells(t: Tx, m: nat, s: State, k: Key)
    requires k in t.writeKeys
    ensures k in Tell(t, m).run(s) && Tell(t, m).run(s)[k] == if t.readKeys !! s.Keys then m else -1 - m
  {
  }

  lemma TellRespects(t: Tx, m: nat)
    ensures Respects(Tell(t, m))
  {
    forall s, u | Agree(s, u, t.readKeys) ensures Tell(t, m).run(s) == Tell(t, m).run(u) {
      assert t.readKeys !! s.Keys <==> t.readKeys !! u.Keys;
    }
  }

  lemma TellingRespects(ts: seq<Tx>)
    ensures SameKeys(ts, Telling(ts)) && AllRespect(Telling(ts))
  {
    hide Respects;
    forall m | 0 <= m < |ts| ensures Respects(Telling(ts)[m]) { TellRespects(ts[m], m); }
  }

  /** Those programs, started on nothing, end as they do from a snapshot in the order `perm`. */
  ghost predicate TellsSame(ts: seq<Tx>, perm: seq<nat>)
    requires Permutation(perm, |ts|)
  {
    Commit(map[], Effects(map[], Telling(ts))) == Serial(map[], Along(Telling(ts), perm))
  }

  /** The last writer of a key is then last in the order too, and finds nothing it reads. */
  lemma TellsLastWriter(ts: seq<Tx>, perm: seq<nat>, q: nat, w: Key)
    requires Permutation(perm, |ts|) && TellsSame(ts, perm) && q < |ts| && Survives(ts, perm[q], w)
    ensures Survives(Along(ts, perm), q, w)
    ensures ts[perm[q]].readKeys !! Serial(map[], Along(Telling(ts), perm)[..q]).Keys
  {
    hide TellsSame, Serial, Tell;
    assert w in Along(ts, perm)[q].writeKeys;
    var z := FindSurvivor(Along(ts, perm), w, q);
    SameTold(ts, perm, q, z, w);
    Tells(ts[perm[q]], perm[q], map[], w);
    Tells(ts[perm[z]], perm[z], Serial(map[], Along(Telling(ts), perm)[..z]), w);
    assert perm[z] == perm[q];
  }

  lemma SameTold(ts: seq<Tx>, perm: seq<nat>, q: nat, z: nat, w: Key)
    requires Permutation(perm, |ts|) && TellsSame(ts, perm) && q < |ts| && Survives(ts, perm[q], w)
    requires Survives(Along(ts, perm), z, w)
    ensures w in Tell(ts[perm[q]], perm[q]).run(map[])
    ensures var t := Serial(map[], Along(Telling(ts), perm)[..z]);
            && w in Tell(ts[perm[z]], perm[z]).run(t)
            && Tell(ts[perm[z]], perm[z]).run(t)[w] == Tell(ts[perm[q]], perm[q]).run(map[])[w]
  {
    var us, s: State := Telling(ts), map[];
    var vs := Along(us, perm);
    TellingRespects(ts);
    AlongRespects(us, perm);
    hide Serial, Commit, Effects, Respects, Tell;
    SameSurvivors(ts, us);
    SameSurvivors(Along(ts, perm), vs);
    SnapshotSurvivor(s, us, perm[q], w);
    SerialSurvivor(s, vs, z, w);
  }

  lemma {:induction false} SerialKeys(s: State, ts: seq<Tx>, m: nat)
    requires AllRespect(ts) && m < |ts|
    ensures ts[m].writeKeys <= Serial(s, ts).Keys
  {
    var n := |ts| - 1;
    assert Respects(ts[n]);
    if m < n { SerialKeys(s, ts[..n], m); }
  }

  lemma TellsOrdered(ts: seq<Tx>, perm: seq<nat>)
    requires Permutation(perm, |ts|) && TellsSame(ts, perm)
    ensures Topological(Constraints(ts), perm)
  {
    hide TellsSame, Serial, Respects, Tell;
    TellingRespects(ts);
    AlongRespects(Telling(ts), perm);
    var d, vs := Constraints(ts), Along(Telling(ts), perm);
    forall a: nat | a < |perm| ensures AfterDependencies(d, perm, a) {
      forall j: nat | DependsOn(d, perm[a], j) ensures j in perm[..a] {
        var b := PositionOf(perm, |ts|, j);
        if Overwrites(ts, perm[a], j) {
          var w :| Survives(ts, perm[a], w) && w in ts[j].writeKeys;
          TellsLastWriter(ts, perm, a, w);
          assert w in Along(ts, perm)[b].writeKeys;
        } else if a < b {
          var w :| Survives(ts, j, w);
          TellsLastWriter(ts, perm, b, w);
          SerialKeys(map[], vs[..b], a);
        }
        assert perm[..a][b] == j;
      }
    }
  }

  /** An order is equivalent for every program exactly when it keeps last writers last and lets every transaction
      that shows go before whatever it read the old value of. */
  lemma SerialInExactly(ts: seq<Tx>, perm: seq<nat>)
    requires Permutation(perm, |ts|)
    ensures AlwaysSerialIn(ts, perm) <==> Topological(Constraints(ts), perm)
  {
    if AlwaysSerialIn(ts, perm) {
      TellingRespects(ts);
      TellsOrdered(ts, perm);
    }
    if Topological(Constraints(ts), perm) {
      forall us, s | SameKeys(ts, us) && AllRespect(us)
        ensures Commit(s, Effects(s, us)) == Serial(s, Along(us, perm))
      {
        SameConstraints(ts, us);
        OrderedIsSerial(s, us, perm);
      }
    }
  }

  // ----- in some order

  /** One order does for all programs. */
  ghost predicate SomeOrderSerial(ts: seq<Tx>) {
    exists perm :: Permutation(perm, |ts|) && AlwaysSerialIn(ts, perm)
  }

  /** `t` is where the transactions lead from `s` when run one after the other in some order. */
  ghost predicate SerialInSomeOrder(s: State, ts: seq<Tx>, t: State) {
    exists perm :: Permutation(perm, |ts|) && t == Serial(s, Along(ts, perm))
  }

  /** It does not matter what order they are listed in. */
  lemma ReorderedSerial(s: State, ts: seq<Tx>, p: seq<nat>, t: State)
    requires Permutation(p, |ts|)
    ensures SerialInSomeOrder(s, Along(ts, p), t) <==> SerialInSomeOrder(s, ts, t)
  {
    hide Serial;
    var us := Along(ts, p);
    if q :| Permutation(q, |ts|) && t == Serial(s, Along(us, q)) {
      Composed(ts, p, q);
    }
    if q :| Permutation(q, |ts|) && t == Serial(s, Along(ts, q)) {
      var back := Undone(ts, p);
      Composed(us, back, q);
      AlongUndone(ts, p, back);
    }
  }

  /** Each program on each state has an order of its own. */
  ghost predicate Serializable(ts: seq<Tx>) {
    forall us, s | SameKeys(ts, us) && AllRespect(us) :: SerialInSomeOrder(s, us, Commit(s, Effects(s, us)))
  }

  lemma OneOrderForAll(ts: seq<Tx>, perm: seq<nat>)
    requires Permutation(perm, |ts|) && AlwaysSerialIn(ts, perm)
    ensures Serializable(ts)
  {
    hide Commit, Effects, Serial, AllRespect;
    forall us, s | SameKeys(ts, us) && AllRespect(us) ensures SerialInSomeOrder(s, us, Commit(s, Effects(s, us))) {
      assert Permutation(perm, |us|);
    }
  }

  /** With a cycle those programs, started on nothing, end from a snapshot where no order ends. */
  lemma CycleTells(ts: seq<Tx>)
    requires HasCycle(Constraints(ts))
    ensures !SerialInSomeOrder(map[], Telling(ts), Commit(map[], Effects(map[], Telling(ts))))
  {
    hide Serial, Commit, Effects, HasCycle;
    OrderExactly(Constraints(ts));
    ConstraintsLength(ts);
    forall perm | Permutation(perm, |ts|) ensures !TellsSame(ts, perm) {
      if TellsSame(ts, perm) { TellsOrdered(ts, perm); }
    }
  }

  /** An order is there exactly when these constraints have no cycle: one for each program on each state, or just as
      well one for all. */
  lemma SomeOrderExactly(ts: seq<Tx>)
    ensures Serializable(ts) <==> !HasCycle(Constraints(ts))
    ensures SomeOrderSerial(ts) <==> !HasCycle(Constraints(ts))
  {
    OrderExactly(Constraints(ts));
    hide AlwaysSerialIn, Topological, Constraints, HasCycle, Serializable;
    forall perm | Permutation(perm, |ts|) ensures AlwaysSerialIn(ts, perm) <==> Topological(Constraints(ts), perm) {
      SerialInExactly(ts, perm);
    }
    ConstraintsLength(ts);
    if perm :| Permutation(perm, |ts|) && AlwaysSerialIn(ts, perm) { OneOrderForAll(ts, perm); }
    if HasCycle(Constraints(ts)) { NotSerializable(ts); }
  }

  lemma NotSerializable(ts: seq<Tx>)
    requires HasCycle(Constraints(ts))
    ensures !Serializable(ts)
  {
    hide Commit, Effects, SerialInSomeOrder, HasCycle;
    CycleTells(ts);
    TellingRespects(ts);
  }

  lemma ConstraintsLength(ts: seq<Tx>)
    ensures |Constraints(ts)| == |ts|
  {
  }

  // ----- the order they are in

  ghost predicate AlwaysSerial(ts: seq<Tx>) {
    forall us, s | SameKeys(ts, us) && AllRespect(us) :: Commit(s, Effects(s, us)) == Serial(s, us)
  }

  /** No transaction that shows reads what an earlier one writes. */
  ghost predicate NoStaleRead(ts: seq<Tx>) {
    forall i, j | 0 <= i < j < |ts| :: !Misses(ts, j, i)
  }

  lemma ListedOrdered(ts: seq<Tx>)
    ensures Topological(Constraints(ts), InOrder(|ts|)) <==> NoStaleRead(ts)
  {
    var d, listed := Constraints(ts), InOrder(|ts|);
    if NoStaleRead(ts) {
      forall a: nat | a < |ts| ensures AfterDependencies(d, listed, a) {
        forall j: nat | DependsOn(d, listed[a], j) ensures j in listed[..a] {
          assert Follows(ts, a, j);
          assert j < a;
          assert listed[..a][j] == j;
        }
      }
    }
    if Topological(d, listed) {
      forall i, j | 0 <= i < j < |ts| ensures !Misses(ts, j, i) {
        assert AfterDependencies(d, listed, i);
        if Misses(ts, j, i) { assert DependsOn(d, listed[i], j); }
      }
    }
  }

  /** The listed order is equivalent for every program exactly when no transaction that shows reads what an earlier one
      writes. */
  lemma ListedExactly(ts: seq<Tx>)
    ensures AlwaysSerial(ts) <==> NoStaleRead(ts)
  {
    InOrderIsPermutation(|ts|);
    SerialInExactly(ts, InOrder(|ts|));
    ListedOrdered(ts);
    hide NoStaleRead, Topological;
    assert AlwaysSerialIn(ts, InOrder(|ts|)) <==> AlwaysSerial(ts) by {
      hide Commit, Effects, Serial, SameKeys, AllRespect;
      forall us: seq<Tx> | |us| == |ts| ensures Along(us, InOrder(|ts|)) == us { }
      SameKeysLength(ts);
    }
  }

  lemma SameKeysLength(ts: seq<Tx>)
    ensures forall us | SameKeys(ts, us) :: |us| == |ts|
  {
  }

  // ----- groups that are run together

  ghost predicate WritesDisjoint(ts: seq<Tx>) {
    forall i, j | 0 <= i < j < |ts| :: ts[i].writeKeys !! ts[j].writeKeys
  }

  /** No transaction that writes anything reads what an earlier one writes. */
  ghost predicate ReadsNoEarlierWrite(ts: seq<Tx>) {
    forall i, j | 0 <= i < j < |ts| :: ts[i].writeKeys !! ts[j].readKeys || ts[j].writeKeys == {}
  }

  ghost predicate Independent(ts: seq<Tx>) {
    WritesDisjoint(ts) && ReadsNoEarlierWrite(ts)
  }

  /** All running against the state before them, as a group, is the same as one after the other. */
  lemma SnapshotIsSerial(s: State, ts: seq<Tx>)
    requires Independent(ts) && AllRespect(ts)
    ensures Commit(s, Effects(s, ts)) == Serial(s, ts)
  {
    assert NoStaleRead(ts);
    ListedExactly(ts);
  }

  /** The states a group can end in: it runs against the state it starts from, and its effects land in some order. */
  ghost predicate GroupRunsTo(s: State, ts: seq<Tx>, t: State) {
    LandsIn(s, Effects(s, ts), t)
  }

  lemma EffectsDisjoint(s: State, ts: seq<Tx>)
    requires WritesDisjoint(ts) && AllRespect(ts)
    ensures KeysDisjoint(Effects(s, ts))
  {
    var effects := Effects(s, ts);
    forall i | 0 <= i < |ts| ensures effects[i].Keys == ts[i].writeKeys { assert Respects(ts[i]); }
  }

  /** A group without such conflicts ends in one state only. */
  lemma GroupSerializable(s: State, ts: seq<Tx>, t: State)
    requires Independent(ts) && AllRespect(ts)
    ensures GroupRunsTo(s, ts, t) <==> t == Serial(s, ts)
  {
    EffectsDisjoint(s, ts);
    DisjointLands(s, Effects(s, ts), t);
    SnapshotIsSerial(s, ts);
  }

  /** Groups one after the other. */
  ghost predicate RunsTo(s: State, groups: seq<seq<Tx>>, t: State) {
    if groups == [] then t == s else
      var earlier, last := groups[..|groups| - 1], groups[|groups| - 1];
      exists m :: RunsTo(s, earlier, m) && GroupRunsTo(m, last, t)
  }

  /** Every run of a schedule of such groups ends in the one state that the flattened schedule gives serially. */
  lemma {:induction false} ScheduleSerializable(s: State, groups: seq<seq<Tx>>, t: State)
    requires forall g | 0 <= g < |groups| :: Independent(groups[g]) && AllRespect(groups[g])
    ensures RunsTo(s, groups, t) <==> t == Serial(s, Flatten(groups))
  {
    if groups != [] {
      var n := |groups| - 1;
      var before := Serial(s, Flatten(groups[..n]));
      forall m ensures RunsTo(s, groups[..n], m) <==> m == before { ScheduleSerializable(s, groups[..n], m); }
      GroupSerializable(before, groups[n], t);
      SerialConcat(s, Flatten(groups[..n]), groups[n]);
    }
  }
}
