/** Where the first pass is not serializable: updates lost between epochs, and chains that race on a key. */
module CdsAnomalies {
  import opened CdsCommit
  import opened CdsSerial
  import opened CdsEpochs
  import opened CdsChains
  import opened CdsInterleavings
  import opened CdsFirstPass
  import opened Orderings

  /** A cycle in the order of the schedule is enough. */
  lemma CyclicSchedule(chains: seq<seq<Tx>>, schedule: seq<seq<Tx>>)
    requires EpochsApart(schedule) && HasCycle(Constraints(Pass(chains, schedule)))
    ensures !PassSerializable(chains, schedule)
  {
    hide EpochsApart, HasCycle, PassSerializable, OrderAt;
    var ts := Pass(chains, schedule);
    InOrderIsPermutation(|ts|);
    ScheduleCommits(chains, schedule);
    assert Along(ts, InOrder(|ts|)) == ts;
    assert !AcyclicAlong(ts, InOrder(|ts|));
    PassExactly(chains, schedule);
  }

  // ----- lost updates

  /** A blind write and a later read-and-write of the same key go into an earlier and a later epoch, and the pass is
      not serializable: the second does not see the first. */
  lemma LostUpdate(blind: Tx, update: Tx, at: Placement, y: Key)
    requires y in blind.writeKeys && y in update.readKeys && y in update.writeKeys
    requires FirstFit([blind, update], at)
    ensures at[0] < at[1] && !Serializable([blind, update]) && !PassSerializable([], [[blind], [update]])
  {
    hide FirstFit, PassSerializable, Serializable, HasCycle, Pass, EpochsApart;
    UpdateIsLater(blind, update, at, y);
    LostUpdateCycle(blind, update, y);
    SomeOrderExactly([blind, update]);
    OneEach(blind, update);
    CyclicSchedule([], [[blind], [update]]);
  }

  lemma UpdateIsLater(blind: Tx, update: Tx, at: Placement, y: Key)
    requires y in blind.writeKeys && y in update.readKeys && FirstFit([blind, update], at)
    ensures |at| == 2 && at[0] < at[1]
  {
    var none, first: Placement := [], [at[0]];
    assert [blind] == [] + [blind] && first == none + [at[0]];
    assert [blind, update] == [blind] + [update] && at == first + [at[1]];
    hide FirstFit, EpochWrites;
    FirstFitLast([blind], first, update, at[1]);
    FirstFitLast([], none, blind, at[0]);
    NothingWritten(none, 0);
    OneMore([], none, blind, at[0], at[1]);
    assert y in update.Keys() && y in blind.writeKeys;
  }

  lemma OneEach(a: Tx, b: Tx)
    ensures Pass([], [[a], [b]]) == [a, b] && EpochsApart([[a], [b]])
  {
    TwoEpochs([a], [b]);
    hide Pass;
  }

  lemma TwoEpochs(a: seq<Tx>, b: seq<Tx>)
    ensures Flatten([a, b]) == a + b
    ensures Pass([], [a, b]) == a + b && Pass([a, b], []) == a + b
    ensures Homes([a, b]) == seq(|a|, _ => 0) + seq(|b|, _ => 1)
  {
    var both, one := [a, b], [a];
    assert both[..1] == one && one[..0] == [];
    assert Flatten(one) == a;
    assert Homes(one) == Homes(one[..0]) + seq(|a|, _ => 0) == seq(|a|, _ => 0);
  }

  lemma NothingWritten(at: Placement, e: nat)
    requires at == []
    ensures EpochWrites([], at, e) == {}
  {
  }

  lemma LostUpdateCycle(blind: Tx, update: Tx, y: Key)
    requires y in blind.writeKeys && y in update.readKeys && y in update.writeKeys
    ensures HasCycle(Constraints([blind, update]))
  {
    var ts := [blind, update];
    var d := Constraints(ts);
    assert Survives(ts, 1, y);
    assert Overwrites(ts, 1, 0) && Misses(ts, 1, 0);
    assert DependsOn(d, 0, 1) && DependsOn(d, 1, 0);
    assert DependsAt(d, [0, 1, 0], 0) && DependsAt(d, [0, 1, 0], 1);
    assert Cycle(d, [0, 1, 0]);
  }

  function Store(y: Key, v: Value): Tx {
    Tx(1, {}, {y}, (s: State) => map[y := v])
  }

  function Increment(y: Key): Tx {
    Tx(2, {y}, {y}, (s: State) => map[y := Get(s, y) + 1])
  }

  /** In numbers: the store of `v` is gone after the increment. */
  lemma LostUpdateValues(s: State, y: Key, v: Value)
    ensures
      var (b, a) := (Store(y, v), Increment(y));
      && AllRespect([b, a])
      && Commit(s, Effects(s, [b, a])) == s[y := Get(s, y) + 1]
      && Serial(s, [b, a]) == s[y := v + 1] && Serial(s, [a, b]) == s[y := v]
  {
    var b, a := Store(y, v), Increment(y);
    StoreRuns(y, v);
    IncrementRuns(y);
    Pair(s, b, a);
    Pair(s, a, b);
    hide Store, Increment, Respects, Serial, Commit, Effects;
    var stored := s[y := v];
    assert s + b.run(s) == stored && a.run(stored) == map[y := v + 1];
  }

  lemma StoreRuns(y: Key, v: Value)
    ensures Respects(Store(y, v)) && forall s: State :: Store(y, v).run(s) == map[y := v]
  {
  }

  lemma IncrementRuns(y: Key)
    ensures Respects(Increment(y)) && forall s: State :: Increment(y).run(s) == map[y := Get(s, y) + 1]
  {
  }

  // ----- races

  /** `b` reads what `a` writes, all three write `y`, and `c` writes whatever `b` does. */
  ghost predicate Racing(a: Tx, b: Tx, c: Tx, y: Key, z: Key) {
    && y in a.writeKeys && y in b.writeKeys && y in c.writeKeys && b.writeKeys <= c.writeKeys
    && z in a.writeKeys && z in b.readKeys
    && a.readKeys !! b.writeKeys + c.writeKeys && b.readKeys !! c.writeKeys && c.readKeys !! a.writeKeys + b.writeKeys
  }

  /** The scheduler puts the first two into a chain and the third into another. */
  lemma RacingChains(a: Tx, b: Tx, c: Tx, y: Key, z: Key)
    requires Racing(a, b, c, y, z)
    ensures GreedyChains(Reads([a, b, c]), [[0, 1], [2]])
  {
    var d := Reads([a, b, c]);
    assert d[0] == {} && d[1] == {0} && d[2] == {};
    PairThenOne(d, [[0, 1], [2]]);
  }

  lemma PairThenOne(d: Deps, chains: seq<seq<nat>>)
    requires d == [{}, {0}, {}] && chains == [[0, 1], [2]]
    ensures GreedyChains(d, chains)
  {
    assert Flatten(chains[..0]) == [] && Flatten(chains[..1]) == [0, 1];
    assert PickedAt(d, [], [0, 1], 0) && PickedAt(d, [], [0, 1], 1);
    assert PickedAt(d, [0, 1], [2], 0);
    assert ChainAt(d, chains, 0) && ChainAt(d, chains, 1);
  }

  /** In the order of the schedule nothing is stale, since what `b` read does not show. But the other chain can land
      first, and then it does: the pass is not serializable. */
  lemma RaceUnserializable(a: Tx, b: Tx, c: Tx, y: Key, z: Key)
    requires Racing(a, b, c, y, z)
    ensures NoStaleRead(Pass([[a, b], [c]], [])) && Serializable(Pass([[a, b], [c]], []))
    ensures !PassSerializable([[a, b], [c]], [])
  {
    TwoEpochs([a, b], [c]);
    var ts, order: seq<nat> := [a, b, c], [2, 0, 1];
    assert [a, b] + [c] == ts;
    RaceNotStale(a, b, c, y, z);
    hide Serializable, NoStaleRead, PassSerializable;
    SerializableInOrder(ts);
    RaceCycle(a, b, c, y, z);
    RaceOrder(Homes([[a, b], [c]]), order);
    assert Along(ts, order) == [c, a, b];
    assert CommitOrder([[a, b], [c]], [], order) && !AcyclicAlong(ts, order);
    PassExactly([[a, b], [c]], []);
  }

  lemma RaceNotStale(a: Tx, b: Tx, c: Tx, y: Key, z: Key)
    requires Racing(a, b, c, y, z)
    ensures NoStaleRead([a, b, c])
  {
    var ts := [a, b, c];
    forall w ensures !Survives(ts, 1, w) { assert ts[2] == c; }
    assert !Shows(ts, 1);
    assert !Misses(ts, 1, 0) && !Misses(ts, 2, 0) && !Misses(ts, 2, 1);
  }

  lemma SerializableInOrder(ts: seq<Tx>)
    requires NoStaleRead(ts)
    ensures Serializable(ts)
  {
    ListedOrdered(ts);
    InOrderIsPermutation(|ts|);
    SerialInExactly(ts, InOrder(|ts|));
    OneOrderForAll(ts, InOrder(|ts|));
  }

  lemma RaceCycle(a: Tx, b: Tx, c: Tx, y: Key, z: Key)
    requires Racing(a, b, c, y, z)
    ensures HasCycle(Constraints([c, a, b]))
  {
    var ts := [c, a, b];
    var d := Constraints(ts);
    assert Survives(ts, 2, y);
    assert Overwrites(ts, 2, 1) && Misses(ts, 2, 1);
    assert DependsOn(d, 1, 2) && DependsOn(d, 2, 1);
    assert DependsAt(d, [1, 2, 1], 0) && DependsAt(d, [1, 2, 1], 1);
    assert Cycle(d, [1, 2, 1]);
  }

  lemma RaceOrder(home: seq<nat>, order: seq<nat>)
    requires home == [0, 0, 1] && order == [2, 0, 1]
    ensures OrderAt(3, home, order)
  {
    assert order[0] == 2 && order[1] == 0 && order[2] == 1;
    assert order[..3] == order;
  }

  // ----- in numbers

  function Stores(y: Key, z: Key): Tx {
    Tx(1, {}, {y, z}, (s: State) => map[y := 1, z := 5])
  }

  function Derives(y: Key, z: Key): Tx {
    Tx(2, {z}, {y}, (s: State) => map[y := Get(s, z) + 10])
  }

  lemma StoresRuns(y: Key, z: Key)
    ensures Respects(Stores(y, z)) && forall s: State :: Stores(y, z).run(s) == map[y := 1, z := 5]
  {
  }

  lemma DerivesRuns(y: Key, z: Key)
    ensures Respects(Derives(y, z)) && forall s: State :: Derives(y, z).run(s) == map[y := Get(s, z) + 10]
  {
  }

  lemma RaceRespects(ts: seq<Tx>, y: Key, z: Key)
    requires ts == [Stores(y, z), Derives(y, z), Store(y, 2)]
    ensures AllRespect(ts)
  {
    StoresRuns(y, z);
    DerivesRuns(y, z);
    StoreRuns(y, 2);
    hide Stores, Derives, Store, Respects;
  }

  lemma Triple(s: State, a: Tx, b: Tx, c: Tx)
    ensures Commit(s, Effects(s, [a, b, c])) == s + a.run(s) + b.run(s) + c.run(s)
  {
    var effects := Effects(s, [a, b, c]);
    assert effects[..2] == Effects(s, [a, b]) && effects[2] == c.run(s);
    Pair(s, a, b);
  }

  /** The pass can end with `y` at ten above the old value of `z`, and every serial order ends it at 1, 2 or 15. */
  lemma RaceValues(s: State, y: Key, z: Key)
    requires y != z
    ensures
      var (a, b, c) := (Stores(y, z), Derives(y, z), Store(y, 2));
      && Racing(a, b, c, y, z) && AllRespect([a, b, c])
      && PassEndsIn(s, [[a, b], [c]], [], s[z := 5][y := Get(s, z) + 10])
      && forall t | SerialInSomeOrder(s, [a, b, c], t) :: y in t && t[y] in {1, 2, 15}
  {
    var a, b, c := Stores(y, z), Derives(y, z), Store(y, 2);
    assert Racing(a, b, c, y, z);
    RaceRespects([a, b, c], y, z);
    RaceEnds(s, y, z);
    hide Stores, Derives, Store, Serial, AllRespect, Racing, PassEndsIn;
    forall perm | Permutation(perm, 3)
      ensures y in Serial(s, Along([a, b, c], perm)) && Serial(s, Along([a, b, c], perm))[y] in {1, 2, 15}
    {
      RaceSerial(s, [a, b, c], perm, y, z);
    }
  }

  lemma RaceEnds(s: State, y: Key, z: Key)
    requires y != z
    ensures PassEndsIn(s, [[Stores(y, z), Derives(y, z)], [Store(y, 2)]], [], s[z := 5][y := Get(s, z) + 10])
  {
    var a, b, c := Stores(y, z), Derives(y, z), Store(y, 2);
    StoresRuns(y, z);
    DerivesRuns(y, z);
    StoreRuns(y, 2);
    hide Stores, Derives, Store, Respects, PassEndsIn;
    RaceLands(s, a, b, c);
    assert s[z := 5][y := Get(s, z) + 10] == s + c.run(s) + a.run(s) + b.run(s);
  }

  lemma RaceLands(s: State, a: Tx, b: Tx, c: Tx)
    ensures PassEndsIn(s, [[a, b], [c]], [], s + c.run(s) + a.run(s) + b.run(s))
  {
    hide Commit, Effects, PassEndsIn;
    var order: seq<nat> := [2, 0, 1];
    var t := s + c.run(s) + a.run(s) + b.run(s);
    Triple(s, c, a, b);
    TwoEpochs([a, b], [c]);
    RaceOrder(Homes([[a, b], [c]]), order);
    assert Along([a, b] + [c], order) == [c, a, b];
    assert CommitsTo(s, [[a, b], [c]], [], order, t);
    PassOutcomes(s, [[a, b], [c]], [], t);
  }

  lemma RaceSerial(s: State, ts: seq<Tx>, perm: seq<nat>, y: Key, z: Key)
    requires y != z && ts == [Stores(y, z), Derives(y, z), Store(y, 2)] && AllRespect(ts) && Permutation(perm, 3)
    ensures y in Serial(s, Along(ts, perm)) && Serial(s, Along(ts, perm))[y] in {1, 2, 15}
  {
    var vs := Along(ts, perm);
    AlongRespects(ts, perm);
    assert forall i | 0 <= i < 3 :: y in ts[i].writeKeys;
    assert ts[0].writeKeys == {y, z} && ts[1].writeKeys == {y} && ts[2].writeKeys == {y};
    StoresRuns(y, z);
    DerivesRuns(y, z);
    StoreRuns(y, 2);
    hide Stores, Derives, Store, Respects, Serial;
    assert Survives(vs, 2, y);
    SerialSurvivor(s, vs, 2, y);
    if perm[2] == 1 {
      var i := PositionOf(perm, 3, 0);
      var us := vs[..2];
      assert us[i] == ts[0];
      assert Survives(us, i, z);
      SerialSurvivor(s, us, i, z);
    }
  }
}
