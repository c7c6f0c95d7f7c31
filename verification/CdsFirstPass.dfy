/** The first pass of a batch: every effect was computed on the state the batch starts from; the chains of the
    conflict-free zone land in parallel, then the epochs of the finalized conflict zone one after the other. */
module CdsFirstPass {
  import opened CdsCommit
  import opened CdsSerial
  import opened CdsEpochs
  import opened CdsChains
  import opened CdsInterleavings
  import opened Orderings

  // ----- epochs of finished effects

  function EffectGroups(snapshot: State, groups: seq<seq<Tx>>): seq<seq<State>> {
    seq(|groups|, g requires 0 <= g < |groups| => Effects(snapshot, groups[g]))
  }

  /** Groups of effects land one group after the other, each in any order. */
  ghost predicate GroupsLandIn(s: State, groups: seq<seq<State>>, t: State) {
    if groups == [] then t == s else
      var earlier, last := groups[..|groups| - 1], groups[|groups| - 1];
      exists m :: GroupsLandIn(s, earlier, m) && LandsIn(m, last, t)
  }

  lemma {:induction false} DisjointGroupsLand(s: State, groups: seq<seq<State>>, t: State)
    requires forall g | 0 <= g < |groups| :: KeysDisjoint(groups[g])
    ensures GroupsLandIn(s, groups, t) <==> t == Commit(s, Flatten(groups))
  {
    if groups != [] {
      var n := |groups| - 1;
      var before := Commit(s, Flatten(groups[..n]));
      forall m ensures GroupsLandIn(s, groups[..n], m) <==> m == before { DisjointGroupsLand(s, groups[..n], m); }
      DisjointLands(before, groups[n], t);
      CommitConcat(s, Flatten(groups[..n]), groups[n]);
    }
  }

  lemma {:induction false} FlattenEffects(snapshot: State, groups: seq<seq<Tx>>)
    ensures Flatten(EffectGroups(snapshot, groups)) == Effects(snapshot, Flatten(groups))
  {
    if groups != [] {
      var n := |groups| - 1;
      FlattenEffects(snapshot, groups[..n]);
      assert EffectGroups(snapshot, groups)[..n] == EffectGroups(snapshot, groups[..n]);
    }
  }

  /** Nothing is written twice within an epoch. */
  ghost predicate EpochsApart(schedule: seq<seq<Tx>>) {
    forall e | 0 <= e < |schedule| :: WritesDisjoint(schedule[e])
  }

  ghost predicate GroupsRespect(groups: seq<seq<Tx>>) {
    forall g | 0 <= g < |groups| :: AllRespect(groups[g])
  }

  lemma FirstFitApart(cs: seq<Tx>, at: Placement, schedule: seq<seq<Tx>>)
    requires FirstFit(cs, at) && Groups(cs, at, schedule)
    ensures EpochsApart(schedule)
    ensures AllRespect(cs) ==> GroupsRespect(schedule)
  {
    hide FirstFit, Members, AllRespect;
    forall e | 0 <= e < |schedule|
      ensures WritesDisjoint(schedule[e]) && (AllRespect(cs) ==> AllRespect(schedule[e]))
    {
      EpochsIndependent(cs, at, e);
      if AllRespect(cs) { MembersRespect(cs, at, e); }
    }
  }

  lemma EpochsLand(snapshot: State, s: State, schedule: seq<seq<Tx>>, t: State)
    requires EpochsApart(schedule) && GroupsRespect(schedule)
    ensures GroupsLandIn(s, EffectGroups(snapshot, schedule), t) <==>
            t == Commit(s, Effects(snapshot, Flatten(schedule)))
  {
    var groups := EffectGroups(snapshot, schedule);
    forall e | 0 <= e < |groups| ensures KeysDisjoint(groups[e]) { EffectsDisjoint(snapshot, schedule[e]); }
    DisjointGroupsLand(s, groups, t);
    FlattenEffects(snapshot, schedule);
  }

  /** The finalized conflict zone ends in one state, whatever order an epoch's commits land in: the effects in schedule
      order. */
  lemma FinalizedOutcome(snapshot: State, s: State, cs: seq<Tx>, at: Placement, schedule: seq<seq<Tx>>, t: State)
    requires FirstFit(cs, at) && Groups(cs, at, schedule) && AllRespect(cs)
    ensures GroupsLandIn(s, EffectGroups(snapshot, schedule), t) <==>
            t == Commit(s, Effects(snapshot, Flatten(schedule)))
  {
    FirstFitApart(cs, at, schedule);
    EpochsLand(snapshot, s, schedule, t);
  }

  // ----- the whole pass

  /** The transactions of the pass in the order the scheduler gives them. */
  function Pass(chains: seq<seq<Tx>>, schedule: seq<seq<Tx>>): seq<Tx> {
    Flatten(chains) + Flatten(schedule)
  }

  ghost predicate ChainsLandIn(s: State, chains: seq<seq<Tx>>, m: State) {
    && |Homes(chains)| == |Flatten(chains)|
    && exists perm :: Interleaving(Homes(chains), perm) && m == Commit(s, Along(Effects(s, Flatten(chains)), perm))
  }

  /** A state the pass can end in: every effect is computed on `s`, the chains land in parallel, then the epochs. */
  ghost predicate PassEndsIn(s: State, chains: seq<seq<Tx>>, schedule: seq<seq<Tx>>, t: State) {
    exists m :: ChainsLandIn(s, chains, m) && GroupsLandIn(m, EffectGroups(s, schedule), t)
  }

  /** Of `n` positions the first are interleaved by chain, the others come after them in order. */
  ghost predicate OrderAt(n: nat, home: seq<nat>, order: seq<nat>) {
    && |home| <= n && Permutation(order, n)
    && Interleaving(home, order[..|home|])
    && forall i | |home| <= i < n :: order[i] == i
  }

  /** An order in which the pass can commit, up to the order within epochs. */
  ghost predicate CommitOrder(chains: seq<seq<Tx>>, schedule: seq<seq<Tx>>, order: seq<nat>) {
    OrderAt(|Pass(chains, schedule)|, Homes(chains), order)
  }

  ghost predicate CommitsTo(s: State, chains: seq<seq<Tx>>, schedule: seq<seq<Tx>>, order: seq<nat>, t: State) {
    CommitOrder(chains, schedule, order) && t == Commit(s, Effects(s, Along(Pass(chains, schedule), order)))
  }

  function Onwards(perm: seq<nat>, n: nat): seq<nat> {
    perm + seq(if |perm| < n then n - |perm| else 0, i => |perm| + i)
  }

  lemma OnwardsOrders(n: nat, home: seq<nat>, perm: seq<nat>)
    requires Interleaving(home, perm) && |home| <= n
    ensures OrderAt(n, home, Onwards(perm, n))
  {
    var order := Onwards(perm, n);
    assert order[..|perm|] == perm;
    forall v: nat | v < n ensures v in order {
      if v < |perm| {
        var i := PositionOf(perm, |perm|, v);
        assert order[i] == v;
      } else {
        assert order[v] == v;
      }
    }
  }

  /** The commit order that keeps the order of the schedule. */
  lemma ScheduleCommits(chains: seq<seq<Tx>>, schedule: seq<seq<Tx>>)
    ensures CommitOrder(chains, schedule, InOrder(|Pass(chains, schedule)|))
  {
    HomesFit(chains);
    var n, all := |Homes(chains)|, |Pass(chains, schedule)|;
    InOrderIsPermutation(n);
    assert Interleaving(Homes(chains), InOrder(n));
    OnwardsOrders(all, Homes(chains), InOrder(n));
    assert Onwards(InOrder(n), all) == InOrder(all);
  }

  lemma EffectsConcat(s: State, a: seq<Tx>, b: seq<Tx>)
    ensures Effects(s, a + b) == Effects(s, a) + Effects(s, b)
  {
  }

  lemma CommitParts(s: State, chains: seq<seq<Tx>>, schedule: seq<seq<Tx>>, order: seq<nat>)
    requires CommitOrder(chains, schedule, order)
    ensures |Homes(chains)| == |Flatten(chains)| <= |order|
    ensures var perm := order[..|Flatten(chains)|];
            Commit(s, Effects(s, Along(Pass(chains, schedule), order))) ==
            Commit(Commit(s, Along(Effects(s, Flatten(chains)), perm)), Effects(s, Flatten(schedule)))
  {
    HomesFit(chains);
    var first, second, perm := Flatten(chains), Flatten(schedule), order[..|Flatten(chains)|];
    hide Commit, Flatten, Homes, Effects;
    assert Along(Pass(chains, schedule), order) == Along(first, perm) + second;
    EffectsAlong(s, first, perm);
    EffectsConcat(s, Along(first, perm), second);
    CommitConcat(s, Effects(s, Along(first, perm)), Effects(s, second));
  }

  lemma EffectsAlong(s: State, ts: seq<Tx>, perm: seq<nat>)
    requires forall i | 0 <= i < |perm| :: perm[i] < |ts|
    ensures |Effects(s, ts)| == |ts| && Along(Effects(s, ts), perm) == Effects(s, Along(ts, perm))
  {
  }

  /** Every state the pass can end in, and no other, is that of all effects in some commit order. */
  lemma PassOutcomes(s: State, chains: seq<seq<Tx>>, schedule: seq<seq<Tx>>, t: State)
    requires EpochsApart(schedule) && GroupsRespect(schedule)
    ensures PassEndsIn(s, chains, schedule, t) <==> exists order :: CommitsTo(s, chains, schedule, order, t)
  {
    hide GroupsLandIn, Commit, Flatten, EpochsApart, GroupsRespect;
    var all := |Pass(chains, schedule)|;
    if m :| ChainsLandIn(s, chains, m) && GroupsLandIn(m, EffectGroups(s, schedule), t) {
      var perm :| Interleaving(Homes(chains), perm) && m == Commit(s, Along(Effects(s, Flatten(chains)), perm));
      OnwardsOrders(all, Homes(chains), perm);
      EpochsLand(s, m, schedule, t);
      var order := Onwards(perm, all);
      assert order[..|perm|] == perm;
      CommitParts(s, chains, schedule, order);
      assert CommitsTo(s, chains, schedule, order, t);
    }
    if order :| CommitsTo(s, chains, schedule, order, t) {
      CommitParts(s, chains, schedule, order);
      var perm := order[..|Flatten(chains)|];
      var m := Commit(s, Along(Effects(s, Flatten(chains)), perm));
      EpochsLand(s, m, schedule, t);
      assert ChainsLandIn(s, chains, m);
    }
  }

  // ----- for every program with the keys of the pass

  ghost predicate SameShape(groups: seq<seq<Tx>>, others: seq<seq<Tx>>) {
    |groups| == |others| && forall g | 0 <= g < |groups| :: SameKeys(groups[g], others[g])
  }

  /** `us` and `vs` are programs for the chains and the epochs. */
  ghost predicate Programs(chains: seq<seq<Tx>>, schedule: seq<seq<Tx>>, us: seq<seq<Tx>>, vs: seq<seq<Tx>>) {
    SameShape(chains, us) && SameShape(schedule, vs) && GroupsRespect(us) && GroupsRespect(vs)
  }

  lemma {:induction false} ShapeKeys(groups: seq<seq<Tx>>, others: seq<seq<Tx>>)
    requires SameShape(groups, others)
    ensures SameKeys(Flatten(groups), Flatten(others)) && Homes(groups) == Homes(others)
  {
    if groups == [] {
      NoneSameKeys();
    } else {
      var n := |groups| - 1;
      assert SameKeys(groups[n], others[n]);
      SameKeysLength(groups[n]);
      hide SameKeys;
      ShapeKeys(groups[..n], others[..n]);
      SameKeysConcat(Flatten(groups[..n]), groups[n], Flatten(others[..n]), others[n]);
    }
  }

  lemma NoneSameKeys()
    ensures SameKeys([], [])
  {
  }

  lemma {:induction false} FlattenRespects(groups: seq<seq<Tx>>)
    requires GroupsRespect(groups)
    ensures AllRespect(Flatten(groups))
  {
    hide Respects;
    if groups != [] {
      var n := |groups| - 1;
      assert AllRespect(groups[n]) && forall g | 0 <= g < n :: AllRespect(groups[..n][g]);
      FlattenRespects(groups[..n]);
    }
  }

  /** Programs for the flattened groups are programs for the groups. */
  lemma {:induction false} Regroup(groups: seq<seq<Tx>>, us: seq<Tx>) returns (others: seq<seq<Tx>>)
    requires SameKeys(Flatten(groups), us) && AllRespect(us)
    ensures SameShape(groups, others) && GroupsRespect(others) && Flatten(others) == us
  {
    if groups == [] {
      others := [];
    } else {
      hide SameKeys, Respects;
      var n := |groups| - 1;
      var init := Flatten(groups[..n]);
      SameKeysSplit(init, groups[n], us);
      var earlier := Regroup(groups[..n], us[..|init|]);
      others := earlier + [us[|init|..]];
      assert others[..n] == earlier;
      hide Flatten;
      forall g | 0 <= g < |groups| ensures SameKeys(groups[g], others[g]) && AllRespect(others[g]) {
        if g < n { assert SameKeys(groups[..n][g], earlier[g]) && AllRespect(earlier[g]); }
      }
    }
  }

  lemma PassKeys(chains: seq<seq<Tx>>, schedule: seq<seq<Tx>>, us: seq<seq<Tx>>, vs: seq<seq<Tx>>)
    requires Programs(chains, schedule, us, vs)
    ensures SameKeys(Pass(chains, schedule), Pass(us, vs)) && AllRespect(Pass(us, vs))
    ensures forall order :: CommitOrder(chains, schedule, order) <==> CommitOrder(us, vs, order)
  {
    hide Respects;
    ShapeKeys(chains, us);
    ShapeKeys(schedule, vs);
    FlattenRespects(us);
    FlattenRespects(vs);
    SameKeysConcat(Flatten(chains), Flatten(schedule), Flatten(us), Flatten(vs));
    hide Flatten, Homes, Interleaving, Permutation;
  }

  lemma RegroupPass(chains: seq<seq<Tx>>, schedule: seq<seq<Tx>>, ps: seq<Tx>)
      returns (us: seq<seq<Tx>>, vs: seq<seq<Tx>>)
    requires SameKeys(Pass(chains, schedule), ps) && AllRespect(ps)
    ensures Programs(chains, schedule, us, vs) && Pass(us, vs) == ps
  {
    hide SameKeys, Respects, Flatten;
    var n := |Flatten(chains)|;
    SameKeysSplit(Flatten(chains), Flatten(schedule), ps);
    us := Regroup(chains, ps[..n]);
    vs := Regroup(schedule, ps[n..]);
  }

  lemma ShapeApart(schedule: seq<seq<Tx>>, vs: seq<seq<Tx>>)
    requires EpochsApart(schedule) && SameShape(schedule, vs)
    ensures EpochsApart(vs)
  {
    forall e | 0 <= e < |vs| ensures WritesDisjoint(vs[e]) {
      assert SameKeys(schedule[e], vs[e]) && WritesDisjoint(schedule[e]);
    }
  }

  /** Where programs for the pass can lead. */
  lemma ProgramOutcomes(chains: seq<seq<Tx>>, schedule: seq<seq<Tx>>, us: seq<seq<Tx>>, vs: seq<seq<Tx>>, s: State,
      t: State)
    requires EpochsApart(schedule) && Programs(chains, schedule, us, vs)
    ensures PassEndsIn(s, us, vs, t) <==>
            exists order ::
              CommitOrder(chains, schedule, order) && |Pass(us, vs)| == |Pass(chains, schedule)|
              && t == Commit(s, Effects(s, Along(Pass(us, vs), order)))
  {
    ShapeApart(schedule, vs);
    PassOutcomes(s, us, vs, t);
    PassKeys(chains, schedule, us, vs);
    hide PassEndsIn, CommitOrder, Commit, Effects, Pass, EpochsApart, GroupsRespect, SameShape;
    if order :| CommitsTo(s, us, vs, order, t) {
      assert CommitOrder(chains, schedule, order);
    }
    if order :| CommitOrder(chains, schedule, order) && CommitsTo(s, us, vs, order, t) {
    }
  }

  lemma AlongSameKeys(ts: seq<Tx>, us: seq<Tx>, perm: seq<nat>)
    requires SameKeys(ts, us) && Permutation(perm, |ts|)
    ensures SameKeys(Along(ts, perm), Along(us, perm))
  {
  }

  lemma SomeOutcome(chains: seq<seq<Tx>>, schedule: seq<seq<Tx>>, ps: seq<Tx>, s: State, order: seq<nat>)
      returns (us: seq<seq<Tx>>, vs: seq<seq<Tx>>)
    requires EpochsApart(schedule) && CommitOrder(chains, schedule, order)
    requires SameKeys(Pass(chains, schedule), ps) && AllRespect(ps)
    ensures Programs(chains, schedule, us, vs) && Pass(us, vs) == ps
    ensures |ps| == |Pass(chains, schedule)| && PassEndsIn(s, us, vs, Commit(s, Effects(s, Along(ps, order))))
  {
    us, vs := RegroupPass(chains, schedule, ps);
    hide PassEndsIn, Commit, Effects, Pass, Programs, EpochsApart;
    ProgramOutcomes(chains, schedule, us, vs, s, Commit(s, Effects(s, Along(ps, order))));
  }

  lemma OutcomeOrder(chains: seq<seq<Tx>>, schedule: seq<seq<Tx>>, us: seq<seq<Tx>>, vs: seq<seq<Tx>>, s: State,
      t: State) returns (order: seq<nat>)
    requires EpochsApart(schedule) && Programs(chains, schedule, us, vs) && PassEndsIn(s, us, vs, t)
    ensures CommitOrder(chains, schedule, order) && Permutation(order, |Pass(us, vs)|)
    ensures SameKeys(Pass(chains, schedule), Pass(us, vs)) && AllRespect(Pass(us, vs))
    ensures t == Commit(s, Effects(s, Along(Pass(us, vs), order)))
  {
    PassKeys(chains, schedule, us, vs);
    ProgramOutcomes(chains, schedule, us, vs, s, t);
    hide PassEndsIn, Commit, Effects, Pass, Programs, EpochsApart;
    order :| CommitOrder(chains, schedule, order) && |Pass(us, vs)| == |Pass(chains, schedule)|
             && t == Commit(s, Effects(s, Along(Pass(us, vs), order)));
  }

  // ----- exactly when the pass is serializable

  /** Whatever the programs, wherever the pass ends, some serial order of its transactions ends there. */
  ghost predicate PassSerializable(chains: seq<seq<Tx>>, schedule: seq<seq<Tx>>) {
    forall us, vs, s, t | Programs(chains, schedule, us, vs) && PassEndsIn(s, us, vs, t) ::
      SerialInSomeOrder(s, Pass(us, vs), t)
  }

  ghost predicate NoCommitCycle(chains: seq<seq<Tx>>, schedule: seq<seq<Tx>>) {
    forall order | CommitOrder(chains, schedule, order) :: AcyclicAlong(Pass(chains, schedule), order)
  }

  ghost predicate AcyclicAlong(ts: seq<Tx>, order: seq<nat>)
    requires Permutation(order, |ts|)
  {
    !HasCycle(Constraints(Along(ts, order)))
  }

  lemma AcyclicEndsSerial(ts: seq<Tx>, ps: seq<Tx>, order: seq<nat>, s: State)
    requires SameKeys(ts, ps) && AllRespect(ps) && Permutation(order, |ts|) && AcyclicAlong(ts, order)
    ensures SerialInSomeOrder(s, ps, Commit(s, Effects(s, Along(ps, order))))
  {
    AlongSameKeys(ts, ps, order);
    AlongRespects(ps, order);
    SomeOrderExactly(Along(ts, order));
    hide SerialInSomeOrder, Commit, Effects, AllRespect;
    ReorderedSerial(s, ps, order, Commit(s, Effects(s, Along(ps, order))));
  }

  /** Programs that end, in a commit order with a cycle, where no serial order does. */
  lemma CycleEndsElsewhere(ts: seq<Tx>, order: seq<nat>) returns (ps: seq<Tx>)
    requires Permutation(order, |ts|) && !AcyclicAlong(ts, order)
    ensures SameKeys(ts, ps) && AllRespect(ps)
    ensures !SerialInSomeOrder(map[], ps, Commit(map[], Effects(map[], Along(ps, order))))
  {
    var xs := Along(ts, order);
    var us := Telling(xs);
    CycleTells(xs);
    TellingRespects(xs);
    var back := Undone(us, order);
    ps := Along(us, back);
    AlongRespects(us, back);
    AlongSameKeys(xs, us, back);
    AlongUndone(ts, order, back);
    hide SerialInSomeOrder, Commit, Effects, AllRespect, Telling;
    ReorderedSerial(map[], ps, order, Commit(map[], Effects(map[], us)));
  }

  /** The pass is serializable exactly when in no order it can commit in the constraints between writers and stale
      readers have a cycle. */
  lemma PassExactly(chains: seq<seq<Tx>>, schedule: seq<seq<Tx>>)
    requires EpochsApart(schedule)
    ensures PassSerializable(chains, schedule) <==> NoCommitCycle(chains, schedule)
  {
    hide PassEndsIn, EpochsApart, Interleaving, AcyclicAlong, SerialInSomeOrder, Programs, Commit, Effects, AllRespect;
    if NoCommitCycle(chains, schedule) {
      forall us, vs, s, t | Programs(chains, schedule, us, vs) && PassEndsIn(s, us, vs, t)
        ensures SerialInSomeOrder(s, Pass(us, vs), t)
      {
        var order := OutcomeOrder(chains, schedule, us, vs, s, t);
        AcyclicEndsSerial(Pass(chains, schedule), Pass(us, vs), order, s);
      }
    }
    if PassSerializable(chains, schedule) {
      forall order | CommitOrder(chains, schedule, order) ensures AcyclicAlong(Pass(chains, schedule), order) {
        if !AcyclicAlong(Pass(chains, schedule), order) {
          var ps := CycleEndsElsewhere(Pass(chains, schedule), order);
          var us, vs := SomeOutcome(chains, schedule, ps, map[], order);
        }
      }
    }
  }

  // ----- exactly when the pass has one outcome

  ghost predicate Writes(ts: seq<Tx>, k: Key) {
    exists i :: 0 <= i < |ts| && k in ts[i].writeKeys
  }

  /** What two chains write, some epoch writes again. */
  ghost predicate Settled(chains: seq<seq<Tx>>, schedule: seq<seq<Tx>>) {
    forall k, g, h | 0 <= g < h < |chains| && Writes(chains[g], k) && Writes(chains[h], k) ::
      Writes(Flatten(schedule), k)
  }

  /** The same by positions. */
  ghost predicate SettledAt(ts: seq<Tx>, home: seq<nat>)
    requires |home| <= |ts|
  {
    forall a, b, k | 0 <= a < |home| && 0 <= b < |home| && home[a] != home[b]
        && k in ts[a].writeKeys && k in ts[b].writeKeys ::
      Writes(ts[|home|..], k)
  }

  lemma SettledPositions(chains: seq<seq<Tx>>, schedule: seq<seq<Tx>>)
    ensures |Homes(chains)| == |Flatten(chains)| <= |Pass(chains, schedule)|
    ensures Settled(chains, schedule) <==> SettledAt(Pass(chains, schedule), Homes(chains))
  {
    HomesFit(chains);
    var ts, home, n := Pass(chains, schedule), Homes(chains), |Flatten(chains)|;
    assert ts[n..] == Flatten(schedule) && ts[..n] == Flatten(chains);
    hide Flatten, Homes, Writes;
    if Settled(chains, schedule) {
      forall a, b, k | 0 <= a < n && 0 <= b < n && home[a] != home[b] && k in ts[a].writeKeys && k in ts[b].writeKeys
        ensures Writes(ts[n..], k)
      {
        WritesInHome(chains, a, k);
        WritesInHome(chains, b, k);
      }
    }
    if SettledAt(ts, home) {
      forall k, g, h | 0 <= g < h < |chains| && Writes(chains[g], k) && Writes(chains[h], k)
        ensures Writes(Flatten(schedule), k)
      {
        var a := WriterAt(chains, g, k);
        var b := WriterAt(chains, h, k);
      }
    }
  }

  lemma WritesInHome(chains: seq<seq<Tx>>, a: nat, k: Key)
    requires a < |Flatten(chains)| == |Homes(chains)| && k in Flatten(chains)[a].writeKeys
    ensures Homes(chains)[a] < |chains| && Writes(chains[Homes(chains)[a]], k)
  {
    var i := InHome(chains, a);
  }

  lemma WriterAt(chains: seq<seq<Tx>>, g: nat, k: Key) returns (a: nat)
    requires g < |chains| && Writes(chains[g], k)
    ensures a < |Flatten(chains)| == |Homes(chains)| && Homes(chains)[a] == g && k in Flatten(chains)[a].writeKeys
  {
    var i :| 0 <= i < |chains[g]| && k in chains[g][i].writeKeys;
    a := FlatPosition(chains, g, i);
  }

  lemma NotLater(ts: seq<Tx>, n: nat, p: nat, k: Key)
    requires Survives(ts, p, k) && p < n <= |ts|
    ensures !Writes(ts[n..], k)
  {
    forall i | 0 <= i < |ts[n..]| ensures k !in ts[n..][i].writeKeys { assert ts[n..][i] == ts[n + i]; }
  }

  /** If settled, a key has the same last writer in every commit order. */
  lemma SameLast(ts: seq<Tx>, home: seq<nat>, order: seq<nat>, k: Key, p: nat, z: nat)
    requires OrderAt(|ts|, home, order) && SettledAt(ts, home)
    requires Survives(ts, p, k) && Survives(Along(ts, order), z, k)
    ensures order[z] == p
  {
    var n := |home|;
    var y := PositionOf(order, |ts|, p);
    assert k in Along(ts, order)[y].writeKeys && y <= z;
    assert order[z] <= p;
    if p < n {
      NotLater(ts, n, p, k);
      assert z < n && home[order[z]] == home[p];
      assert order[..n][y] == p && order[..n][z] == order[z];
    } else {
      assert order[p] == p;
    }
  }

  lemma SettledCommit(s: State, ts: seq<Tx>, home: seq<nat>, order: seq<nat>)
    requires OrderAt(|ts|, home, order) && SettledAt(ts, home) && AllRespect(ts)
    ensures Commit(s, Effects(s, Along(ts, order))) == Commit(s, Effects(s, ts))
  {
    var us := Along(ts, order);
    AlongRespects(ts, order);
    hide Commit, Effects, AllRespect, SettledAt;
    forall k: Key ensures Agree(Commit(s, Effects(s, us)), Commit(s, Effects(s, ts)), {k}) {
      if m: nat :| m < |ts| && k in ts[m].writeKeys {
        var p := FindSurvivor(ts, k, m);
        var y := PositionOf(order, |ts|, m);
        var z := FindSurvivor(us, k, y);
        SameLast(ts, home, order, k, p, z);
        SnapshotSurvivor(s, ts, p, k);
        SnapshotSurvivor(s, us, z, k);
      } else {
        SnapshotUnwritten(s, ts, k);
        SnapshotUnwritten(s, us, k);
        assert Agree(Commit(s, Effects(s, us)), s, {k}) && Agree(Commit(s, Effects(s, ts)), s, {k});
      }
    }
    SameEverywhere(Commit(s, Effects(s, us)), Commit(s, Effects(s, ts)));
  }

  /** If not, another chain last leaves another writer's value. */
  lemma UnsettledDiffers(ts: seq<Tx>, home: seq<nat>, a: nat, b: nat, k: Key) returns (order: seq<nat>)
    requires |home| <= |ts| && a < |home| && b < |home| && home[a] != home[b]
    requires k in ts[a].writeKeys && k in ts[b].writeKeys && !Writes(ts[|home|..], k)
    ensures OrderAt(|ts|, home, order)
    ensures Commit(map[], Effects(map[], Along(Telling(ts), order))) != Commit(map[], Effects(map[], Telling(ts)))
  {
    var n := |home|;
    forall i | n <= i < |ts| ensures k !in ts[i].writeKeys { assert ts[n..][i - n] == ts[i]; }
    var p := FindSurvivor(ts, k, a);
    var q := if home[a] == home[p] then b else a;
    var perm := LastChain(home, home[q]);
    LastChainInterleaves(home, home[q]);
    hide LastChain, Positions, Interleaving;
    order := Onwards(perm, |ts|);
    OnwardsOrders(|ts|, home, perm);
    var y := PositionOf(perm, n, q);
    assert k in Along(ts, order)[y].writeKeys;
    var z := FindSurvivor(Along(ts, order), k, y);
    assert home[order[z]] == home[q];
    Differs(ts, order, k, p, z);
  }

  lemma Differs(ts: seq<Tx>, order: seq<nat>, k: Key, p: nat, z: nat)
    requires Permutation(order, |ts|) && Survives(ts, p, k) && Survives(Along(ts, order), z, k) && order[z] != p
    ensures Commit(map[], Effects(map[], Along(Telling(ts), order))) != Commit(map[], Effects(map[], Telling(ts)))
  {
    var us := Telling(ts);
    TellingRespects(ts);
    AlongRespects(us, order);
    hide Commit, Effects, Respects, Tell;
    SameSurvivors(ts, us);
    SameSurvivors(Along(ts, order), Along(us, order));
    SnapshotSurvivor(map[], us, p, k);
    SnapshotSurvivor(map[], Along(us, order), z, k);
    Tells(ts[p], p, map[], k);
    Tells(ts[order[z]], order[z], map[], k);
  }

  /** Whatever the programs, the pass ends where the effects lead in the order of the schedule, and nowhere else. */
  ghost predicate OneOutcome(chains: seq<seq<Tx>>, schedule: seq<seq<Tx>>) {
    forall us, vs, s, t | Programs(chains, schedule, us, vs) ::
      PassEndsIn(s, us, vs, t) <==> t == Commit(s, Effects(s, Pass(us, vs)))
  }

  lemma SchedulesOutcome(chains: seq<seq<Tx>>, schedule: seq<seq<Tx>>, us: seq<seq<Tx>>, vs: seq<seq<Tx>>, s: State)
    requires EpochsApart(schedule) && Programs(chains, schedule, us, vs)
    ensures PassEndsIn(s, us, vs, Commit(s, Effects(s, Pass(us, vs))))
  {
    ShapeApart(schedule, vs);
    hide EpochsApart, CommitOrder, Commit, Effects, PassEndsIn;
    ScheduleCommits(us, vs);
    var all := |Pass(us, vs)|;
    assert Along(Pass(us, vs), InOrder(all)) == Pass(us, vs);
    assert CommitsTo(s, us, vs, InOrder(all), Commit(s, Effects(s, Pass(us, vs))));
    PassOutcomes(s, us, vs, Commit(s, Effects(s, Pass(us, vs))));
  }

  lemma SettledKeys(ts: seq<Tx>, us: seq<Tx>, home: seq<nat>)
    requires SameKeys(ts, us) && |home| <= |ts| && SettledAt(ts, home)
    ensures SettledAt(us, home)
  {
    var n := |home|;
    forall a, b, k | 0 <= a < n && 0 <= b < n && home[a] != home[b] && k in us[a].writeKeys && k in us[b].writeKeys
      ensures Writes(us[n..], k)
    {
      assert Writes(ts[n..], k);
      var i :| 0 <= i < |ts[n..]| && k in ts[n..][i].writeKeys;
      assert us[n..][i].writeKeys == ts[n..][i].writeKeys;
    }
  }

  lemma SettledOutcome(chains: seq<seq<Tx>>, schedule: seq<seq<Tx>>, us: seq<seq<Tx>>, vs: seq<seq<Tx>>, s: State,
      t: State)
    requires EpochsApart(schedule) && Settled(chains, schedule) && Programs(chains, schedule, us, vs)
    requires PassEndsIn(s, us, vs, t)
    ensures t == Commit(s, Effects(s, Pass(us, vs)))
  {
    SettledPositions(chains, schedule);
    hide EpochsApart, Settled, SettledAt, PassEndsIn, Programs, Commit, Effects, Homes, OrderAt;
    var order := OutcomeOrder(chains, schedule, us, vs, s, t);
    SettledKeys(Pass(chains, schedule), Pass(us, vs), Homes(chains));
    SettledCommit(s, Pass(us, vs), Homes(chains), order);
  }

  /** The pass has one outcome for every program exactly when what two chains write some epoch writes again. */
  lemma OneOutcomeExactly(chains: seq<seq<Tx>>, schedule: seq<seq<Tx>>)
    requires EpochsApart(schedule)
    ensures OneOutcome(chains, schedule) <==> Settled(chains, schedule)
  {
    hide EpochsApart, Settled, PassEndsIn, Programs, Commit, Effects, Pass;
    if Settled(chains, schedule) {
      forall us, vs, s, t | Programs(chains, schedule, us, vs)
        ensures PassEndsIn(s, us, vs, t) <==> t == Commit(s, Effects(s, Pass(us, vs)))
      {
        SchedulesOutcome(chains, schedule, us, vs, s);
        if PassEndsIn(s, us, vs, t) { SettledOutcome(chains, schedule, us, vs, s, t); }
      }
    }
    if !Settled(chains, schedule) {
      UnsettledRaces(chains, schedule);
    }
  }

  lemma UnsettledRaces(chains: seq<seq<Tx>>, schedule: seq<seq<Tx>>)
    requires EpochsApart(schedule) && !Settled(chains, schedule)
    ensures !OneOutcome(chains, schedule)
  {
    var ts, home := Pass(chains, schedule), Homes(chains);
    SettledPositions(chains, schedule);
    hide EpochsApart, Settled, PassEndsIn, Programs, Commit, Effects, Homes, OrderAt, Pass, Writes;
    var a: nat, b: nat, k :| a < |home| && b < |home| && home[a] != home[b]
      && k in ts[a].writeKeys && k in ts[b].writeKeys && !Writes(ts[|home|..], k);
    var order := UnsettledDiffers(ts, home, a, b, k);
    TellingRespects(ts);
    hide Telling, SameKeys, AllRespect;
    var us, vs := SomeOutcome(chains, schedule, Telling(ts), map[], order);
    assert Pass(us, vs) == Telling(ts);
  }

  // ----- exactly when it is serial in the order of the schedule

  ghost predicate PassAlwaysSerial(chains: seq<seq<Tx>>, schedule: seq<seq<Tx>>) {
    forall us, vs, s, t | Programs(chains, schedule, us, vs) && PassEndsIn(s, us, vs, t) ::
      t == Serial(s, Pass(us, vs))
  }

  lemma ScheduleSerial(chains: seq<seq<Tx>>, schedule: seq<seq<Tx>>)
    requires EpochsApart(schedule) && PassAlwaysSerial(chains, schedule)
    ensures AlwaysSerial(Pass(chains, schedule))
  {
    hide EpochsApart, PassEndsIn, Programs, Commit, Effects, Pass, Serial, SameKeys, AllRespect;
    forall ps, s | SameKeys(Pass(chains, schedule), ps) && AllRespect(ps)
      ensures Commit(s, Effects(s, ps)) == Serial(s, ps)
    {
      var us, vs := RegroupPass(chains, schedule, ps);
      SchedulesOutcome(chains, schedule, us, vs, s);
    }
  }

  /** Every outcome is that of running the pass serially in the order of the schedule, whatever the programs, exactly
      when no transaction that shows reads what an earlier one writes, and what two chains write some epoch writes
      again. */
  lemma PassInOrderExactly(chains: seq<seq<Tx>>, schedule: seq<seq<Tx>>)
    requires EpochsApart(schedule)
    ensures PassAlwaysSerial(chains, schedule) <==> NoStaleRead(Pass(chains, schedule)) && Settled(chains, schedule)
  {
    OneOutcomeExactly(chains, schedule);
    ListedExactly(Pass(chains, schedule));
    if PassAlwaysSerial(chains, schedule) { ScheduleSerial(chains, schedule); }
    hide EpochsApart, PassEndsIn, Settled, NoStaleRead, Commit, Effects, Serial, SameKeys, AllRespect;
    hide SameShape, GroupsRespect;
    forall us, vs | Programs(chains, schedule, us, vs)
      ensures SameKeys(Pass(chains, schedule), Pass(us, vs)) && AllRespect(Pass(us, vs))
    {
      PassKeys(chains, schedule, us, vs);
    }
    hide Pass, Programs;
    if PassAlwaysSerial(chains, schedule) {
      forall us, vs, s, t | Programs(chains, schedule, us, vs)
        ensures PassEndsIn(s, us, vs, t) <==> t == Commit(s, Effects(s, Pass(us, vs)))
      {
        SchedulesOutcome(chains, schedule, us, vs, s);
      }
    }
  }

  // ----- the conflict-free zone

  /** The chains of indices as chains of transactions. */
  function Chained(txs: seq<Tx>, chains: seq<seq<nat>>): seq<seq<Tx>>
    requires Within(Flatten(chains), |txs|)
  {
    if chains == [] then [] else
      var n := |chains| - 1;
      assert forall i | 0 <= i < |Flatten(chains[..n])| :: Flatten(chains[..n])[i] == Flatten(chains)[i];
      assert forall i | 0 <= i < |chains[n]| :: chains[n][i] == Flatten(chains)[|Flatten(chains[..n])| + i];
      Chained(txs, chains[..n]) + [Along(txs, chains[n])]
  }

  lemma {:induction false} ChainedFits(txs: seq<Tx>, chains: seq<seq<nat>>)
    requires Within(Flatten(chains), |txs|)
    ensures Flatten(Chained(txs, chains)) == Along(txs, Flatten(chains)) && |Chained(txs, chains)| == |chains|
    ensures Homes(Chained(txs, chains)) == Homes(chains)
  {
    if chains != [] {
      var n := |chains| - 1;
      assert Within(Flatten(chains[..n]), |txs|) by {
        assert forall i | 0 <= i < |Flatten(chains[..n])| :: Flatten(chains[..n])[i] == Flatten(chains)[i];
      }
      ChainedFits(txs, chains[..n]);
      assert Chained(txs, chains)[..n] == Chained(txs, chains[..n]);
    }
  }

  /** With nothing after the chains, being settled is writing no key in two chains. */
  lemma SettledAlone(txs: seq<Tx>, chains: seq<seq<nat>>)
    requires Within(Flatten(chains), |txs|)
    ensures Settled(Chained(txs, chains), []) <==> NoKeyInTwoChains(txs, chains)
  {
    var cs, home, order := Chained(txs, chains), Homes(chains), Flatten(chains);
    ChainedFits(txs, chains);
    SettledPositions(cs, []);
    NoKeyByPosition(txs, chains);
    assert Pass(cs, []) == Along(txs, order);
    hide Flatten, Homes, Settled, NoKeyInTwoChains, SettledAt, ChainsWriteApart;
    ApartIsSettled(Along(txs, order), WritesAlong(txs, order), home);
  }

  lemma ApartIsSettled(ts: seq<Tx>, writes: seq<set<Key>>, home: seq<nat>)
    requires |ts| == |home| == |writes| && forall i | 0 <= i < |ts| :: ts[i].writeKeys == writes[i]
    ensures SettledAt(ts, home) <==> ChainsWriteApart(writes, home)
  {
    assert ts[|home|..] == [];
    if SettledAt(ts, home) {
      forall a, b | 0 <= a < |home| && 0 <= b < |home| && home[a] != home[b] ensures writes[a] !! writes[b] {
        forall k ensures !(k in ts[a].writeKeys && k in ts[b].writeKeys) { assert !Writes(ts[|home|..], k); }
      }
    }
  }

  /** If no key is written in two chains, the conflict-free zone ends in one state only. */
  lemma ChainsOutcome(s: State, txs: seq<Tx>, chains: seq<seq<nat>>, m: State)
    requires Within(Flatten(chains), |txs|) && AllRespect(txs) && NoKeyInTwoChains(txs, chains)
    ensures ChainsLandIn(s, Chained(txs, chains), m) <==> m == Commit(s, Effects(s, Along(txs, Flatten(chains))))
  {
    var cs := Chained(txs, chains);
    ChainedFits(txs, chains);
    ChainedRespects(txs, chains);
    SettledAlone(txs, chains);
    OneOutcomeExactly(cs, []);
    assert Pass(cs, []) == Along(txs, Flatten(chains));
    hide ChainsLandIn, Settled, Commit, Effects, Flatten, GroupsRespect;
    assert Programs(cs, [], cs, []) by { SelfShape(cs); }
    assert PassEndsIn(s, cs, [], m) <==> ChainsLandIn(s, cs, m) by {
      NoEpochs(s, cs, m);
    }
  }

  lemma SelfShape(groups: seq<seq<Tx>>)
    ensures SameShape(groups, groups) && SameShape([], []) && GroupsRespect([])
  {
  }

  lemma NoEpochs(s: State, chains: seq<seq<Tx>>, t: State)
    ensures PassEndsIn(s, chains, [], t) <==> ChainsLandIn(s, chains, t)
  {
    hide ChainsLandIn;
    assert EffectGroups(s, []) == [];
    forall m ensures GroupsLandIn(m, EffectGroups(s, []), t) <==> t == m { }
  }

  lemma {:induction false} ChainedRespects(txs: seq<Tx>, chains: seq<seq<nat>>)
    requires Within(Flatten(chains), |txs|) && AllRespect(txs)
    ensures GroupsRespect(Chained(txs, chains))
  {
    hide Respects;
    if chains != [] {
      var n := |chains| - 1;
      assert forall i | 0 <= i < |Flatten(chains[..n])| :: Flatten(chains[..n])[i] == Flatten(chains)[i];
      assert forall i | 0 <= i < |chains[n]| :: chains[n][i] == Flatten(chains)[|Flatten(chains[..n])| + i];
      ChainedRespects(txs, chains[..n]);
      forall i | 0 <= i < |chains[n]| ensures Respects(Along(txs, chains[n])[i]) { assert Respects(txs[chains[n][i]]); }
    }
  }

  /** Chain after chain, everything comes after what it reads from. */
  lemma ChainsStale(txs: seq<Tx>, order: seq<nat>)
    requires Permutation(order, |txs|) && Topological(Reads(txs), order)
    ensures NoStaleRead(Along(txs, order)) <==>
            forall b: nat | b < |order| && Shows(Along(txs, order), b) :: Reads(txs)[order[b]] == {}
  {
    var ts := Along(txs, order);
    hide Shows;
    if !NoStaleRead(ts) {
      var a, b :| 0 <= a < b < |ts| && Misses(ts, b, a);
      assert order[a] in Reads(txs)[order[b]];
    }
    if b: nat :| b < |order| && Shows(ts, b) && Reads(txs)[order[b]] != {} {
      var j :| j in Reads(txs)[order[b]];
      assert DependsOn(Reads(txs), order[b], j) && AfterDependencies(Reads(txs), order, b);
      assert j in order[..b];
      var a :| 0 <= a < b && order[..b][a] == j;
      assert Misses(ts, b, a);
    }
  }

  /** However the chains interleave, they end where running chain after chain does, for every program, exactly when no
      key is written in two chains and nothing that shows depends on anything: whatever a chain puts in order is a
      stale read. */
  lemma ChainOrderExactly(txs: seq<Tx>, chains: seq<seq<nat>>)
    requires Permutation(Flatten(chains), |txs|) && Topological(Reads(txs), Flatten(chains))
    ensures Within(Flatten(chains), |txs|)
    ensures var order := Flatten(chains);
            PassAlwaysSerial(Chained(txs, chains), []) <==>
              && NoKeyInTwoChains(txs, chains)
              && forall b: nat | b < |order| && Shows(Along(txs, order), b) :: Reads(txs)[order[b]] == {}
  {
    ChainedFits(txs, chains);
    assert Pass(Chained(txs, chains), []) == Along(txs, Flatten(chains));
    PassInOrderExactly(Chained(txs, chains), []);
    SettledAlone(txs, chains);
    ChainsStale(txs, Flatten(chains));
  }

  function Reversed(n: nat): seq<nat> {
    seq(n, i requires 0 <= i < n => n - 1 - i)
  }

  lemma ReversedIsPermutation(n: nat)
    ensures Permutation(Reversed(n), n)
  {
    forall v: nat | v < n ensures v in Reversed(n) { assert Reversed(n)[n - 1 - v] == v; }
  }

  /** The equivalent order is the other way round: if no key is written twice, the chains are serializable last to
      first. */
  lemma ChainsSerialBackwards(txs: seq<Tx>, order: seq<nat>)
    requires Permutation(order, |txs|) && Topological(Reads(txs), order) && WritesDisjoint(Along(txs, order))
    ensures Permutation(Reversed(|txs|), |txs|) && AlwaysSerialIn(Along(txs, order), Reversed(|txs|))
  {
    var ts, n := Along(txs, order), |txs|;
    var d, back := Constraints(ts), Reversed(n);
    ReversedIsPermutation(n);
    forall a: nat | a < n ensures AfterDependencies(d, back, a) {
      forall j: nat | DependsOn(d, back[a], j) ensures j in back[..a] {
        var i := back[a];
        assert !Overwrites(ts, i, j);
        assert order[i] in Reads(txs)[order[j]];
        assert AfterDependencies(Reads(txs), order, j);
        assert DependsOn(Reads(txs), order[j], order[i]);
        assert order[i] in order[..j];
        assert i < j;
        assert back[..a][n - 1 - j] == j;
      }
    }
    SerialInExactly(ts, back);
  }
}
