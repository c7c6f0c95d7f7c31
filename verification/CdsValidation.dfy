/** Re-executed transactions of an epoch: which of them `_validate_optimistic_assumption` lets commit, and exactly when
    committing them is serializable. */
module CdsValidation {
  import opened CdsCommit
  import opened CdsSerial
  import opened Orderings

  function WritesOf(ts: seq<Tx>): set<Key> {
    set i, k | 0 <= i < |ts| && k in ts[i].writeKeys :: k
  }

  /** The greedy choice: a transaction is kept unless it writes what one kept earlier writes. */
  function Kept(ts: seq<Tx>): seq<Tx> {
    if ts == [] then [] else
      var n := |ts| - 1;
      var kept := Kept(ts[..n]);
      if ts[n].writeKeys !! WritesOf(kept) then kept + [ts[n]] else kept
  }

  lemma KeptStep(ts: seq<Tx>, i: nat)
    requires i < |ts|
    ensures Kept(ts[..i + 1]) ==
            if ts[i].writeKeys !! WritesOf(Kept(ts[..i])) then Kept(ts[..i]) + [ts[i]] else Kept(ts[..i])
  {
    assert ts[..i + 1][..i] == ts[..i];
  }

  lemma NoneKept(ts: seq<Tx>)
    requires ts == []
    ensures Kept(ts) == [] && WritesDisjoint([]) && WritesOf([]) == {}
  {
  }

  lemma OneKept(ts: seq<Tx>)
    requires |ts| == 1
    ensures Kept(ts) == ts && WritesDisjoint(ts)
  {
    NoneKept(ts[..0]);
  }

  /** The split of the first `i` transactions. */
  ghost predicate Split(ts: seq<Tx>, i: nat, valid: seq<Tx>, invalid: seq<Tx>) {
    && i <= |ts|
    && valid == Kept(ts[..i])
    && multiset(valid) + multiset(invalid) == multiset(ts[..i])
    && WritesDisjoint(valid)
    && (forall t | t in invalid :: !(t.writeKeys !! WritesOf(valid)))
    && (invalid == [] ==> valid == ts[..i])
    && (invalid != [] ==> !WritesDisjoint(ts))
  }

  lemma SplitKeeps(ts: seq<Tx>, i: nat, valid: seq<Tx>, invalid: seq<Tx>)
    requires Split(ts, i, valid, invalid) && i < |ts| && ts[i].writeKeys !! WritesOf(valid)
    ensures Split(ts, i + 1, valid + [ts[i]], invalid)
  {
    hide WritesDisjoint, WritesOf, Kept;
    KeptStep(ts, i);
    WritesOfAppend(valid, ts[i]);
    assert ts[..i + 1] == ts[..i] + [ts[i]];
  }

  lemma SplitDrops(ts: seq<Tx>, i: nat, valid: seq<Tx>, invalid: seq<Tx>)
    requires Split(ts, i, valid, invalid) && i < |ts| && !(ts[i].writeKeys !! WritesOf(valid))
    ensures Split(ts, i + 1, valid, invalid + [ts[i]])
  {
    hide WritesDisjoint, WritesOf, Kept;
    KeptStep(ts, i);
    if invalid == [] { ClashFound(ts, i); }
    assert ts[..i + 1] == ts[..i] + [ts[i]];
  }

  lemma SplitDone(ts: seq<Tx>, valid: seq<Tx>, invalid: seq<Tx>)
    requires Split(ts, |ts|, valid, invalid)
    ensures valid == Kept(ts) && WritesDisjoint(valid) && multiset(valid) + multiset(invalid) == multiset(ts)
    ensures forall t | t in invalid :: !(t.writeKeys !! WritesOf(valid))
    ensures (WritesDisjoint(ts) <==> invalid == []) && (invalid == [] ==> valid == ts)
  {
    hide WritesDisjoint, WritesOf, Kept;
    assert ts[..|ts|] == ts;
  }

  /** The earlier of two that clash is valid. Nothing is lost, valid ones have no written key in common, each invalid
      one clashes with a valid one, and none is invalid exactly when there was no clash. */
  method Validate(ts: seq<Tx>) returns (valid: seq<Tx>, invalid: seq<Tx>)
    ensures valid == Kept(ts) && WritesDisjoint(valid) && multiset(valid) + multiset(invalid) == multiset(ts)
    ensures forall t | t in invalid :: !(t.writeKeys !! WritesOf(valid))
    ensures (WritesDisjoint(ts) <==> invalid == []) && (invalid == [] ==> valid == ts)
  {
    hide WritesDisjoint, WritesOf, Kept, Split;
    if |ts| == 1 {
      OneKept(ts);
      return ts, [];
    }
    valid, invalid := [], [];
    var written: set<Key> := {};
    SplitStarts(ts);
    for i := 0 to |ts|
      invariant Split(ts, i, valid, invalid) && written == WritesOf(valid)
    {
      var t := ts[i];
      if t.writeKeys !! written {
        SplitKeeps(ts, i, valid, invalid);
        WritesOfAppend(valid, t);
        written := written + t.writeKeys;
        valid := valid + [t];
      } else {
        SplitDrops(ts, i, valid, invalid);
        invalid := invalid + [t];
      }
    }
    SplitDone(ts, valid, invalid);
  }

  lemma SplitStarts(ts: seq<Tx>)
    ensures Split(ts, 0, [], []) && WritesOf([]) == {}
  {
    NoneKept(ts[..0]);
  }

  lemma WritesOfAppend(ts: seq<Tx>, t: Tx)
    ensures WritesOf(ts + [t]) == WritesOf(ts) + t.writeKeys
    ensures WritesDisjoint(ts) && t.writeKeys !! WritesOf(ts) ==> WritesDisjoint(ts + [t])
  {
    var us := ts + [t];
    forall k ensures k in WritesOf(us) <==> k in WritesOf(ts) || k in t.writeKeys {
      if k in WritesOf(ts) {
        var i :| 0 <= i < |ts| && k in ts[i].writeKeys;
        assert k in us[i].writeKeys;
      }
      if k in t.writeKeys { assert k in us[|ts|].writeKeys; }
    }
    if WritesDisjoint(ts) && t.writeKeys !! WritesOf(ts) {
      forall i, j | 0 <= i < j < |us| ensures us[i].writeKeys !! us[j].writeKeys {
        if j == |ts| { assert us[i].writeKeys <= WritesOf(ts) by { assert us[i] == ts[i]; } }
      }
    }
  }

  lemma ClashFound(ts: seq<Tx>, i: nat)
    requires i < |ts| && !(ts[i].writeKeys !! WritesOf(ts[..i]))
    ensures !WritesDisjoint(ts)
  {
    var k :| k in ts[i].writeKeys && k in WritesOf(ts[..i]);
    var j :| 0 <= j < i && k in ts[..i][j].writeKeys;
    assert k in ts[j].writeKeys;
  }

  // ----- exactly when what passes validation is serializable

  /** `j` has to come before `i` if it writes something and read what `i` writes. */
  function StaleReads(ts: seq<Tx>): Deps {
    seq(|ts|, i requires 0 <= i < |ts| =>
      set j | 0 <= j < |ts| && j != i && ts[j].writeKeys != {} && !(ts[j].readKeys !! ts[i].writeKeys))
  }

  lemma WritersShow(ts: seq<Tx>)
    requires WritesDisjoint(ts)
    ensures forall j: nat | j < |ts| :: Shows(ts, j) <==> ts[j].writeKeys != {}
  {
    forall j: nat | j < |ts| ensures Shows(ts, j) <==> ts[j].writeKeys != {} {
      if w :| w in ts[j].writeKeys { assert Survives(ts, j, w); }
    }
  }

  /** Without write clashes every writing transaction shows, and stale reads are the only constraints. */
  lemma OnlyStaleReads(ts: seq<Tx>)
    requires WritesDisjoint(ts)
    ensures Constraints(ts) == StaleReads(ts)
  {
    WritersShow(ts);
    forall i, j | 0 <= i < |ts| && 0 <= j < |ts| && i != j ensures !Overwrites(ts, i, j) {
    }
    assert forall i | 0 <= i < |ts| :: Constraints(ts)[i] == StaleReads(ts)[i];
  }

  /** A group whose writes do not clash is serializable, for every program with those keys, exactly when its stale reads
      have no cycle; and in the order it is in, exactly when no writing transaction reads what an earlier one writes.
      Validation does not look at reads. */
  lemma SerialExactly(ts: seq<Tx>)
    requires WritesDisjoint(ts)
    ensures Serializable(ts) <==> !HasCycle(StaleReads(ts))
    ensures SomeOrderSerial(ts) <==> !HasCycle(StaleReads(ts))
    ensures AlwaysSerial(ts) <==> ReadsNoEarlierWrite(ts)
  {
    OnlyStaleReads(ts);
    SomeOrderExactly(ts);
    ListedExactly(ts);
    WritersShow(ts);
    hide Serializable, SomeOrderSerial, HasCycle, AlwaysSerial, Shows;
    forall i, j | 0 <= i < j < |ts|
      ensures Misses(ts, j, i) <==> !(ts[i].writeKeys !! ts[j].readKeys || ts[j].writeKeys == {})
    {
    }
  }

  function Skewed(from: Key, to: Key): Tx {
    Tx(0, {from}, {to}, (s: State) => map[to := Get(s, from) + 1])
  }

  lemma SkewedRuns(from: Key, to: Key)
    ensures Respects(Skewed(from, to))
    ensures forall s: State :: Skewed(from, to).run(s) == map[to := Get(s, from) + 1]
  {
  }

  lemma SkewCycle(a: Tx, b: Tx, x: Key, y: Key)
    requires x in a.readKeys && x in b.writeKeys && y in b.readKeys && y in a.writeKeys
    ensures HasCycle(StaleReads([a, b]))
  {
    var d := StaleReads([a, b]);
    assert DependsOn(d, 0, 1) && DependsOn(d, 1, 0);
    assert DependsAt(d, [0, 1, 0], 0) && DependsAt(d, [0, 1, 0], 1);
    assert Cycle(d, [0, 1, 0]);
  }

  /** Two transactions that each read the key the other writes clash in no write, and committing both matches neither
      order of running them. */
  lemma WriteSkew(s: State, x: Key, y: Key)
    requires x != y && Get(s, x) == Get(s, y)
    ensures
      var (a, b) := (Skewed(x, y), Skewed(y, x));
      && WritesDisjoint([a, b]) && AllRespect([a, b]) && HasCycle(StaleReads([a, b]))
      && Commit(s, Effects(s, [a, b])) != Serial(s, [a, b]) && Commit(s, Effects(s, [a, b])) != Serial(s, [b, a])
  {
    var a, b := Skewed(x, y), Skewed(y, x);
    assert WritesDisjoint([a, b]);
    SkewCycle(a, b, x, y);
    SkewedRuns(x, y);
    SkewedRuns(y, x);
    Pair(s, a, b);
    Pair(s, b, a);
    hide Skewed, Serial, Commit, Effects, Respects;
    assert Commit(s, Effects(s, [a, b]))[x] == Get(s, y) + 1 && Commit(s, Effects(s, [a, b]))[y] == Get(s, x) + 1;
    assert Serial(s, [a, b])[x] == Get(s, x) + 2 && Serial(s, [b, a])[y] == Get(s, y) + 2;
  }
}
