/** The conflict zone of the scheduler: each transaction goes into the first epoch whose writes it does not touch. */
module CdsEpochs {
  import opened CdsCommit
  import opened CdsSerial

  // ----- placements

  /** The epoch of each candidate, in candidate order. */
  type Placement = seq<nat>

  /** What the candidates placed in epoch `e` write. */
  function EpochWrites(cs: seq<Tx>, at: Placement, e: nat): set<Key>
    requires |cs| == |at|
  {
    if cs == [] then {} else
      var n := |cs| - 1;
      EpochWrites(cs[..n], at[..n], e) + if at[n] == e then cs[n].writeKeys else {}
  }

  /** Each candidate is in the least epoch whose writers so far it has no key in common with. */
  ghost predicate FirstFit(cs: seq<Tx>, at: Placement) {
    && |cs| == |at|
    && (cs != [] ==>
          var n := |cs| - 1;
          && FirstFit(cs[..n], at[..n])
          && cs[n].Keys() !! EpochWrites(cs[..n], at[..n], at[n])
          && forall e: nat | e < at[n] :: !(cs[n].Keys() !! EpochWrites(cs[..n], at[..n], e)))
  }

  /** There is one such placement. */
  lemma {:induction false} FirstFitUnique(cs: seq<Tx>, a: Placement, b: Placement)
    requires FirstFit(cs, a) && FirstFit(cs, b)
    ensures a == b
  {
    if cs != [] {
      var n := |cs| - 1;
      FirstFitUnique(cs[..n], a[..n], b[..n]);
      assert a == a[..n] + [a[n]] && b == b[..n] + [b[n]];
    }
  }

  /** The candidates of epoch `e`, in candidate order. */
  function Members(cs: seq<Tx>, at: Placement, e: nat): seq<Tx>
    requires |cs| == |at|
  {
    if cs == [] then [] else
      var n := |cs| - 1;
      Members(cs[..n], at[..n], e) + if at[n] == e then [cs[n]] else []
  }

  ghost predicate Groups(cs: seq<Tx>, at: Placement, schedule: seq<seq<Tx>>) {
    && |cs| == |at|
    && (forall i | 0 <= i < |at| :: at[i] < |schedule|)
    && (forall e | 0 <= e < |schedule| :: schedule[e] == Members(cs, at, e) && schedule[e] != [])
  }

  // ----- what first fit gives

  lemma {:induction false} MembersWrite(cs: seq<Tx>, at: Placement, e: nat, p: nat)
    requires |cs| == |at| && p < |Members(cs, at, e)|
    ensures Members(cs, at, e)[p].writeKeys <= EpochWrites(cs, at, e)
  {
    var n := |cs| - 1;
    if p < |Members(cs[..n], at[..n], e)| { MembersWrite(cs[..n], at[..n], e, p); }
  }

  lemma {:induction false} EpochsIndependent(cs: seq<Tx>, at: Placement, e: nat)
    requires FirstFit(cs, at)
    ensures Independent(Members(cs, at, e))
  {
    if cs != [] {
      var n := |cs| - 1;
      var earlier := Members(cs[..n], at[..n], e);
      EpochsIndependent(cs[..n], at[..n], e);
      if at[n] == e {
        forall p | 0 <= p < |earlier| ensures earlier[p].writeKeys !! cs[n].Keys() {
          MembersWrite(cs[..n], at[..n], e, p);
        }
      }
    }
  }

  lemma {:induction false} MembersRespect(cs: seq<Tx>, at: Placement, e: nat)
    requires |cs| == |at| && AllRespect(cs)
    ensures AllRespect(Members(cs, at, e))
  {
    if cs != [] {
      var n := |cs| - 1;
      assert Respects(cs[n]) && forall i | 0 <= i < n :: Respects(cs[i]);
      MembersRespect(cs[..n], at[..n], e);
    }
  }

  /** Re-executed, one epoch after the other, each epoch on the state the one before it left: the epochs end in the one
      state the flattened schedule gives serially. First fit is serializable, whatever order commits land in. */
  lemma EpochsSerializable(s: State, cs: seq<Tx>, at: Placement, schedule: seq<seq<Tx>>, t: State)
    requires FirstFit(cs, at) && Groups(cs, at, schedule) && AllRespect(cs)
    ensures RunsTo(s, schedule, t) <==> t == Serial(s, Flatten(schedule))
  {
    forall e | 0 <= e < |schedule| ensures Independent(schedule[e]) && AllRespect(schedule[e]) {
      EpochsIndependent(cs, at, e);
      MembersRespect(cs, at, e);
    }
    ScheduleSerializable(s, schedule, t);
  }

  // ----- `find_minimum_epoch`, `place_into_epochs`

  ghost predicate Fits(tx: Tx, epochMap: seq<set<Key>>, epoch: nat) {
    && epoch <= |epochMap|
    && (epoch < |epochMap| ==> tx.Keys() !! epochMap[epoch])
    && (forall e | 0 <= e < epoch :: !(tx.Keys() !! epochMap[e]))
  }

  method FindMinimumEpoch(tx: Tx, epochMap: seq<set<Key>>) returns (epoch: nat)
    ensures epoch <= |epochMap| && Fits(tx, epochMap, epoch)
  {
    epoch := 0;
    while epoch < |epochMap| && !(tx.Keys() !! epochMap[epoch])
      invariant epoch <= |epochMap|
      invariant forall e | 0 <= e < epoch :: !(tx.Keys() !! epochMap[e])
    {
      epoch := epoch + 1;
    }
  }

  lemma {:induction false} FlattenGrows<T>(groups: seq<seq<T>>, e: nat, x: T)
    requires e < |groups|
    ensures multiset(Flatten(groups[e := groups[e] + [x]])) == multiset(Flatten(groups)) + multiset{x}
  {
    var n := |groups| - 1;
    var grown := groups[e := groups[e] + [x]];
    if e < n {
      FlattenGrows(groups[..n], e, x);
      assert grown[..n] == groups[..n][e := groups[..n][e] + [x]];
    } else {
      assert grown[..n] == groups[..n];
    }
  }

  ghost predicate EpochMapOf(cs: seq<Tx>, at: Placement, epochMap: seq<set<Key>>)
    requires |cs| == |at|
  {
    && (forall e | 0 <= e < |epochMap| :: epochMap[e] == EpochWrites(cs, at, e))
    && (forall e: nat | e >= |epochMap| :: EpochWrites(cs, at, e) == {})
  }

  lemma OneMore(cs: seq<Tx>, at: Placement, tx: Tx, epoch: nat, e: nat)
    requires |cs| == |at|
    ensures EpochWrites(cs + [tx], at + [epoch], e) == EpochWrites(cs, at, e) + if e == epoch then tx.writeKeys else {}
    ensures Members(cs + [tx], at + [epoch], e) == Members(cs, at, e) + if e == epoch then [tx] else []
  {
    assert (cs + [tx])[..|cs|] == cs && (at + [epoch])[..|at|] == at;
  }

  lemma FirstFitStep(cs: seq<Tx>, at: Placement, tx: Tx, epoch: nat)
    requires FirstFit(cs, at)
    requires tx.Keys() !! EpochWrites(cs, at, epoch)
    requires forall e: nat | e < epoch :: !(tx.Keys() !! EpochWrites(cs, at, e))
    ensures FirstFit(cs + [tx], at + [epoch])
  {
    assert (cs + [tx])[..|cs|] == cs && (at + [epoch])[..|at|] == at;
  }

  lemma FirstFitGrows(cs: seq<Tx>, at: Placement, tx: Tx, epoch: nat, epochMap: seq<set<Key>>)
    requires FirstFit(cs, at) && EpochMapOf(cs, at, epochMap) && Fits(tx, epochMap, epoch)
    ensures FirstFit(cs + [tx], at + [epoch])
  {
    forall e: nat | e < epoch ensures !(tx.Keys() !! EpochWrites(cs, at, e)) {
      assert epochMap[e] == EpochWrites(cs, at, e);
    }
    FirstFitStep(cs, at, tx, epoch);
  }

  lemma EpochMapGrows(cs: seq<Tx>, at: Placement, tx: Tx, epoch: nat, epochMap: seq<set<Key>>, grown: seq<set<Key>>)
    requires |cs| == |at| && EpochMapOf(cs, at, epochMap) && epoch <= |epochMap| <= |grown|
    requires forall e: nat | e < |epochMap| && e != epoch :: grown[e] == epochMap[e]
    requires epoch < |grown| && |grown| <= |epochMap| + 1 && (|grown| == |epochMap| + 1 ==> epoch == |epochMap|)
    requires grown[epoch] == if epoch < |epochMap| then epochMap[epoch] + tx.writeKeys else tx.writeKeys
    ensures EpochMapOf(cs + [tx], at + [epoch], grown)
  {
    hide EpochWrites;
    forall e: nat
      ensures e < |grown| ==> grown[e] == EpochWrites(cs + [tx], at + [epoch], e)
      ensures e >= |grown| ==> EpochWrites(cs + [tx], at + [epoch], e) == {}
    {
      OneMore(cs, at, tx, epoch, e);
    }
  }

  lemma GroupsGrow(cs: seq<Tx>, at: Placement, tx: Tx, epoch: nat, schedule: seq<seq<Tx>>, grown: seq<seq<Tx>>)
    requires Groups(cs, at, schedule) && epoch <= |schedule| <= |grown|
    requires forall e: nat | e < |schedule| && e != epoch :: grown[e] == schedule[e]
    requires epoch < |grown| && |grown| <= |schedule| + 1 && (|grown| == |schedule| + 1 ==> epoch == |schedule|)
    requires grown[epoch] == if epoch < |schedule| then schedule[epoch] + [tx] else [tx]
    ensures Groups(cs + [tx], at + [epoch], grown)
  {
    if epoch == |schedule| { NoMembers(cs, at, epoch); }
    hide Members;
    forall e: nat | e < |grown|
      ensures grown[e] == Members(cs + [tx], at + [epoch], e) && grown[e] != []
    {
      OneMore(cs, at, tx, epoch, e);
    }
  }

  lemma {:induction false} NoMembers(cs: seq<Tx>, at: Placement, e: nat)
    requires |cs| == |at| && forall i | 0 <= i < |at| :: at[i] < e
    ensures Members(cs, at, e) == []
  {
    if cs != [] { NoMembers(cs[..|cs| - 1], at[..|cs| - 1], e); }
  }

  ghost predicate PlaceInv(cs: seq<Tx>, at: Placement, schedule: seq<seq<Tx>>, epochMap: seq<set<Key>>) {
    && |epochMap| == |schedule|
    && FirstFit(cs, at) && Groups(cs, at, schedule) && EpochMapOf(cs, at, epochMap)
    && multiset(Flatten(schedule)) == multiset(cs)
  }

  lemma Joins(cs: seq<Tx>, at: Placement, schedule: seq<seq<Tx>>, epochMap: seq<set<Key>>, tx: Tx, epoch: nat)
    requires PlaceInv(cs, at, schedule, epochMap) && Fits(tx, epochMap, epoch) && epoch < |epochMap|
    ensures PlaceInv(cs + [tx], at + [epoch], schedule[epoch := schedule[epoch] + [tx]],
                     epochMap[epoch := epochMap[epoch] + tx.writeKeys])
  {
    hide EpochWrites, Members, FirstFit, Flatten, Groups, EpochMapOf, Fits;
    FirstFitGrows(cs, at, tx, epoch, epochMap);
    EpochMapGrows(cs, at, tx, epoch, epochMap, epochMap[epoch := epochMap[epoch] + tx.writeKeys]);
    GroupsGrow(cs, at, tx, epoch, schedule, schedule[epoch := schedule[epoch] + [tx]]);
    FlattenGrows(schedule, epoch, tx);
  }

  lemma Opens(cs: seq<Tx>, at: Placement, schedule: seq<seq<Tx>>, epochMap: seq<set<Key>>, tx: Tx, epoch: nat)
    requires PlaceInv(cs, at, schedule, epochMap) && Fits(tx, epochMap, epoch) && epoch == |epochMap|
    ensures PlaceInv(cs + [tx], at + [epoch], schedule + [[tx]], epochMap + [tx.writeKeys])
  {
    var grown := schedule + [[tx]];
    assert grown[..|schedule|] == schedule;
    assert Flatten(grown) == Flatten(schedule) + [tx];
    hide EpochWrites, Members, FirstFit, Flatten, Groups, EpochMapOf, Fits;
    FirstFitGrows(cs, at, tx, epoch, epochMap);
    EpochMapGrows(cs, at, tx, epoch, epochMap, epochMap + [tx.writeKeys]);
    GroupsGrow(cs, at, tx, epoch, schedule, grown);
  }

  lemma PlaceStarts(cs: seq<Tx>, at: Placement, schedule: seq<seq<Tx>>, epochMap: seq<set<Key>>)
    requires cs == [] && at == [] && schedule == [] && epochMap == []
    ensures PlaceInv(cs, at, schedule, epochMap)
  {
  }

  lemma PlaceEnds(cs: seq<Tx>, at: Placement, schedule: seq<seq<Tx>>, epochMap: seq<set<Key>>)
    requires PlaceInv(cs, at, schedule, epochMap)
    ensures FirstFit(cs, at) && Groups(cs, at, schedule) && multiset(Flatten(schedule)) == multiset(cs)
  {
  }

  /** `place_into_epochs`; the loop over aborted transactions is the same. */
  method PlaceIntoEpochs(cs: seq<Tx>) returns (schedule: seq<seq<Tx>>, ghost at: Placement)
    ensures FirstFit(cs, at) && Groups(cs, at, schedule)
    ensures multiset(Flatten(schedule)) == multiset(cs)
  {
    hide PlaceInv, FirstFit, Groups, EpochMapOf, EpochWrites, Members, Flatten, Fits;
    var epochMap: seq<set<Key>> := [];
    schedule, at := [], [];
    PlaceStarts(cs[..0], at, schedule, epochMap);
    for i := 0 to |cs|
      invariant |epochMap| == |schedule|
      invariant PlaceInv(cs[..i], at, schedule, epochMap)
    {
      var tx := cs[i];
      var epoch := FindMinimumEpoch(tx, epochMap);
      assert cs[..i + 1] == cs[..i] + [tx];
      if epoch < |epochMap| {
        Joins(cs[..i], at, schedule, epochMap, tx, epoch);
        epochMap := epochMap[epoch := epochMap[epoch] + tx.writeKeys];
        schedule := schedule[epoch := schedule[epoch] + [tx]];
      } else {
        Opens(cs[..i], at, schedule, epochMap, tx, epoch);
        epochMap := epochMap + [tx.writeKeys];
        schedule := schedule + [[tx]];
      }
      at := at + [epoch];
    }
    assert cs[..|cs|] == cs;
    PlaceEnds(cs, at, schedule, epochMap);
  }

  // ----- what first fit does not give

  /** A reader and a later writer of the same key share an epoch: only writes are looked up. */
  lemma ReaderSharesWithLaterWriter(reader: Tx, writer: Tx)
    requires reader.writeKeys == {} && reader.readKeys == {1} && writer.writeKeys == {1}
    ensures FirstFit([reader, writer], [0, 0])
  {
    assert [reader, writer][..1] == [reader] && [0, 0][..1] == [0];
    assert [reader][..0] == [] && [0][..0] == [];
  }

  ghost predicate Conflict(a: Tx, b: Tx) {
    !(a.writeKeys !! b.Keys()) || !(a.Keys() !! b.writeKeys)
  }

  lemma {:induction false} WritesOfMember(cs: seq<Tx>, at: Placement, i: nat)
    requires |cs| == |at| && i < |cs|
    ensures cs[i].writeKeys <= EpochWrites(cs, at, at[i])
  {
    var n := |cs| - 1;
    if i < n { WritesOfMember(cs[..n], at[..n], i); }
  }

  /** Two candidates of one epoch conflict exactly when the earlier reads what the later writes. */
  lemma {:induction false} EpochConflictsExactly(cs: seq<Tx>, at: Placement, i: nat, j: nat)
    requires FirstFit(cs, at) && i < j < |cs| && at[i] == at[j]
    ensures Conflict(cs[i], cs[j]) <==> !(cs[i].readKeys !! cs[j].writeKeys)
  {
    var n := |cs| - 1;
    if j < n {
      EpochConflictsExactly(cs[..n], at[..n], i, j);
    } else {
      WritesOfMember(cs[..n], at[..n], i);
    }
  }

  /** The serial order is that of the schedule, not that of the candidates: the third overtakes the second, which reads
      what it writes. */
  lemma CandidatesAreReordered(a: Tx, b: Tx, c: Tx, at: Placement)
    requires a.writeKeys != {} && a.writeKeys <= b.readKeys && a.writeKeys !! c.Keys() && c.writeKeys <= b.readKeys
    requires FirstFit([a, b, c], at)
    ensures at[2] < at[1]
  {
    var none, first, second: Placement := [], [at[0]], [at[0], at[1]];
    assert [a, b, c] == [a, b] + [c] && at == second + [at[2]];
    FirstFitLast([a, b], second, c, at[2]);
    assert [a, b] == [a] + [b] && second == first + [at[1]];
    FirstFitLast([a], first, b, at[1]);
    assert [a] == [] + [a] && first == none + [at[0]];
    FirstFitLast([], none, a, at[0]);
    OneMore([], none, a, at[0], 0);
    OneMore([], none, a, at[0], at[1]);
    OneMore([a], first, b, at[1], 0);
    var k :| k in a.writeKeys;
    assert k in b.Keys() && EpochWrites([], none, 0) == {};
  }

  lemma FirstFitLast(cs: seq<Tx>, at: Placement, tx: Tx, p: nat)
    requires |cs| == |at| && FirstFit(cs + [tx], at + [p])
    ensures FirstFit(cs, at) && tx.Keys() !! EpochWrites(cs, at, p)
    ensures tx.Keys() !! EpochWrites(cs, at, 0) ==> p == 0
  {
    assert (cs + [tx])[..|cs|] == cs && (at + [p])[..|at|] == at;
  }
}
