/** What success of a read means on arbitrary remote files. Blobs that do not decode end a file silently, and nobody
    compares the digests of data files, so a read can succeed without having seen everything. */
module ArchiveCoverage {
  import opened Options
  import opened Blob
  import opened ArchivePath
  import opened Archive
  import opened ArchiveSegments
  import opened CheckpointStore
  import opened ArchiveReader
  import opened ArchiveEndToEnd

  ghost predicate HasNumber(cs: seq<Checkpoint>, n: nat) {
    exists i :: 0 <= i < |cs| && cs[i].summary.sequenceNumber == n
  }

  /** Some of the files yields a checkpoint of that number. */
  ghost predicate Yielded(env: Env, remote: Files, files: seq<FilePair>, n: nat) {
    exists k :: 0 <= k < |files| && YieldedBy(env, remote, files[k], n)
  }

  ghost predicate YieldedBy(env: Env, remote: Files, files: FilePair, n: nat) {
    Load(env, remote, files).Some? && HasNumber(Load(env, remote, files).value, n)
  }

  lemma {:induction false} NumbersInRange(cs: seq<Checkpoint>, start: nat, end: nat, n: nat)
    ensures HasNumber(InRange(cs, start, end), n) <==> start <= n < end && HasNumber(cs, n)
  {
    if cs != [] {
      var rest := InRange(cs[1..], start, end);
      NumbersInRange(cs[1..], start, end, n);
      HeadNumber(cs, n);
      if start <= cs[0].summary.sequenceNumber < end {
        var all := InRange(cs, start, end);
        assert all[0] == cs[0] && all[1..] == rest;
        HeadNumber(all, n);
      }
    }
  }

  lemma HeadNumber(cs: seq<Checkpoint>, n: nat)
    requires cs != []
    ensures HasNumber(cs, n) <==> cs[0].summary.sequenceNumber == n || HasNumber(cs[1..], n)
  {
    if i :| 0 <= i < |cs| && cs[i].summary.sequenceNumber == n {
      if i > 0 { assert cs[1..][i - 1].summary.sequenceNumber == n; }
    }
    if i :| 0 <= i < |cs[1..]| && cs[1..][i].summary.sequenceNumber == n {
      assert cs[i + 1].summary.sequenceNumber == n;
    }
  }

  lemma ReplayOneStores(env: Env, p: Progress, lo: nat, hi: nat, c: Checkpoint, n: nat)
    requires ChainStore(env, p.store, lo, hi) && ReplayOne(env, p, c).1 == Ok
    ensures n in ReplayOne(env, p, c).0.store.contents <==> n in p.store.contents || n == c.summary.sequenceNumber
  {
    GetOrInsertKeepsChain(env, p.store, lo, hi, c.summary);
    hide VerifyCheckpoint;
    var st := GetOrInsert(env, p.store, c.summary).0;
    assert st.checkpoints[c.summary.sequenceNumber].sequenceNumber == c.summary.sequenceNumber;
    assert st.contents == p.store.contents;
  }

  /** A replay that succeeds stores the contents of exactly what it was given. */
  lemma {:induction false} ReplayStores(env: Env, p: Progress, lo: nat, hi: nat, cs: seq<Checkpoint>, n: nat)
    requires ChainStore(env, p.store, lo, hi) && Replay(env, p, cs).1 == Ok
    ensures n in Replay(env, p, cs).0.store.contents <==> n in p.store.contents || HasNumber(cs, n)
    decreases |cs|
  {
    hide ChainStore, ReplayOne;
    if cs != [] {
      var r := ReplayOne(env, p, cs[0]);
      ReplayOneStores(env, p, lo, hi, cs[0], n);
      ReplayOneKeepsChain(env, p, lo, hi, cs[0]);
      var hi' := if ChainStore(env, r.0.store, lo, hi) then hi else hi + 1;
      ReplayStores(env, r.0, lo, hi', cs[1..], n);
      HeadNumber(cs, n);
    }
  }

  lemma HeadYields(env: Env, remote: Files, files: seq<FilePair>, n: nat)
    requires files != []
    ensures Yielded(env, remote, files, n) <==>
            YieldedBy(env, remote, files[0], n) || Yielded(env, remote, files[1..], n)
  {
    hide YieldedBy;
    if k :| 0 <= k < |files| && YieldedBy(env, remote, files[k], n) {
      if k > 0 { assert files[1..][k - 1] == files[k]; }
    }
    if k :| 0 <= k < |files[1..]| && YieldedBy(env, remote, files[1..][k], n) { assert files[1..][k] == files[k + 1]; }
  }

  /** After a read that succeeds the store has contents for exactly what it had before and what the files yield in
      range, however corrupt the files. */
  lemma {:induction false} ReadStores(
    env: Env, p: Progress, remote: Files, files: seq<FilePair>, start: nat, end: nat, lo: nat, hi: nat, n: nat)
    requires ChainStore(env, p.store, lo, hi) && ReadFiles(env, p, remote, files, start, end).1 == Ok
    ensures n in ReadFiles(env, p, remote, files, start, end).0.store.contents <==>
            n in p.store.contents || (start <= n < end && Yielded(env, remote, files, n))
    decreases |files|
  {
    hide ChainStore, Replay, Load, InRange;
    if files != [] {
      var all := Load(env, remote, files[0]).value;
      var cs := InRange(all, start, end);
      var r := Replay(env, p, cs);
      ReplayStores(env, p, lo, hi, cs, n);
      NumbersInRange(all, start, end, n);
      var hi' := ReplayKeepsChain(env, p, lo, hi, cs);
      ReadStores(env, r.0, remote, files[1..], start, end, lo, hi', n);
      HeadYields(env, remote, files, n);
    }
  }

  ghost predicate AllLoad(env: Env, remote: Files, files: seq<FilePair>) {
    forall k | 0 <= k < |files| :: Load(env, remote, files[k]).Some?
  }

  /** Everything the files yield, file after file. */
  ghost function Contained(env: Env, remote: Files, files: seq<FilePair>): seq<Checkpoint>
    requires AllLoad(env, remote, files)
  {
    if files == [] then [] else
      assert forall k | 0 < k < |files| :: files[1..][k - 1] == files[k];
      Load(env, remote, files[0]).value + Contained(env, remote, files[1..])
  }

  lemma {:induction false} InRangeConcat(a: seq<Checkpoint>, b: seq<Checkpoint>, start: nat, end: nat)
    ensures InRange(a + b, start, end) == InRange(a, start, end) + InRange(b, start, end)
  {
    if a == [] {
      assert a + b == b;
    } else {
      assert (a + b)[0] == a[0] && (a + b)[1..] == a[1..] + b;
      InRangeConcat(a[1..], b, start, end);
    }
  }

  lemma LoadRest(env: Env, remote: Files, files: seq<FilePair>)
    requires files != []
    ensures AllLoad(env, remote, files) <==> Load(env, remote, files[0]).Some? && AllLoad(env, remote, files[1..])
  {
    hide Load;
    assert forall k | 0 < k < |files| :: files[1..][k - 1] == files[k];
    if Load(env, remote, files[0]).Some? && AllLoad(env, remote, files[1..]) {
      forall k | 0 <= k < |files| ensures Load(env, remote, files[k]).Some? {
        if k > 0 { assert Load(env, remote, files[1..][k - 1]).Some?; }
      }
    }
  }

  /** If every file loads, a read is the replay of what they all contain in range; if one does not, it does not
      succeed. */
  lemma {:induction false} ReadExactly(env: Env, p: Progress, remote: Files, files: seq<FilePair>, start: nat, end: nat)
    ensures AllLoad(env, remote, files) ==>
              ReadFiles(env, p, remote, files, start, end)
              == Replay(env, p, InRange(Contained(env, remote, files), start, end))
    ensures !AllLoad(env, remote, files) ==> ReadFiles(env, p, remote, files, start, end).1 != Ok
    decreases |files|
  {
    hide Load, Replay, InRange, AllLoad;
    if files == [] {
      NothingContained(env, p, remote, start, end);
    } else {
      LoadRest(env, remote, files);
      if Load(env, remote, files[0]).Some? {
        var all := Load(env, remote, files[0]).value;
        var here := InRange(all, start, end);
        var r := Replay(env, p, here);
        ReadExactly(env, r.0, remote, files[1..], start, end);
        if AllLoad(env, remote, files) {
          var rest := Contained(env, remote, files[1..]);
          InRangeConcat(all, rest, start, end);
          ReplayConcat(env, p, here, InRange(rest, start, end));
        }
      }
    }
  }

  lemma NothingContained(env: Env, p: Progress, remote: Files, start: nat, end: nat)
    ensures AllLoad(env, remote, []) && Replay(env, p, InRange(Contained(env, remote, []), start, end)) == (p, Ok)
  {
  }

  ghost predicate HoldsRange(st: Store, start: nat, stop: nat) {
    forall n: nat | start <= n < stop :: n in st.contents
  }

  /** Success means the whole range exactly when each number that was missing is yielded by one of the files read. */
  lemma OkMeansAllExactly(
    env: Env, p: Progress, remote: Files, files: seq<FilePair>, start: nat, end: nat, stop: nat, lo: nat, hi: nat)
    requires ChainStore(env, p.store, lo, hi) && ReadFiles(env, p, remote, files, start, end).1 == Ok && stop <= end
    ensures HoldsRange(ReadFiles(env, p, remote, files, start, end).0.store, start, stop) <==>
            forall n: nat | start <= n < stop && n !in p.store.contents :: Yielded(env, remote, files, n)
  {
    hide ChainStore, ReadFiles, Yielded;
    forall n: nat
      ensures n in ReadFiles(env, p, remote, files, start, end).0.store.contents <==>
              n in p.store.contents || (start <= n < end && Yielded(env, remote, files, n))
    {
      ReadStores(env, p, remote, files, start, end, lo, hi, n);
    }
  }

  /** A summary file that ends early: the read of `a..b` succeeds, and everything from `k` on is missing. */
  lemma ShortFileAccepted(
    env: Env, chain: seq<Checkpoint>, committees: seq<Committee>, p: Progress, remote: Files, files: FilePair,
    lo: nat, a: nat, k: nat, b: nat)
    requires Sound(env) && Encodable(env, chain) && PublishedChain(env, chain, committees)
    requires Tracks(env, chain, committees, p.store, lo, a) && a <= k < b <= |chain|
    requires files.0.Path() in remote && files.1.Path() in remote
    requires remote[files.0.Path()] == FinishedFile(env, SUMMARY_FILE_MAGIC, env.summaries, Summaries(chain[a..k]))
    requires remote[files.1.Path()] == FinishedFile(env, CHECKPOINT_FILE_MAGIC, env.contents, ContentsOf(chain[a..b]))
    ensures var (p', status) := ReadFiles(env, p, remote, [files], a, b);
            && status == Ok && p'.checkpoints == p.checkpoints + (k - a)
            && Tracks(env, chain, committees, p'.store, lo, k)
            && p'.store.contents == p.store.contents + ContentsRange(chain, a, k)
  {
    ShortLoad(env, chain, remote, files, a, k, b);
    assert forall i | 0 <= i < |chain| :: chain[i].summary.sequenceNumber == i by {
      forall i | 0 <= i < |chain| ensures chain[i].summary.sequenceNumber == i {
        assert PublishedAt(env, chain, committees, i);
      }
    }
    hide Load, Replay, Tracks, PublishedChain, Encodable, ContentsRange;
    TracksBound(env, chain, committees, p.store, lo, a);
    InRangeClips(chain, a, k, a, b);
    assert Clip(chain, a, k, a, b) == chain[a..k];
    ReplayPublished(env, chain, committees, p, lo, a, a, k);
    ReadOne(env, p, remote, files, a, b);
  }

  lemma ReadOne(env: Env, p: Progress, remote: Files, files: FilePair, start: nat, end: nat)
    requires Load(env, remote, files).Some?
    ensures ReadFiles(env, p, remote, [files], start, end) ==
            Replay(env, p, InRange(Load(env, remote, files).value, start, end))
  {
    hide Load, Replay, InRange;
    var r := Replay(env, p, InRange(Load(env, remote, files).value, start, end));
    assert ReadFiles(env, r.0, remote, [files][1..], start, end) == (r.0, Ok);
  }

  lemma ShortLoad(env: Env, chain: seq<Checkpoint>, remote: Files, files: FilePair, a: nat, k: nat, b: nat)
    requires Sound(env) && Encodable(env, chain) && a <= k < b <= |chain|
    requires files.0.Path() in remote && files.1.Path() in remote
    requires remote[files.0.Path()] == FinishedFile(env, SUMMARY_FILE_MAGIC, env.summaries, Summaries(chain[a..k]))
    requires remote[files.1.Path()] == FinishedFile(env, CHECKPOINT_FILE_MAGIC, env.contents, ContentsOf(chain[a..b]))
    ensures Load(env, remote, files) == Some(chain[a..k])
  {
    hide Encodable, Fits;
    PartFits(env, chain, a, k);
    PartFits(env, chain, a, b);
    FinishedFileRoundTrip(env, SUMMARY_FILE_MAGIC, env.summaries, Summaries(chain[a..k]));
    FinishedFileRoundTrip(env, CHECKPOINT_FILE_MAGIC, env.contents, ContentsOf(chain[a..b]));
    assert Checkpoints(Summaries(chain[a..k]), ContentsOf(chain[a..b])) == chain[a..k];
  }
}
