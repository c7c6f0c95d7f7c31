/** Reading back what the archive protocol wrote, and what any read does to a store. */
module ArchiveEndToEnd {
  import opened Options
  import opened Blob
  import opened ArchivePath
  import opened Archive
  import opened ArchiveSegments
  import opened CheckpointStore
  import opened ArchiveReader
  import opened Words
  import W = ArchiveWriter
  import P = ArchiveProtocol
  import S = ArchiveSafety

  // ----- any archive, however corrupt

  /** A read of arbitrary files from an arbitrary remote store, even one that fails or panics part-way, leaves the
      store a gap-free verified chain with matching contents, and loses nothing. */
  lemma {:induction false} ReadKeepsChain(env: Env, p: Progress, remote: Files, files: seq<FilePair>, start: nat,
      end: nat, lo: nat, hi: nat)
    returns (hi': nat)
    requires ChainStore(env, p.store, lo, hi)
    ensures var st' := ReadFiles(env, p, remote, files, start, end).0.store;
            && hi <= hi' && ChainStore(env, st', lo, hi') && Extends(p.store, st')
            && st'.verified == (if hi < hi' then Some(hi' - 1) else p.store.verified)
    decreases |files|
  {
    hide ChainStore, Replay, Load;
    hi' := hi;
    if files != [] && Load(env, remote, files[0]).Some? {
      var cs := InRange(Load(env, remote, files[0]).value, start, end);
      var r := Replay(env, p, cs);
      hi' := ReplayKeepsChain(env, p, lo, hi, cs);
      if r.1 == Ok {
        hi' := ReadKeepsChain(env, r.0, remote, files[1..], start, end, lo, hi');
      }
    }
  }

  // ----- an archive the protocol wrote

  function MetasOf(env: Env, chain: seq<Checkpoint>, gs: seq<Segment>, t: FileType): (r: seq<FileMetadata>)
    requires forall g <- gs :: g.start <= g.end <= |chain|
    ensures |r| == |gs| && forall k | 0 <= k < |gs| :: r[k] == MetaOf(env, chain, gs[k], t)
  {
    seq(|gs|, k requires 0 <= k < |gs| => MetaOf(env, chain, gs[k], t))
  }

  lemma SegmentsInChain(env: Env, chain: seq<Checkpoint>, gs: seq<Segment>)
    requires ValidSegments(env, chain, gs)
    ensures forall g <- gs :: g.start <= g.end <= |chain|
  {
    forall g | g in gs ensures g.start <= g.end <= |chain| {
      var k :| 0 <= k < |gs| && gs[k] == g;
      assert TiledAt(env, chain, gs, k);
    }
  }

  /** Filtering the listed files by type gives one file per segment, in order. */
  lemma {:induction false} FilesOfType(env: Env, chain: seq<Checkpoint>, gs: seq<Segment>, t: FileType)
    requires ValidSegments(env, chain, gs) && forall g <- gs :: g.start <= g.end <= |chain|
    ensures OfType(ManifestOf(env, chain, gs).files, t) == MetasOf(env, chain, gs, t)
  {
    hide FileOf;
    if gs != [] {
      var init := gs[..|gs| - 1];
      PrefixValid(env, chain, gs, |gs| - 1);
      FilesOfType(env, chain, init, t);
      var files, g := ManifestOf(env, chain, init).files, gs[|gs| - 1];
      var c, s := MetaOf(env, chain, g, CheckpointContent), MetaOf(env, chain, g, CheckpointSummary);
      var all := ManifestOf(env, chain, gs).files;
      assert all == files + [c, s];
      assert all[..|all| - 1] == files + [c] && (files + [c])[..|files|] == files;
    }
  }

  lemma MetasOrdered(env: Env, chain: seq<Checkpoint>, gs: seq<Segment>, t: FileType)
    requires ValidSegments(env, chain, gs) && forall g <- gs :: g.start <= g.end <= |chain|
    ensures SortedByStart(MetasOf(env, chain, gs, t)) && Contiguous(MetasOf(env, chain, gs, t))
  {
    hide FileOf;
    var ms := MetasOf(env, chain, gs, t);
    forall i, j | 0 <= i < j < |ms|
      ensures ms[i].start <= ms[j].start
    {
      StartsIncrease(env, chain, gs, i, j);
    }
    forall i | 1 <= i < |ms|
      ensures ms[i].start == ms[i - 1].end
    {
      assert TiledAt(env, chain, gs, i);
    }
  }

  /** A manifest whose files of each type are sorted, contiguous from 0 and of equal ranges passes all checks. */
  lemma PlanPasses(m: Manifest, start: nat, s: seq<FileMetadata>, c: seq<FileMetadata>)
    requires start < m.next && m.files != []
    requires OfType(m.files, CheckpointSummary) == s && OfType(m.files, CheckpointContent) == c
    requires SortedByStart(s) && SortedByStart(c) && Contiguous(s) && Contiguous(c)
    requires |s| == |c| > 0 && SameRanges(s, c) && s[0].start == 0
    ensures PlanRead(m, start) == (Zip(s, c), Ok)
  {
    hide OfType, SortByStart, SortedByStart, Contiguous;
    SortKeepsSorted(s);
    SortKeepsSorted(c);
  }

  /** On every manifest the writer can produce, all assertions of `read` hold, and it pairs up the files of each
      segment. */
  lemma PlanOfArchive(env: Env, chain: seq<Checkpoint>, gs: seq<Segment>, start: nat)
    requires ValidSegments(env, chain, gs) && start < NextOf(gs)
    ensures var (files, status) := PlanRead(ManifestOf(env, chain, gs), start);
            && status == Ok && |files| == |gs|
            && forall k | 0 <= k < |gs| :: PairOf(env, chain, files[k], gs[k])
  {
    hide FileOf, ManifestOf, PlanRead, OfType, SortByStart, SortedByStart, Contiguous;
    SegmentsInChain(env, chain, gs);
    var s, c := MetasOf(env, chain, gs, CheckpointSummary), MetasOf(env, chain, gs, CheckpointContent);
    FilesOfType(env, chain, gs, CheckpointSummary);
    FilesOfType(env, chain, gs, CheckpointContent);
    MetasOrdered(env, chain, gs, CheckpointSummary);
    MetasOrdered(env, chain, gs, CheckpointContent);
    ManifestFields(env, chain, gs);
    ManifestFiles(env, chain, gs, 0);
    assert TiledAt(env, chain, gs, 0);
    PlanPasses(ManifestOf(env, chain, gs), start, s, c);
    forall k | 0 <= k < |gs|
      ensures PairOf(env, chain, Zip(s, c)[k], gs[k])
    {
      assert TiledAt(env, chain, gs, k);
    }
  }

  ghost predicate PairOf(env: Env, chain: seq<Checkpoint>, files: FilePair, g: Segment) {
    && g.start < g.end <= |chain|
    && files == (MetaOf(env, chain, g, CheckpointSummary), MetaOf(env, chain, g, CheckpointContent))
  }

  /** The two searches are exact: the first file is the only one whose range contains `start`, and the last index counts
      exactly the files that start before `end`. */
  lemma SearchesExact(env: Env, chain: seq<Checkpoint>, gs: seq<Segment>, files: seq<FilePair>, start: nat, end: nat,
      first: nat, last: nat)
    requires ValidSegments(env, chain, gs) && |files| == |gs| && start < NextOf(gs)
    requires forall k | 0 <= k < |gs| :: PairOf(env, chain, files[k], gs[k])
    requires StartsAt(files, start, first) && EndsAt(files, end, last)
    ensures first < |gs| && last <= |gs|
    ensures forall k | 0 <= k < |gs| :: gs[k].start <= start < gs[k].end <==> k == first
    ensures forall k | 0 <= k < |gs| :: gs[k].start < end <==> k < last
  {
    hide FileOf, ValidSegment;
    assert forall k | 0 <= k < |gs| :: files[k].0.start == gs[k].start;
    forall k | 0 <= k < |gs|
      ensures k < first ==> gs[k].end <= start
      ensures k == first ==> gs[k].start <= start < gs[k].end
      ensures k > first ==> start < gs[k].start
    {
      if k < first { StartsIncrease(env, chain, gs, k, first); }
      if first < k { StartsIncrease(env, chain, gs, first, k); }
      if k == first && k + 1 < |gs| {
        assert TiledAt(env, chain, gs, k + 1);
        StartsIncrease(env, chain, gs, k, k + 1);
      }
    }
    forall k | 0 <= k < |gs|
      ensures gs[k].start < end <==> k < last
    {
      if k < last < |gs| { StartsIncrease(env, chain, gs, k, last); }
      if last < k { StartsIncrease(env, chain, gs, last, k); }
    }
  }

  lemma LoadOfArchive(env: Env, chain: seq<Checkpoint>, remote: Files, g: Segment, files: FilePair)
    requires Sound(env) && Encodable(env, chain) && ValidSegment(env, chain, g) && W.Holds(env, chain, remote, g)
    requires PairOf(env, chain, files, g)
    ensures Load(env, remote, files) == Some(chain[g.start..g.end])
  {
    hide Encodable, Fits;
    var part := chain[g.start..g.end];
    PartFits(env, chain, g.start, g.end);
    FinishedFileRoundTrip(env, CHECKPOINT_FILE_MAGIC, env.contents, ContentsOf(part));
    FinishedFileRoundTrip(env, SUMMARY_FILE_MAGIC, env.summaries, Summaries(part));
    assert Checkpoints(Summaries(part), ContentsOf(part)) == part;
  }

  function Clip(chain: seq<Checkpoint>, a: nat, b: nat, start: nat, end: nat): seq<Checkpoint>
    requires b <= |chain|
  {
    Slice(chain, if a < start then start else a, if end < b then end else b)
  }

  lemma {:induction false} InRangeClips(chain: seq<Checkpoint>, a: nat, b: nat, start: nat, end: nat)
    requires a <= b <= |chain| && forall i | 0 <= i < |chain| :: chain[i].summary.sequenceNumber == i
    ensures InRange(chain[a..b], start, end) == Clip(chain, a, b, start, end)
    decreases b - a
  {
    if a < b {
      assert chain[a..b][0] == chain[a] && chain[a..b][1..] == chain[a + 1..b];
      InRangeClips(chain, a + 1, b, start, end);
    }
  }

  /** All files of segments `i..j` together replay one stretch of the chain. */
  lemma {:induction false} ReadOfArchive(
    env: Env, chain: seq<Checkpoint>, remote: Files, gs: seq<Segment>, files: seq<FilePair>, p: Progress, i: nat,
        j: nat, start: nat, end: nat)
    requires Sound(env) && Encodable(env, chain) && ValidSegments(env, chain, gs) && |files| == |gs| && i < j <= |gs|
    requires forall k | 0 <= k < |chain| :: chain[k].summary.sequenceNumber == k
    requires forall k | 0 <= k < |gs| :: PairOf(env, chain, files[k], gs[k])
    requires forall k | 0 <= k < |gs| :: P.ArchivedAt(env, chain, remote, gs, k)
    ensures gs[i].start < gs[j - 1].end <= |chain|
    ensures ReadFiles(env, p, remote, files[i..j], start, end)
        == Replay(env, p, Clip(chain, gs[i].start, gs[j - 1].end, start, end))
    decreases j - i
  {
    hide Replay, Load, FileOf, W.Holds, Encodable;
    assert P.ArchivedAt(env, chain, remote, gs, i) && TiledAt(env, chain, gs, i) && PairOf(env, chain, files[i], gs[i]);
    assert files[i..j][0] == files[i] && files[i..j][1..] == files[i + 1..j];
    LoadOfArchive(env, chain, remote, gs[i], files[i]);
    InRangeClips(chain, gs[i].start, gs[i].end, start, end);
    var here := Clip(chain, gs[i].start, gs[i].end, start, end);
    var r := Replay(env, p, here);
    if i + 1 < j {
      assert TiledAt(env, chain, gs, i + 1);
      ReadOfArchive(env, chain, remote, gs, files, r.0, i + 1, j, start, end);
      var rest := Clip(chain, gs[i + 1].start, gs[j - 1].end, start, end);
      ReplayConcat(env, p, here, rest);
      ClipJoins(chain, gs[i].start, gs[i].end, gs[j - 1].end, start, end);
    }
  }

  lemma ClipJoins(chain: seq<Checkpoint>, a: nat, b: nat, c: nat, start: nat, end: nat)
    requires a <= b <= c <= |chain|
    ensures Clip(chain, a, b, start, end) + Clip(chain, b, c, start, end) == Clip(chain, a, c, start, end)
  {
  }

  // ----- theorems

  /** The slice of checkpoints `read` owes its caller. */
  function Requested(chain: seq<Checkpoint>, next: nat, start: nat, end: nat): seq<Checkpoint>
    requires next <= |chain|
  {
    Slice(chain, start, if end < next then end else next)
  }

  lemma ReplayNothing(env: Env, p: Progress)
    ensures Replay(env, p, []) == (p, Ok)
  {
  }

  /** Reading an archived list of segments replays exactly the requested checkpoints below the manifest's next one. */
  lemma ReadArchived(
    env: Env, chain: seq<Checkpoint>, remote: Files, gs: seq<Segment>, p: Progress, start: nat, end: nat, first: nat,
        last: nat)
    requires Sound(env) && ValidChain(env, chain) && ValidSegments(env, chain, gs) && start < NextOf(gs)
    requires forall k | 0 <= k < |gs| :: P.ArchivedAt(env, chain, remote, gs, k)
    requires var files := PlanRead(ManifestOf(env, chain, gs), start).0;
             StartsAt(files, start, first) && EndsAt(files, end, last)
    ensures PlanRead(ManifestOf(env, chain, gs), start).1 == Ok && NextOf(gs) <= |chain|
    ensures var files := PlanRead(ManifestOf(env, chain, gs), start).0;
            ReadFiles(env, p, remote, Slice(files, first, last), start, end)
                == Replay(env, p, Requested(chain, NextOf(gs), start, end))
  {
    hide PlanRead, Replay, FileOf, ManifestOf, StartsAt, EndsAt, PairOf, Encodable;
    var files := PlanRead(ManifestOf(env, chain, gs), start).0;
    PlanOfArchive(env, chain, gs, start);
    SearchesExact(env, chain, gs, files, start, end, first, last);
    ManifestFields(env, chain, gs);
    forall k | 0 <= k < |chain|
      ensures chain[k].summary.sequenceNumber == k
    {
      assert ValidCheckpoint(env, chain, k);
    }
    if first < last {
      ReadOfArchive(env, chain, remote, gs, files, p, first, last, start, end);
      assert gs[first].start <= start;
      assert TiledAt(env, chain, gs, |gs| - 1);
      if last < |gs| { assert TiledAt(env, chain, gs, last); }
    } else {
      assert end <= gs[first].start <= start;
      assert Requested(chain, NextOf(gs), start, end) == [];
      ReplayNothing(env, p);
    }
  }

  /** End to end. Take the manifest of any reachable state, and the remote store of any later state (uploads, crashes
      and restarts may have happened since). Reading any range that starts at or below the latest listed checkpoint
      replays exactly the checkpoints of the range below the manifest's next number: each once, ascending, each
      summary with its own contents. All assertions of `read` hold. */
  lemma EndToEndRead(
    env: Env, chain: seq<Checkpoint>, s: P.System, es: seq<P.Event>, p: Progress, start: nat, end: nat, first: nat,
        last: nat)
    requires Sound(env) && ValidChain(env, chain) && P.Reachable(env, chain, s)
    requires P.Run(env, chain, s, es).Some? && S.RemoteManifest(env, s.remote).Some?
    requires var m := S.RemoteManifest(env, s.remote).value;
             && start < m.next
             && StartsAt(PlanRead(m, start).0, start, first) && EndsAt(PlanRead(m, start).0, end, last)
    ensures var (m, remote) := (S.RemoteManifest(env, s.remote).value, P.Run(env, chain, s, es).value.remote);
            && m.next <= |chain|
            && PlanRead(m, start).1 == Ok
            && ReadFiles(env, p, remote, Slice(PlanRead(m, start).0, first, last), start, end)
               == Replay(env, p, Requested(chain, m.next, start, end))
  {
    hide PlanRead, Replay, FileOf, StartsAt, EndsAt, P.Reachable, P.Run, Load, Encodable;
    var gs, n := S.ReachableInv(env, chain, s);
    var gs', n' := S.RunKeeps(env, chain, s, es, gs, n);
    var remote := P.Run(env, chain, s, es).value.remote;
    var listed := gs[..n];
    S.ArchivedComplete(env, chain, s.remote, listed);
    ManifestFields(env, chain, listed);
    forall k | 0 <= k < |listed|
      ensures P.ArchivedAt(env, chain, remote, listed, k)
    {
      assert P.ArchivedAt(env, chain, remote, gs'[..n'], k) && gs'[..n'][k] == listed[k];
      assert TiledAt(env, chain, listed, k);
    }
    ReadArchived(env, chain, remote, listed, p, start, end, first, last);
  }

  /** Into a store that holds part of the published chain up to the start of the range (or beyond), that read
      succeeds: the store then holds the whole range with its contents, everything it held before, and the counter
      moved by the range. */
  lemma EndToEndSucceeds(
    env: Env, chain: seq<Checkpoint>, committees: seq<Committee>, s: P.System, es: seq<P.Event>, p: Progress,
    lo: nat, hi: nat, start: nat, end: nat, first: nat, last: nat)
    requires Sound(env) && ValidChain(env, chain) && P.Reachable(env, chain, s)
    requires P.Run(env, chain, s, es).Some? && S.RemoteManifest(env, s.remote).Some?
    requires var m := S.RemoteManifest(env, s.remote).value;
             && start < m.next && start <= end
             && StartsAt(PlanRead(m, start).0, start, first) && EndsAt(PlanRead(m, start).0, end, last)
    requires PublishedChain(env, chain, committees) && Tracks(env, chain, committees, p.store, lo, hi)
        && lo <= start <= hi
    ensures var (m, remote) := (S.RemoteManifest(env, s.remote).value, P.Run(env, chain, s, es).value.remote);
            var (p', status) := ReadFiles(env, p, remote, Slice(PlanRead(m, start).0, first, last), start, end);
            var stop := if end < m.next then end else m.next;
            && stop <= |chain|
            && status == Ok && p'.checkpoints == p.checkpoints + (stop - start)
            && p'.transactions == p.transactions + Transactions(chain[start..stop])
            && Tracks(env, chain, committees, p'.store, lo, if hi < stop then stop else hi)
            && p'.store.contents == p.store.contents + ContentsRange(chain, start, stop)
            && p'.store.verified == (if hi < stop then Raise(p.store.verified, stop - 1) else p.store.verified)
            && (start < stop ==> p'.store.synced == Raise(p.store.synced, stop - 1))
  {
    hide PlanRead, Replay, StartsAt, EndsAt, P.Reachable, P.Run, Tracks, PublishedChain, ContentsRange, ReadFiles,
        Encodable;
    EndToEndRead(env, chain, s, es, p, start, end, first, last);
    var m := S.RemoteManifest(env, s.remote).value;
    var stop := if end < m.next then end else m.next;
    ReplayPublished(env, chain, committees, p, lo, hi, start, stop);
  }

  /** `read` itself, on the manifest of any reachable state and the remote store of any later one: the local store
      becomes the replay of exactly the requested checkpoints; if it held the published chain up to the start, the
      read succeeds and it holds the whole range afterwards. */
  method ReadArchive(
    env: Env, manifest: Manifest, remote: Files, store: LocalStore, start: nat, end: nat,
    ghost chain: seq<Checkpoint>, ghost committees: seq<Committee>, ghost s: P.System, ghost es: seq<P.Event>,
    ghost lo: nat, ghost hi: nat)
    returns (status: Status)
    requires Sound(env) && ValidChain(env, chain) && P.Reachable(env, chain, s) && P.Run(env, chain, s, es).Some?
    requires S.RemoteManifest(env, s.remote) == Some(manifest)
    requires remote == P.Run(env, chain, s, es).value.remote
    modifies store
    ensures start >= manifest.next ==> status == Failed && store.View() == old(store.View())
    ensures start < manifest.next ==>
              && manifest.next <= |chain|
              && (store.View(), status) == Replay(env, old(store.View()), Requested(chain, manifest.next, start, end))
    ensures PublishedChain(env, chain, committees) && Tracks(env, chain, committees, old(store.View()).store, lo, hi)
            && lo <= start <= hi && start <= end && start < manifest.next ==>
              var stop := if end < manifest.next then end else manifest.next;
              && status == Ok
              && Tracks(env, chain, committees, store.View().store, lo, if hi < stop then stop else hi)
              && store.View().store.contents == old(store.View()).store.contents + ContentsRange(chain, start, stop)
  {
    hide PlanRead, Replay, StartsAt, EndsAt, P.Reachable, P.Run, Tracks, PublishedChain, ContentsRange, ReadFiles,
        ValidChain;
    ghost var first, last;
    ghost var before := store.View();
    status, first, last := Read(env, manifest, remote, store, start, end);
    if start >= manifest.next {
      return;
    }
    PlanReachable(env, chain, s, start);
    EndToEndRead(env, chain, s, es, before, start, end, first, last);
    if PublishedChain(env, chain, committees) && Tracks(env, chain, committees, before.store, lo, hi)
        && lo <= start <= hi && start <= end
    {
      EndToEndSucceeds(env, chain, committees, s, es, before, lo, hi, start, end, first, last);
    }
  }

  lemma PlanReachable(env: Env, chain: seq<Checkpoint>, s: P.System, start: nat)
    requires Sound(env) && ValidChain(env, chain) && P.Reachable(env, chain, s) && S.RemoteManifest(env, s.remote).Some?
    requires start < S.RemoteManifest(env, s.remote).value.next
    ensures PlanRead(S.RemoteManifest(env, s.remote).value, start).1 == Ok
  {
    hide PlanRead, FileOf, P.Reachable, Encodable;
    var gs, n := S.ReachableInv(env, chain, s);
    S.ArchivedComplete(env, chain, s.remote, gs[..n]);
    ManifestFields(env, chain, gs[..n]);
    PlanOfArchive(env, chain, gs[..n], start);
  }

  /** The sequence numbers that the files decode to are 64-bit numbers. */
  ghost predicate Loads64(env: Env, remote: Files, files: seq<FilePair>) {
    forall k | 0 <= k < |files| && Load(env, remote, files[k]).Some? ::
      forall i | 0 <= i < |Load(env, remote, files[k]).value| ::
        Load(env, remote, files[k]).value[i].summary.sequenceNumber <= U64_MAX
  }

  lemma {:induction false} InRangeFrom(cs: seq<Checkpoint>, start: nat, end: nat, bound: nat)
    requires forall i | 0 <= i < |cs| :: cs[i].summary.sequenceNumber <= bound
    ensures forall i | 0 <= i < |InRange(cs, start, end)| :: InRange(cs, start, end)[i].summary.sequenceNumber <= bound
  {
    if cs != [] { InRangeFrom(cs[1..], start, end, bound); }
  }

  /** Reading arbitrary files into a verified store that knows its committees ends in success or an error, not in a
      panic. */
  lemma {:induction false} ReadNeverPanics(
    env: Env, p: Progress, remote: Files, files: seq<FilePair>, start: nat, end: nat, lo: nat, hi: nat)
    requires ChainStore(env, p.store, lo, hi) && KnowsCommittees(p.store) && Loads64(env, remote, files)
    ensures ReadFiles(env, p, remote, files, start, end).1 != Panicked
    decreases |files|
  {
    hide ChainStore, Replay, InRange, KnowsCommittees;
    if files != [] && Load(env, remote, files[0]).Some? {
      var all := Load(env, remote, files[0]).value;
      var cs := InRange(all, start, end);
      InRangeFrom(all, start, end, U64_MAX);
      ReplayNeverPanics(env, p, lo, hi, cs);
      var hi' := ReplayKeepsChain(env, p, lo, hi, cs);
      hide Load;
      var r := Replay(env, p, cs);
      if r.1 == Ok {
        forall k | 0 <= k < |files[1..]| ensures files[1..][k] == files[k + 1] { }
        ReadNeverPanics(env, r.0, remote, files[1..], start, end, lo, hi');
      }
    }
  }
}
