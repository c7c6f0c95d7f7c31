/** What every run of the archive guarantees, stated without reference to how the invariant is phrased. */
module ArchiveSafety {
  import opened Options
  import opened Words
  import opened Blob
  import opened ArchivePath
  import opened Archive
  import opened ManifestCodec
  import opened ArchiveSegments
  import opened ArchiveWriter
  import opened ArchiveProtocol

  /** The values a blob file yields, if its header is accepted. */
  function Decoded<T>(env: Env, magic: nat, codec: Codec<T>, file: Bytes): Option<seq<T>> {
    match OpenFile(env, magic, file)
    case None => None
    case Some(body) => Some(ReadAll(codec, body))
  }

  /** `c` and `s` list one non-empty range; both files are in the remote store, match their digests, and hold exactly
      the checkpoints of the range, in order and of one epoch; a content file over the commit size holds one
      checkpoint. */
  ghost predicate CompletePair(env: Env, chain: seq<Checkpoint>, remote: Files, c: FileMetadata, s: FileMetadata) {
    && c.fileType == CheckpointContent && s.fileType == CheckpointSummary
    && c.epoch == s.epoch && c.start == s.start && c.end == s.end
    && c.start < c.end <= |chain|
    && (forall i | c.start <= i < c.end :: chain[i].summary.epoch == c.epoch)
    && c.Path() in remote && s.Path() in remote
    && c.sha3 == env.sha3(remote[c.Path()]) && s.sha3 == env.sha3(remote[s.Path()])
    && Decoded(env, CHECKPOINT_FILE_MAGIC, env.contents, remote[c.Path()]) == Some(ContentsOf(chain[c.start..c.end]))
    && Decoded(env, SUMMARY_FILE_MAGIC, env.summaries, remote[s.Path()]) == Some(Summaries(chain[c.start..c.end]))
    && (c.end - c.start >= 2 ==> |ContentBlobs(env, chain, c.start, c.end)| <= env.commitFileSize)
  }

  /** The files of `m` are complete pairs whose ranges tile `0..m.next`. */
  ghost predicate Complete(env: Env, chain: seq<Checkpoint>, remote: Files, m: Manifest) {
    && |m.files| % 2 == 0 && |m.files| > 0
    && m.files[0].start == 0 && m.files[|m.files| - 1].end == m.next
    && forall k: nat | 2 * k + 1 < |m.files| :: PairAt(env, chain, remote, m, k)
  }

  ghost predicate PairAt(env: Env, chain: seq<Checkpoint>, remote: Files, m: Manifest, k: nat)
    requires 2 * k + 1 < |m.files|
  {
    && CompletePair(env, chain, remote, m.files[2 * k], m.files[2 * k + 1])
    && (2 * k + 2 < |m.files| ==> m.files[2 * k + 2].start == m.files[2 * k].end)
  }

  function Paths(m: Manifest): set<string> {
    set f | f in m.files :: f.Path()
  }

  /** The manifest in the remote store, if there is one and it can be read. */
  function RemoteManifest(env: Env, remote: Files): Option<Manifest> {
    if MANIFEST_FILENAME in remote then ReadManifest(env, remote[MANIFEST_FILENAME]) else None
  }

  // ----- from the invariant to the guarantees

  /** Every state of every run has an invariant; along a run the archived segments only grow. */
  lemma {:induction false} RunKeeps(env: Env, chain: seq<Checkpoint>, s: System, es: seq<Event>, gs: seq<Segment>,
      n: nat)
    returns (gs': seq<Segment>, n': nat)
    requires Sound(env) && ValidChain(env, chain) && Inv(env, chain, s, gs, n) && Run(env, chain, s, es).Some?
    ensures Inv(env, chain, Run(env, chain, s, es).value, gs', n')
    ensures gs[..n] <= gs'[..n']
  {
    hide Inv, Step, Encodable;
    if es == [] {
      gs', n' := gs, n;
    } else {
      var mid := Run(env, chain, s, es[..|es| - 1]).value;
      var gs1, n1 := RunKeeps(env, chain, s, es[..|es| - 1], gs, n);
      gs', n' := StepKeeps(env, chain, mid, es[|es| - 1], gs1, n1);
    }
  }

  lemma ReachableInv(env: Env, chain: seq<Checkpoint>, s: System) returns (gs: seq<Segment>, n: nat)
    requires Sound(env) && ValidChain(env, chain) && Reachable(env, chain, s)
    ensures Inv(env, chain, s, gs, n)
  {
    var staging, es :| Run(env, chain, Init(staging), es) == Some(s);
    assert Inv(env, chain, Init(staging), [], 0);
    gs, n := RunKeeps(env, chain, Init(staging), es, [], 0);
  }

  lemma SegmentComplete(env: Env, chain: seq<Checkpoint>, remote: Files, g: Segment)
    requires Sound(env) && Encodable(env, chain) && ValidSegment(env, chain, g) && Holds(env, chain, remote, g)
    ensures CompletePair(env, chain, remote, MetaOf(env, chain, g, CheckpointContent),
        MetaOf(env, chain, g, CheckpointSummary))
  {
    hide Encodable, Fits;
    var part := chain[g.start..g.end];
    PartFits(env, chain, g.start, g.end);
    FinishedFileRoundTrip(env, CHECKPOINT_FILE_MAGIC, env.contents, ContentsOf(part));
    FinishedFileRoundTrip(env, SUMMARY_FILE_MAGIC, env.summaries, Summaries(part));
  }

  lemma ArchivedPair(env: Env, chain: seq<Checkpoint>, remote: Files, gs: seq<Segment>, k: nat)
    requires Sound(env) && Encodable(env, chain) && ValidSegments(env, chain, gs) && Archived(env, chain, remote, gs)
        && k < |gs|
    ensures |ManifestOf(env, chain, gs).files| == 2 * |gs| && PairAt(env, chain, remote, ManifestOf(env, chain, gs), k)
  {
    hide FileOf, ManifestOf, CompletePair, Holds, ValidSegment, Encodable;
    ManifestFiles(env, chain, gs, k);
    assert ArchivedAt(env, chain, remote, gs, k);
    SegmentComplete(env, chain, remote, gs[k]);
    if k + 1 < |gs| {
      ManifestFiles(env, chain, gs, k + 1);
      assert TiledAt(env, chain, gs, k + 1);
    }
  }

  lemma ManifestEnds(env: Env, chain: seq<Checkpoint>, gs: seq<Segment>)
    requires ValidSegments(env, chain, gs) && gs != []
    ensures var m := ManifestOf(env, chain, gs);
            |m.files| == 2 * |gs| && m.files[0].start == 0 && m.files[|m.files| - 1].end == m.next
  {
    hide FileOf, ManifestOf;
    ManifestFields(env, chain, gs);
    ManifestFiles(env, chain, gs, 0);
    ManifestFiles(env, chain, gs, |gs| - 1);
    assert TiledAt(env, chain, gs, 0);
  }

  /** An archived list of segments is what the remote manifest says, and it is complete. */
  lemma ArchivedComplete(env: Env, chain: seq<Checkpoint>, remote: Files, gs: seq<Segment>)
    requires Sound(env) && Encodable(env, chain) && ValidSegments(env, chain, gs) && Archived(env, chain, remote, gs)
        && gs != []
    ensures RemoteManifest(env, remote) == Some(ManifestOf(env, chain, gs))
    ensures Complete(env, chain, remote, ManifestOf(env, chain, gs))
  {
    hide ManifestOf, PairAt, WriteManifest, ReadManifest;
    var m := ManifestOf(env, chain, gs);
    ManifestRoundTrip(env, m);
    ManifestEnds(env, chain, gs);
    forall k: nat | 2 * k + 1 < |m.files|
      ensures PairAt(env, chain, remote, m, k)
    {
      ArchivedPair(env, chain, remote, gs, k);
    }
  }

  // ----- theorems

  /** Archive safety. In every reachable state, the remote manifest (once there is one) can be read and is complete. */
  lemma ArchiveAlwaysComplete(env: Env, chain: seq<Checkpoint>, s: System)
    requires Sound(env) && ValidChain(env, chain) && Reachable(env, chain, s)
    requires MANIFEST_FILENAME in s.remote
    ensures RemoteManifest(env, s.remote).Some?
    ensures Complete(env, chain, s.remote, RemoteManifest(env, s.remote).value)
    ensures RemoteManifest(env, s.remote).value.archiveVersion == 1
  {
    var gs, n := ReachableInv(env, chain, s);
    ArchivedComplete(env, chain, s.remote, gs[..n]);
    ManifestVersion(env, chain, gs[..n]);
  }

  lemma {:induction false} ManifestPrefix(env: Env, chain: seq<Checkpoint>, gs: seq<Segment>, gs': seq<Segment>)
    requires ValidSegments(env, chain, gs) && ValidSegments(env, chain, gs') && gs <= gs'
    ensures ManifestOf(env, chain, gs).files <= ManifestOf(env, chain, gs').files
    ensures NextOf(gs) <= NextOf(gs')
    decreases |gs'|
  {
    hide FileOf, MetaOf;
    if |gs| == |gs'| {
      assert gs == gs';
    } else {
      var last := |gs'| - 1;
      PrefixValid(env, chain, gs', last);
      assert gs <= gs'[..last];
      ManifestPrefix(env, chain, gs, gs'[..last]);
      assert TiledAt(env, chain, gs', last);
    }
  }

  /** Every listed path is a file of an archived segment. */
  lemma ListedPath(env: Env, chain: seq<Checkpoint>, gs: seq<Segment>, p: string) returns (k: nat, t: FileType)
    requires ValidSegments(env, chain, gs) && p in Paths(ManifestOf(env, chain, gs))
    ensures k < |gs| && p == Path(gs[k], t)
  {
    hide FileOf, ManifestOf, FilePath;
    var files := ManifestOf(env, chain, gs).files;
    var f :| f in files && f.Path() == p;
    var i :| 0 <= i < |files| && files[i] == f;
    ManifestFiles(env, chain, gs, i / 2);
    k := i / 2;
    t := f.fileType;
    assert ListedAt(env, chain, gs[k], files, k);
  }

  /** Append-only. From any reachable state, whatever happens next, including crashes and restarts: the manifest
      stays readable, its file list only grows at the end, its checkpoint number never decreases, and no listed file
      changes. */
  lemma ArchiveOnlyGrows(env: Env, chain: seq<Checkpoint>, s: System, es: seq<Event>)
    requires Sound(env) && ValidChain(env, chain) && Reachable(env, chain, s)
    requires Run(env, chain, s, es).Some? && RemoteManifest(env, s.remote).Some?
    ensures var (m, remote') := (RemoteManifest(env, s.remote).value, Run(env, chain, s, es).value.remote);
            && RemoteManifest(env, remote').Some?
            && m.files <= RemoteManifest(env, remote').value.files
            && m.next <= RemoteManifest(env, remote').value.next
            && forall p | p in Paths(m) :: p in s.remote && p in remote' && remote'[p] == s.remote[p]
  {
    hide FileOf, Run, Reachable, Encodable;
    var gs, n := ReachableInv(env, chain, s);
    var gs', n' := RunKeeps(env, chain, s, es, gs, n);
    var old_, new_ := gs[..n], gs'[..n'];
    var remote' := Run(env, chain, s, es).value.remote;
    ArchivedComplete(env, chain, s.remote, old_);
    ArchivedComplete(env, chain, remote', new_);
    ManifestPrefix(env, chain, old_, new_);
    ManifestFields(env, chain, old_);
    ManifestFields(env, chain, new_);
    var m := ManifestOf(env, chain, old_);
    forall p | p in Paths(m)
      ensures p in s.remote && p in remote' && remote'[p] == s.remote[p]
    {
      var k, t := ListedPath(env, chain, old_, p);
      assert ArchivedAt(env, chain, s.remote, old_, k) && ArchivedAt(env, chain, remote', new_, k);
      assert old_[k] == new_[k];
    }
  }

  /** No listed file is ever the target of an upload, in any reachable state. */
  lemma NoListedFileOverwritten(env: Env, chain: seq<Checkpoint>, s: System, e: Event)
    requires Sound(env) && ValidChain(env, chain) && Reachable(env, chain, s)
    requires RemoteManifest(env, s.remote).Some? && UploadTarget(s, e).Some?
    ensures UploadTarget(s, e).value !in Paths(RemoteManifest(env, s.remote).value)
  {
    hide FileOf, Reachable, Encodable;
    var gs, n := ReachableInv(env, chain, s);
    ArchivedComplete(env, chain, s.remote, gs[..n]);
    var p := UploadTarget(s, e).value;
    if p in Paths(ManifestOf(env, chain, gs[..n])) {
      var k, t := ListedPath(env, chain, gs[..n], p);
      PathsDiffer(env, chain, gs, n, k, if e == UploadSummary then CheckpointSummary else CheckpointContent, t);
    }
  }

  /** None of the writer's assertions fails and no file the uploader needs is missing, in any reachable state. */
  lemma NothingPanics(env: Env, chain: seq<Checkpoint>, s: System, elapsed: bool)
    requires Sound(env) && ValidChain(env, chain) && Reachable(env, chain, s)
    ensures s.writer.Some? && s.cursor < |chain| ==>
              && Writable(s.writer.value)
              && WriteSpec(env, Local(s.writer.value, s.staging, s.queue), chain[s.cursor], elapsed).1 != Panicked
    ensures s.uploader.Fetched? ==> Step(env, chain, s, UploadSummary).Some?
    ensures s.uploader.SummaryUp? ==> Step(env, chain, s, UploadContent).Some?
  {
    hide FileOf, Reachable, WriteSpec, Encodable;
    var gs, n := ReachableInv(env, chain, s);
    if s.uploader.Fetched? { UploadSummaryKeeps(env, chain, s, gs, n); }
    if s.uploader.SummaryUp? { UploadContentKeeps(env, chain, s, gs, n); }
    if s.writer.Some? && s.cursor < |chain| {
      WriteKeeps(env, chain, Local(s.writer.value, s.staging, s.queue), gs, elapsed);
    }
  }

  /** Recovery, exactly. With no process running, a restart succeeds if and only if the store has a manifest or has
      no directory yet; it resumes at the manifest's next checkpoint, or at genesis. The other case is a store with
      files but no manifest, which a crash before the first manifest leaves behind. */
  lemma RestartExactly(env: Env, chain: seq<Checkpoint>, s: System)
    requires Sound(env) && ValidChain(env, chain) && Reachable(env, chain, s)
    requires s.writer.None? && s.queue == [] && s.uploader == Idle
    ensures Step(env, chain, s, Restart).Some? <==> MANIFEST_FILENAME in s.remote || HasNoDirectories(s.remote)
    ensures Step(env, chain, s, Restart).Some? ==>
              var s' := Step(env, chain, s, Restart).value;
              && s'.remote == s.remote && s'.writer.Some?
              && s'.cursor == s'.writer.value.start == s'.writer.value.end
                 == (match RemoteManifest(env, s.remote) case Some(m) => m.next case None => 0)
              && s'.queue == [] && s'.uploader == Idle
              && OnlyOpenPair(Local(s'.writer.value, s'.staging, s'.queue))
  {
    hide FileOf, Reachable, Encodable;
    var gs, n := ReachableInv(env, chain, s);
    assert gs[..n] == gs;
    StartResumes(env, chain, s.remote, gs);
    ManifestFields(env, chain, gs);
    if gs != [] { ArchivedComplete(env, chain, s.remote, gs); }
    var m := StartManifest(env, s.remote);
    if m.Some? { StartsCleared(env, NewSpec(env, m.value, s.staging), m.value, s.staging); }
    hide OnlyOpenPair, RemoteManifest;
  }

  // ----- recovery fails exactly where it says, and uploads make progress

  lemma RunSnoc(env: Env, chain: seq<Checkpoint>, s: System, es: seq<Event>, e: Event)
    requires Run(env, chain, s, es).Some?
    ensures Run(env, chain, s, es + [e]) == Step(env, chain, Run(env, chain, s, es).value, e)
  {
    hide Step;
    assert (es + [e])[..|es|] == es;
  }

  lemma {:induction false} RunCons(env: Env, chain: seq<Checkpoint>, s: System, e: Event, es: seq<Event>)
    requires Step(env, chain, s, e).Some?
    ensures Run(env, chain, s, [e] + es) == Run(env, chain, Step(env, chain, s, e).value, es)
    decreases |es|
  {
    hide Step;
    if es == [] {
      assert [e] + es == [] + [e];
    } else {
      var last := |es| - 1;
      RunCons(env, chain, s, e, es[..last]);
      assert ([e] + es)[..last + 1] == [e] + es[..last];
    }
  }

  /** Recovery does fail on some runs: once an upload has happened and no manifest was ever put, a crash is final. */
  lemma CrashBeforeFirstManifest(env: Env, chain: seq<Checkpoint>, s: System, leftover: Files)
    requires Sound(env) && ValidChain(env, chain) && Reachable(env, chain, s)
    requires s.uploader.Fetched? && MANIFEST_FILENAME !in s.remote
    ensures var stuck := Run(env, chain, s, [UploadSummary, Crash(leftover)]);
            stuck.Some? && Step(env, chain, stuck.value, Restart).None?
  {
    hide Reachable, Run, WriteStep, NewSpec, Inv, FilePath, Encodable;
    var gs, n := ReachableInv(env, chain, s);
    UploadedIsThere(env, chain, s, gs, n);
    var s1 := Step(env, chain, s, UploadSummary).value;
    RunCons(env, chain, s, UploadSummary, [Crash(leftover)]);
    RunCons(env, chain, s1, Crash(leftover), []);
    assert [UploadSummary, Crash(leftover)] == [UploadSummary] + [Crash(leftover)];
    assert [Crash(leftover)] == [Crash(leftover)] + [];
    var s2 := Step(env, chain, s1, Crash(leftover)).value;
    assert Run(env, chain, s2, []) == Some(s2) by { RunNothing(env, chain, s2); }
    var f := s.uploader.u.summary;
    OnlyDataFilesInDirectories(f.epoch, f.start, f.fileType);
    assert f.Path() in s2.remote;
  }

  lemma RunNothing(env: Env, chain: seq<Checkpoint>, s: System)
    ensures Run(env, chain, s, []) == Some(s)
  {
  }

  lemma UploadedIsThere(env: Env, chain: seq<Checkpoint>, s: System, gs: seq<Segment>, n: nat)
    requires Inv(env, chain, s, gs, n) && s.uploader.Fetched?
    ensures var t := Step(env, chain, s, UploadSummary);
            t.Some? && t.value.remote.Keys == s.remote.Keys + {s.uploader.u.summary.Path()}
  {
    FilesNotEmpty(env, chain, gs[n], CheckpointSummary);
  }

  /** A write of the next checkpoint, seen as a step. */
  lemma WriteStepHappens(env: Env, chain: seq<Checkpoint>, s: System, elapsed: bool, gs: seq<Segment>)
    requires ValidChain(env, chain) && s.writer.Some? && WriterInv(env, chain, s.writer.value, gs)
    requires s.cursor == s.writer.value.end < |chain| && s.writer.value.end < 2 && s.writer.value.epoch < 2
        && |s.queue| < CHANNEL_CAPACITY
    ensures var t := Step(env, chain, s, Write(elapsed));
            && t.Some? && t.value.remote == s.remote && t.value.uploader == s.uploader && t.value.writer.Some?
            && |t.value.queue| <= |s.queue| + 1
            && t.value.writer.value.start < t.value.cursor == t.value.writer.value.end == s.cursor + 1
            && t.value.writer.value.epoch == chain[s.cursor].summary.epoch
            && (exists gs' :: WriterInv(env, chain, t.value.writer.value, gs'))
            && (elapsed && s.writer.value.start < s.writer.value.end ==> t.value.queue != [])
  {
    hide WriteSpec, FileOf, ManifestOf, StagingKept, Encodable;
    var l := Local(s.writer.value, s.staging, s.queue);
    var r := WriteSpec(env, l, chain[s.cursor], elapsed);
    WriteKeeps(env, chain, l, gs, elapsed);
    TimerForcesCut(env, chain, l, gs);
    assert WriterInv(env, chain, r.0.w, if r.0.queue == l.queue then gs else Listed(l.w, gs));
  }

  lemma GenesisStarts(env: Env, chain: seq<Checkpoint>, staging: Files)
    ensures var t := Step(env, chain, Init(staging), Restart);
            && t.Some? && t.value.remote == map[] && t.value.uploader == Idle && t.value.queue == []
                && t.value.writer.Some?
            && t.value.cursor == t.value.writer.value.start == t.value.writer.value.end
                == t.value.writer.value.epoch == 0
            && WriterInv(env, chain, t.value.writer.value, [])
  {
    NewEstablishes(env, chain, [], staging);
  }

  /** Such a state is reached on every valid chain of two checkpoints or more. */
  lemma FirstUploadReachable(env: Env, chain: seq<Checkpoint>, staging: Files) returns (s: System)
    requires Sound(env) && ValidChain(env, chain) && |chain| >= 2
    ensures Run(env, chain, Init(staging), [Restart, Write(false), Write(true), Dequeue]) == Some(s)
    ensures s.uploader.Fetched? && MANIFEST_FILENAME !in s.remote
  {
    hide WriteStep, RestartStep, WriterInv, Encodable;
    var s0 := Init(staging);
    GenesisStarts(env, chain, staging);
    var s1 := Step(env, chain, s0, Restart).value;
    WriteStepHappens(env, chain, s1, false, []);
    var s2 := Step(env, chain, s1, Write(false)).value;
    var gs :| WriterInv(env, chain, s2.writer.value, gs);
    assert ValidCheckpoint(env, chain, 0);
    WriteStepHappens(env, chain, s2, true, gs);
    var s3 := Step(env, chain, s2, Write(true)).value;
    s := Step(env, chain, s3, Dequeue).value;
    RunNothing(env, chain, s0);
    hide Run;
    RunSnoc(env, chain, s0, [], Restart);
    assert [] + [Restart] == [Restart];
    RunSnoc(env, chain, s0, [Restart], Write(false));
    assert [Restart] + [Write(false)] == [Restart, Write(false)];
    RunSnoc(env, chain, s0, [Restart, Write(false)], Write(true));
    assert [Restart, Write(false)] + [Write(true)] == [Restart, Write(false), Write(true)];
    RunSnoc(env, chain, s0, [Restart, Write(false), Write(true)], Dequeue);
    assert [Restart, Write(false), Write(true)] + [Dequeue] == [Restart, Write(false), Write(true), Dequeue];
  }

  predicate UploaderEvent(e: Event) {
    e == Dequeue || e == UploadSummary || e == UploadContent || e == PutManifest
  }

  function RemainingUploads(s: System): nat {
    4 * |s.queue| + match s.uploader case Idle => 0 case Fetched(_) => 3 case SummaryUp(_) => 2 case ContentUp(_) => 1
  }

  lemma UploaderAdvances(env: Env, chain: seq<Checkpoint>, s: System, gs: seq<Segment>, n: nat)
      returns (e: Event, n': nat)
    requires Inv(env, chain, s, gs, n) && RemainingUploads(s) > 0
    ensures UploaderEvent(e) && Step(env, chain, s, e).Some?
    ensures var t := Step(env, chain, s, e).value;
            Inv(env, chain, t, gs, n') && t.writer == s.writer && RemainingUploads(t) == RemainingUploads(s) - 1
  {
    hide WriterInv, FileOf, ManifestOf, Archived, Queued;
    n' := n;
    match s.uploader
    case Idle => e := Dequeue; DequeueKeeps(env, chain, s, gs, n);
    case Fetched(_) => e := UploadSummary; UploadSummaryKeeps(env, chain, s, gs, n);
    case SummaryUp(_) => e := UploadContent; UploadContentKeeps(env, chain, s, gs, n);
    case ContentUp(_) => e := PutManifest; n' := n + 1; PutManifestKeeps(env, chain, s, gs, n);
  }

  lemma {:induction false} UploaderDrains(env: Env, chain: seq<Checkpoint>, s: System, gs: seq<Segment>, n: nat)
      returns (es: seq<Event>)
    requires Inv(env, chain, s, gs, n)
    ensures forall e <- es :: UploaderEvent(e)
    ensures var t := Run(env, chain, s, es); t.Some? && t.value.writer == s.writer && Inv(env, chain, t.value, gs, |gs|)
    decreases RemainingUploads(s)
  {
    if RemainingUploads(s) == 0 {
      es := [];
    } else {
      hide Inv, Run, Step;
      var e, n' := UploaderAdvances(env, chain, s, gs, n);
      var rest := UploaderDrains(env, chain, Step(env, chain, s, e).value, gs, n');
      RunCons(env, chain, s, e, rest);
      es := [e] + rest;
    }
  }

  /** Progress. From every reachable state the uploader alone can bring the archive up to the writer's last cut:
      then the remote manifest is the writer's own. */
  lemma UploaderCatchesUp(env: Env, chain: seq<Checkpoint>, s: System) returns (es: seq<Event>)
    requires Sound(env) && ValidChain(env, chain) && Reachable(env, chain, s)
    requires s.writer.Some? && s.writer.value.manifest.files != []
    ensures forall e <- es :: UploaderEvent(e)
    ensures var t := Run(env, chain, s, es);
            t.Some? && RemoteManifest(env, t.value.remote) == Some(s.writer.value.manifest)
  {
    var gs, n := ReachableInv(env, chain, s);
    es := UploaderDrains(env, chain, s, gs, n);
    assert gs[..|gs|] == gs;
    ArchivedComplete(env, chain, Run(env, chain, s, es).value.remote, gs);
  }

  // ----- what each step does, exactly

  /** Uploading moves a staged file to the remote store and does nothing else. */
  lemma UploadMoves(env: Env, chain: seq<Checkpoint>, s: System)
    requires Sound(env) && ValidChain(env, chain) && Reachable(env, chain, s)
    ensures s.uploader.Fetched? ==>
              var p := s.uploader.u.summary.Path();
              && p in s.staging
              && Step(env, chain, s, UploadSummary) ==
                 Some(s.(remote := s.remote[p := s.staging[p]], staging := s.staging - {p},
                         uploader := SummaryUp(s.uploader.u)))
    ensures s.uploader.SummaryUp? ==>
              var p := s.uploader.u.content.Path();
              && p in s.staging
              && Step(env, chain, s, UploadContent) ==
                 Some(s.(remote := s.remote[p := s.staging[p]], staging := s.staging - {p},
                         uploader := ContentUp(s.uploader.u)))
  {
    hide Reachable, Encodable, FileOf, ManifestOf;
    var gs, n := ReachableInv(env, chain, s);
    if s.uploader.Fetched? { FilesNotEmpty(env, chain, gs[n], CheckpointSummary); }
    if s.uploader.SummaryUp? { FilesNotEmpty(env, chain, gs[n], CheckpointContent); }
  }

  lemma {:induction false} RunQueueBounded(env: Env, chain: seq<Checkpoint>, staging: Files, es: seq<Event>)
    requires Run(env, chain, Init(staging), es).Some?
    ensures |Run(env, chain, Init(staging), es).value.queue| <= 100
  {
    hide WriteSpec, NewSpec, StartManifest;
    if es != [] { RunQueueBounded(env, chain, staging, es[..|es| - 1]); }
  }

  /** The channel never holds more than a hundred updates. */
  lemma QueueBounded(env: Env, chain: seq<Checkpoint>, s: System)
    requires Reachable(env, chain, s)
    ensures |s.queue| <= 100
  {
    hide Run;
    var staging, es :| Run(env, chain, Init(staging), es) == Some(s);
    RunQueueBounded(env, chain, staging, es);
  }

  /** The writer gets on with the next checkpoint unless it has something to hand over and the channel is full. */
  lemma WritesExactly(env: Env, chain: seq<Checkpoint>, s: System, elapsed: bool)
    requires Sound(env) && ValidChain(env, chain) && Reachable(env, chain, s)
    requires s.writer.Some? && s.cursor < |chain| && s.cursor < U64_MAX && s.writer.value.epoch < U64_MAX
    ensures var w := s.writer.value;
            && w.start <= w.end == s.cursor
            && (Step(env, chain, s, Write(elapsed)).Some? <==>
                  !(CallsForCut(env, chain, w, elapsed) && w.start < w.end && |s.queue| == 100))
    ensures var t := Step(env, chain, s, Write(elapsed));
            t.Some? ==> t.value.writer.Some? && t.value.cursor == s.cursor + 1 && t.value.remote == s.remote
                        && t.value.uploader == s.uploader
  {
    hide Reachable, Encodable, FileOf, ManifestOf, WriteSpec, CallsForCut, Holds, UpdateOf, StagingKept;
    QueueBounded(env, chain, s);
    var gs, n := ReachableInv(env, chain, s);
    var l := Local(s.writer.value, s.staging, s.queue);
    WriteKeeps(env, chain, l, gs, elapsed);
    CutsExactly(env, chain, l, gs, elapsed);
  }

  /** Stopping the writer loses nothing it has handed over: the uploader alone still brings the remote manifest up to
      the writer's. */
  lemma StopLosesNothing(env: Env, chain: seq<Checkpoint>, s: System) returns (es: seq<Event>)
    requires Sound(env) && ValidChain(env, chain) && Reachable(env, chain, s)
    requires s.writer.Some? && s.writer.value.manifest.files != []
    ensures forall e <- es :: UploaderEvent(e)
    ensures var t := Run(env, chain, s, [StopWriter] + es);
            && t.Some? && t.value.writer.None? && t.value.queue == [] && t.value.uploader == Idle
            && RemoteManifest(env, t.value.remote) == Some(s.writer.value.manifest)
  {
    hide Reachable, Encodable, Run, Inv, Archived, ManifestOf, Complete, RemoteManifest, ValidSegments;
    var gs, n := ReachableInv(env, chain, s);
    var stopped := s.(writer := None);
    StoppedInv(env, chain, s, gs, n);
    es := UploaderDrains(env, chain, stopped, gs, n);
    RunCons(env, chain, s, StopWriter, es);
    DrainedIsIdle(env, chain, Run(env, chain, stopped, es).value, gs);
    WriterManifest(env, chain, s, gs, n);
    ArchivedComplete(env, chain, Run(env, chain, stopped, es).value.remote, gs);
  }

  lemma StoppedInv(env: Env, chain: seq<Checkpoint>, s: System, gs: seq<Segment>, n: nat)
    requires Inv(env, chain, s, gs, n)
    ensures Inv(env, chain, s.(writer := None), gs, n) && Step(env, chain, s, StopWriter) == Some(s.(writer := None))
  {
  }

  lemma DrainedIsIdle(env: Env, chain: seq<Checkpoint>, s: System, gs: seq<Segment>)
    requires Inv(env, chain, s, gs, |gs|)
    ensures s.queue == [] && s.uploader == Idle && ValidSegments(env, chain, gs) && Archived(env, chain, s.remote, gs)
  {
    assert gs[..|gs|] == gs;
  }

  /** A write that returns an error ends the writer and nothing else; one that panics is not a step. */
  lemma FailedWriteStops(env: Env, chain: seq<Checkpoint>, s: System, elapsed: bool)
    requires s.writer.Some? && Writable(s.writer.value) && s.cursor < |chain|
    ensures var (l, status) := WriteSpec(env, Local(s.writer.value, s.staging, s.queue), chain[s.cursor], elapsed);
            var t := Step(env, chain, s, Write(elapsed));
            && (status == Panicked ==> t.None?)
            && (status == Failed && |l.queue| <= 100 ==>
                  && t.Some? && t.value.writer.None? && t.value.remote == s.remote
                  && t.value.uploader == s.uploader && t.value.queue == l.queue)
  {
    hide WriteSpec;
  }

  lemma WriterManifest(env: Env, chain: seq<Checkpoint>, s: System, gs: seq<Segment>, n: nat)
    requires Inv(env, chain, s, gs, n) && s.writer.Some?
    ensures s.writer.value.manifest == ManifestOf(env, chain, gs)
    ensures s.writer.value.manifest.files != [] ==> gs != []
  {
  }

  /** A crash is possible at any time; it ends every process and leaves the remote store as it is. */
  lemma CrashExactly(env: Env, chain: seq<Checkpoint>, s: System, leftover: Files)
    ensures var t := Step(env, chain, s, Crash(leftover));
            && t.Some? && t.value.remote == s.remote && t.value.staging == leftover
            && t.value.writer.None? && t.value.queue == [] && t.value.uploader == Idle
  {
  }
}
