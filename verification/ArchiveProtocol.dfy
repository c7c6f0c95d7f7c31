/** The whole archive as a transition system: one writer, one uploader, a remote store, crashes and restarts.
    File copies and manifest puts are atomic; at most one writer process is alive at a time. */
module ArchiveProtocol {
  import opened Options
  import opened Blob
  import opened ArchivePath
  import opened Archive
  import opened ManifestCodec
  import opened ArchiveSegments
  import opened ArchiveWriter

  const CHANNEL_CAPACITY: nat := 100

  /** The sync loop: idle, or part-way through one update. */
  datatype Uploader = Idle
                    | Fetched(u: CheckpointUpdates)
                    | SummaryUp(u: CheckpointUpdates)
                    | ContentUp(u: CheckpointUpdates)

  datatype System = System(
    remote: Files,
    writer: Option<Writer>,
    cursor: nat,
    staging: Files,
    queue: seq<CheckpointUpdates>,
    uploader: Uploader
  )

  datatype Event = Write(elapsed: bool)
                 | Dequeue
                 | UploadSummary
                 | UploadContent
                 | PutManifest
                 | StopWriter
                 | Crash(leftover: Files)
                 | Restart

  predicate HasNoDirectories(remote: Files) {
    forall p | p in remote :: '/' !in p
  }

  /** The manifest `start` resumes from; `None` where the source panics. */
  function StartManifest(env: Env, remote: Files): Option<Manifest> {
    if HasNoDirectories(remote) then Some(Manifest.New(0, 0))
    else if MANIFEST_FILENAME !in remote then None
    else ReadManifest(env, remote[MANIFEST_FILENAME])
  }

  /** `copy_file` does not copy an empty file. */
  function CopyTo(remote: Files, path: string, file: Bytes): Files {
    if file == [] then remote else remote[path := file]
  }

  /** The file an event copies to the remote store. */
  function UploadTarget(s: System, e: Event): Option<string> {
    match (e, s.uploader)
    case (UploadSummary, Fetched(u)) => Some(u.summary.Path())
    case (UploadContent, SummaryUp(u)) => Some(u.content.Path())
    case _ => None
  }

  function WriteStep(env: Env, chain: seq<Checkpoint>, s: System, elapsed: bool): Option<System> {
    if s.writer.None? || s.cursor >= |chain| || !Writable(s.writer.value) then None
    else
      var (l, status) := WriteSpec(env, Local(s.writer.value, s.staging, s.queue), chain[s.cursor], elapsed);
      if |l.queue| > CHANNEL_CAPACITY || status == Panicked then None
      else Some(s.(
        writer := if status == Ok then Some(l.w) else None,
        cursor := s.cursor + 1,
        staging := l.staging,
        queue := l.queue))
  }

  /** `sync_file_to_remote`: copy a staged file to the remote store, then delete it from staging. */
  function UploadStep(s: System, meta: FileMetadata, done: Uploader): Option<System> {
    var path := meta.Path();
    if path !in s.staging then None
    else Some(s.(remote := CopyTo(s.remote, path, s.staging[path]), staging := s.staging - {path}, uploader := done))
  }

  function RestartStep(env: Env, s: System): Option<System> {
    if s.writer.Some? || s.queue != [] || s.uploader != Idle then None
    else match StartManifest(env, s.remote)
      case None => None
      case Some(m) =>
        var l := NewSpec(env, m, s.staging);
        Some(s.(writer := Some(l.w), cursor := m.next, staging := l.staging))
  }

  /** One step. `None`: the event cannot happen in this state, or the source panics. */
  function Step(env: Env, chain: seq<Checkpoint>, s: System, e: Event): Option<System> {
    match (e, s.uploader)
    case (Write(elapsed), _) => WriteStep(env, chain, s, elapsed)
    case (Dequeue, Idle) =>
      if s.queue == [] then None else Some(s.(uploader := Fetched(s.queue[0]), queue := s.queue[1..]))
    case (UploadSummary, Fetched(u)) => UploadStep(s, u.summary, SummaryUp(u))
    case (UploadContent, SummaryUp(u)) => UploadStep(s, u.content, ContentUp(u))
    case (PutManifest, ContentUp(u)) =>
      Some(s.(remote := s.remote[MANIFEST_FILENAME := WriteManifest(env, u.manifest)], uploader := Idle))
    case (StopWriter, _) => Some(s.(writer := None))
    case (Crash(leftover), _) => Some(System(s.remote, None, 0, leftover, [], Idle))
    case (Restart, _) => RestartStep(env, s)
    case _ => None
  }

  /** Nothing archived, no process running, anything at all in the staging directory. */
  function Init(staging: Files): System {
    System(map[], None, 0, staging, [], Idle)
  }

  function Run(env: Env, chain: seq<Checkpoint>, s: System, es: seq<Event>): Option<System> {
    if es == [] then Some(s)
    else match Run(env, chain, s, es[..|es| - 1])
      case None => None
      case Some(t) => Step(env, chain, t, es[|es| - 1])
  }

  ghost predicate Reachable(env: Env, chain: seq<Checkpoint>, s: System) {
    exists staging, es :: Run(env, chain, Init(staging), es) == Some(s)
  }

  // ----- the invariant

  /** The update that lists `gs[..k + 1]`, the last of them new. */
  ghost function UpdateAt(env: Env, chain: seq<Checkpoint>, gs: seq<Segment>, k: nat): CheckpointUpdates
    requires ValidSegments(env, chain, gs) && k < |gs|
  {
    assert TiledAt(env, chain, gs, k);
    PrefixValid(env, chain, gs, k + 1);
    UpdateOf(env, chain, gs[k], ManifestOf(env, chain, gs[..k + 1]))
  }

  function InFlight(u: Uploader): nat {
    if u == Idle then 0 else 1
  }

  /** The segments `gs` are archived: each file is in the remote store, and the manifest lists exactly these. */
  ghost predicate Archived(env: Env, chain: seq<Checkpoint>, remote: Files, gs: seq<Segment>)
    requires ValidSegments(env, chain, gs)
  {
    && (forall k | 0 <= k < |gs| :: ArchivedAt(env, chain, remote, gs, k))
    && (if gs == [] then MANIFEST_FILENAME !in remote
        else MANIFEST_FILENAME in remote && remote[MANIFEST_FILENAME] == WriteManifest(env, ManifestOf(env, chain, gs)))
  }

  ghost predicate ArchivedAt(env: Env, chain: seq<Checkpoint>, remote: Files, gs: seq<Segment>, k: nat)
    requires k < |gs|
  {
    TiledAt(env, chain, gs, k) && Holds(env, chain, remote, gs[k])
  }

  /** Where the uploader is with segment `g`. */
  ghost predicate Uploading(env: Env, chain: seq<Checkpoint>, u: Uploader, staging: Files, remote: Files, g: Segment)
    requires g.start <= g.end <= |chain|
  {
    match u
    case Idle => true
    case Fetched(_) => Holds(env, chain, staging, g)
    case SummaryUp(_) => HoldsFile(env, chain, staging, g, CheckpointContent)
        && HoldsFile(env, chain, remote, g, CheckpointSummary)
    case ContentUp(_) => Holds(env, chain, remote, g)
  }

  /** The queue carries the segments from `base` on, in order: each staged, each with the manifest that lists it
      last. */
  ghost predicate Queued(env: Env, chain: seq<Checkpoint>, staging: Files, queue: seq<CheckpointUpdates>,
      gs: seq<Segment>, base: nat)
    requires ValidSegments(env, chain, gs)
  {
    && |gs| == base + |queue|
    && (forall k | 0 <= k < |queue| :: QueuedAt(env, chain, staging, queue[k], gs, base + k))
  }

  ghost predicate QueuedAt(env: Env, chain: seq<Checkpoint>, staging: Files, u: CheckpointUpdates, gs: seq<Segment>,
      j: nat)
    requires ValidSegments(env, chain, gs) && j < |gs|
  {
    && TiledAt(env, chain, gs, j)
    && u == UpdateAt(env, chain, gs, j)
    && Holds(env, chain, staging, gs[j])
  }

  ghost predicate UploaderInv(env: Env, chain: seq<Checkpoint>, up: Uploader, staging: Files, remote: Files,
      gs: seq<Segment>, n: nat)
    requires ValidSegments(env, chain, gs)
  {
    up != Idle ==>
      && n < |gs|
      && TiledAt(env, chain, gs, n)
      && up.u == UpdateAt(env, chain, gs, n)
      && Uploading(env, chain, up, staging, remote, gs[n])
  }

  /** `gs[..n]` is archived; the rest is on its way, in order; the writer continues where `gs` ends. */
  ghost predicate Inv(env: Env, chain: seq<Checkpoint>, s: System, gs: seq<Segment>, n: nat) {
    && ValidSegments(env, chain, gs)
    && n <= |gs|
    && ValidSegments(env, chain, gs[..n])
    && Archived(env, chain, s.remote, gs[..n])
    && UploaderInv(env, chain, s.uploader, s.staging, s.remote, gs, n)
    && Queued(env, chain, s.staging, s.queue, gs, n + InFlight(s.uploader))
    && (s.writer.Some? ==> WriterInv(env, chain, s.writer.value, gs) && s.cursor == s.writer.value.end)
  }

  // ----- files of different segments do not interfere

  lemma PathsDiffer(env: Env, chain: seq<Checkpoint>, gs: seq<Segment>, j: nat, k: nat, t: FileType, t': FileType)
    requires ValidSegments(env, chain, gs) && j < |gs| && k < |gs| && j != k
    ensures Path(gs[j], t) != Path(gs[k], t')
  {
    if j < k { StartsIncrease(env, chain, gs, j, k); } else { StartsIncrease(env, chain, gs, k, j); }
    if Path(gs[j], t) == Path(gs[k], t') {
      FilePathInjective(gs[j].epoch, gs[j].start, t, gs[k].epoch, gs[k].start, t');
    }
  }

  /** Writing or deleting a file of segment `k` touches no other segment. */
  lemma OthersKept(env: Env, chain: seq<Checkpoint>, gs: seq<Segment>, k: nat, t: FileType, files: Files, file: Bytes,
      j: nat)
    requires ValidSegments(env, chain, gs) && j < |gs| && k < |gs| && j != k && TiledAt(env, chain, gs, j)
    requires Holds(env, chain, files, gs[j])
    ensures Holds(env, chain, files[Path(gs[k], t) := file], gs[j])
    ensures Holds(env, chain, files - {Path(gs[k], t)}, gs[j])
  {
    PathsDiffer(env, chain, gs, j, k, CheckpointContent, t);
    PathsDiffer(env, chain, gs, j, k, CheckpointSummary, t);
  }

  lemma ManifestIsNoDataFile(g: Segment)
    ensures forall t: FileType :: Path(g, t) != MANIFEST_FILENAME
  {
    forall t: FileType ensures Path(g, t) != MANIFEST_FILENAME { OnlyDataFilesInDirectories(g.epoch, g.start, t); }
  }

  /** Uploading one more file leaves the archived part alone. */
  lemma ArchivedKept(env: Env, chain: seq<Checkpoint>, remote: Files, gs: seq<Segment>, n: nat, t: FileType,
      file: Bytes)
    requires ValidSegments(env, chain, gs) && n < |gs| && ValidSegments(env, chain, gs[..n])
    requires Archived(env, chain, remote, gs[..n])
    ensures Archived(env, chain, remote[Path(gs[n], t) := file], gs[..n])
  {
    var done, after := gs[..n], remote[Path(gs[n], t) := file];
    forall k | 0 <= k < n
      ensures ArchivedAt(env, chain, after, done, k)
    {
      assert ArchivedAt(env, chain, remote, done, k) && TiledAt(env, chain, gs, k);
      OthersKept(env, chain, gs, n, t, remote, file, k);
    }
    ManifestIsNoDataFile(gs[n]);
  }

  lemma QueuedKept(env: Env, chain: seq<Checkpoint>, staging: Files, queue: seq<CheckpointUpdates>, gs: seq<Segment>,
      n: nat, t: FileType)
    requires ValidSegments(env, chain, gs) && n < |gs| && Queued(env, chain, staging, queue, gs, n + 1)
    ensures Queued(env, chain, staging - {Path(gs[n], t)}, queue, gs, n + 1)
  {
    hide Holds, UpdateAt, ValidSegment, FilePath;
    forall k | 0 <= k < |queue|
      ensures QueuedAt(env, chain, staging - {Path(gs[n], t)}, queue[k], gs, n + 1 + k)
    {
      assert QueuedAt(env, chain, staging, queue[k], gs, n + 1 + k);
      OthersKept(env, chain, gs, n, t, staging, [], n + 1 + k);
    }
  }

  // ----- every event keeps the invariant

  lemma ContentIsNotSummary(g: Segment)
    ensures Path(g, CheckpointContent) != Path(g, CheckpointSummary)
  {
    if Path(g, CheckpointContent) == Path(g, CheckpointSummary) {
      FilePathInjective(g.epoch, g.start, CheckpointContent, g.epoch, g.start, CheckpointSummary);
    }
  }

  /** Finished files are never empty, so `copy_file` always copies them. */
  lemma FilesNotEmpty(env: Env, chain: seq<Checkpoint>, g: Segment, t: FileType)
    requires g.start <= g.end <= |chain|
    ensures FileOf(env, chain, g, t) != []
  {
  }

  lemma UploadSummaryKeeps(env: Env, chain: seq<Checkpoint>, s: System, gs: seq<Segment>, n: nat)
    requires Inv(env, chain, s, gs, n) && s.uploader.Fetched?
    ensures var t := Step(env, chain, s, UploadSummary); t.Some? && Inv(env, chain, t.value, gs, n)
  {
    hide WriterInv, FileOf, ManifestOf;
    FilesNotEmpty(env, chain, gs[n], CheckpointSummary);
    ContentIsNotSummary(gs[n]);
    ArchivedKept(env, chain, s.remote, gs, n, CheckpointSummary, FileOf(env, chain, gs[n], CheckpointSummary));
    QueuedKept(env, chain, s.staging, s.queue, gs, n, CheckpointSummary);
  }

  lemma UploadContentKeeps(env: Env, chain: seq<Checkpoint>, s: System, gs: seq<Segment>, n: nat)
    requires Inv(env, chain, s, gs, n) && s.uploader.SummaryUp?
    ensures var t := Step(env, chain, s, UploadContent); t.Some? && Inv(env, chain, t.value, gs, n)
  {
    hide WriterInv, FileOf, ManifestOf;
    FilesNotEmpty(env, chain, gs[n], CheckpointContent);
    ContentIsNotSummary(gs[n]);
    ArchivedKept(env, chain, s.remote, gs, n, CheckpointContent, FileOf(env, chain, gs[n], CheckpointContent));
    QueuedKept(env, chain, s.staging, s.queue, gs, n, CheckpointContent);
  }

  /** Putting the manifest moves the uploaded segment into the archived part. */
  lemma PutManifestKeeps(env: Env, chain: seq<Checkpoint>, s: System, gs: seq<Segment>, n: nat)
    requires Inv(env, chain, s, gs, n) && s.uploader.ContentUp?
    ensures var t := Step(env, chain, s, PutManifest); t.Some? && Inv(env, chain, t.value, gs, n + 1)
  {
    hide WriterInv, FileOf, ManifestOf;
    var s' := Step(env, chain, s, PutManifest).value;
    PrefixValid(env, chain, gs, n + 1);
    var done := gs[..n + 1];
    forall k | 0 <= k < n + 1
      ensures ArchivedAt(env, chain, s'.remote, done, k)
    {
      assert TiledAt(env, chain, done, k);
      if k < n { assert ArchivedAt(env, chain, s.remote, gs[..n], k); }
      ManifestIsNoDataFile(gs[k]);
    }
  }

  lemma DequeueKeeps(env: Env, chain: seq<Checkpoint>, s: System, gs: seq<Segment>, n: nat)
    requires Inv(env, chain, s, gs, n) && s.uploader == Idle && s.queue != []
    ensures var t := Step(env, chain, s, Dequeue); t.Some? && Inv(env, chain, t.value, gs, n)
  {
    hide WriterInv, FileOf, ManifestOf;
    assert QueuedAt(env, chain, s.staging, s.queue[0], gs, n + 0);
    forall k | 0 <= k < |s.queue| - 1
      ensures QueuedAt(env, chain, s.staging, s.queue[1..][k], gs, n + 1 + k)
    {
      assert QueuedAt(env, chain, s.staging, s.queue[k + 1], gs, n + (k + 1));
    }
  }

  lemma StopKeeps(env: Env, chain: seq<Checkpoint>, s: System, gs: seq<Segment>, n: nat)
    requires Inv(env, chain, s, gs, n)
    ensures Inv(env, chain, s.(writer := None), gs, n)
  {
    hide Archived, UploaderInv, Queued;
  }

  /** A crash forgets what was not archived. */
  lemma CrashKeeps(env: Env, chain: seq<Checkpoint>, s: System, gs: seq<Segment>, n: nat, leftover: Files)
    requires Inv(env, chain, s, gs, n)
    ensures Inv(env, chain, Step(env, chain, s, Crash(leftover)).value, gs[..n], n)
  {
    hide Archived, UploaderInv, WriterInv, WriteStep, RestartStep;
    assert gs[..n][..n] == gs[..n];
    assert UploaderInv(env, chain, Idle, leftover, s.remote, gs[..n], n) by {
      IdleUploader(env, chain, leftover, s.remote, gs[..n], n);
    }
  }

  lemma IdleUploader(env: Env, chain: seq<Checkpoint>, staging: Files, remote: Files, gs: seq<Segment>, n: nat)
    requires ValidSegments(env, chain, gs)
    ensures UploaderInv(env, chain, Idle, staging, remote, gs, n)
  {
  }

  /** What is archived decides what `start` resumes from. */
  lemma StartResumes(env: Env, chain: seq<Checkpoint>, remote: Files, gs: seq<Segment>)
    requires Sound(env) && Encodable(env, chain) && ValidSegments(env, chain, gs) && Archived(env, chain, remote, gs)
    ensures StartManifest(env, remote) ==
              if gs == [] && !HasNoDirectories(remote) then None else Some(ManifestOf(env, chain, gs))
  {
    if gs != [] {
      assert ArchivedAt(env, chain, remote, gs, 0);
      OnlyDataFilesInDirectories(gs[0].epoch, gs[0].start, CheckpointContent);
      ManifestRoundTrip(env, ManifestOf(env, chain, gs));
    }
  }

  /** A restart resumes exactly at the end of what was archived. */
  lemma RestartKeeps(env: Env, chain: seq<Checkpoint>, s: System, gs: seq<Segment>, n: nat)
    requires Sound(env) && Encodable(env, chain) && Inv(env, chain, s, gs, n) && RestartStep(env, s).Some?
    ensures n == |gs| && Inv(env, chain, RestartStep(env, s).value, gs, n)
    ensures RestartStep(env, s).value.cursor == NextOf(gs)
  {
    hide WriterInv, FileOf, Encodable;
    assert gs[..n] == gs;
    StartResumes(env, chain, s.remote, gs);
    NewEstablishes(env, chain, gs, s.staging);
    ManifestFields(env, chain, gs);
  }

  /** Everything already listed lies behind the open files. */
  lemma ListedIsBehind(env: Env, chain: seq<Checkpoint>, w: Writer, gs: seq<Segment>, j: nat)
    requires ValidChain(env, chain) && WriterInv(env, chain, w, gs) && j < |gs|
    ensures TiledAt(env, chain, gs, j) && gs[j].start < w.start && gs[j].epoch <= w.epoch
  {
    assert TiledAt(env, chain, gs, j) && TiledAt(env, chain, gs, |gs| - 1);
    if j < |gs| - 1 { StartsIncrease(env, chain, gs, j, |gs| - 1); }
    EpochsMonotone(env, chain, gs[j].start + 1, w.end);
  }

  lemma UpdateAtPrefix(env: Env, chain: seq<Checkpoint>, gs: seq<Segment>, gs': seq<Segment>, k: nat)
    requires ValidSegments(env, chain, gs) && ValidSegments(env, chain, gs') && gs <= gs' && k < |gs|
    ensures TiledAt(env, chain, gs', k) && gs'[k] == gs[k]
    ensures UpdateAt(env, chain, gs', k) == UpdateAt(env, chain, gs, k)
  {
    assert TiledAt(env, chain, gs', k);
    assert gs'[..k + 1] == gs[..k + 1];
  }

  /** What is staged for listed segments survives a write. */
  lemma StagedKept(env: Env, chain: seq<Checkpoint>, l: Local, gs: seq<Segment>, staging: Files, j: nat)
    requires ValidChain(env, chain) && WriterInv(env, chain, l.w, gs) && j < |gs|
    requires StagingKept(l.staging, staging, l.w.epoch, l.w.start)
    ensures TiledAt(env, chain, gs, j)
    ensures forall t: FileType :: HoldsFile(env, chain, l.staging, gs[j], t) ==>
        HoldsFile(env, chain, staging, gs[j], t)
  {
    ListedIsBehind(env, chain, l.w, gs, j);
    forall t: FileType | HoldsFile(env, chain, l.staging, gs[j], t)
      ensures HoldsFile(env, chain, staging, gs[j], t)
    {
      assert SameAt(l.staging, staging, FilePath(gs[j].epoch, gs[j].start, t));
    }
  }

  lemma QueuedAfterWrite(env: Env, chain: seq<Checkpoint>, l: Local, gs: seq<Segment>, l': Local, gs': seq<Segment>,
      base: nat)
    requires ValidChain(env, chain) && WriterInv(env, chain, l.w, gs) && ValidSegments(env, chain, gs)
    requires Queued(env, chain, l.staging, l.queue, gs, base)
    requires HandsOver(env, chain, l, gs, l') && gs' == if l'.queue == l.queue then gs else gs + [OpenSegment(l.w)]
    requires ValidSegments(env, chain, gs')
    ensures Queued(env, chain, l'.staging, l'.queue, gs', base)
  {
    hide WriterInv, FileOf, ManifestOf, Encodable;
    forall k | 0 <= k < |l'.queue|
      ensures QueuedAt(env, chain, l'.staging, l'.queue[k], gs', base + k)
    {
      if k < |l.queue| {
        assert QueuedAt(env, chain, l.staging, l.queue[k], gs, base + k);
        StagedKept(env, chain, l, gs, l'.staging, base + k);
        UpdateAtPrefix(env, chain, gs, gs', base + k);
      } else {
        assert TiledAt(env, chain, gs', base + k);
        assert gs'[..base + k + 1] == gs';
      }
    }
  }

  lemma UploaderAfterWrite(env: Env, chain: seq<Checkpoint>, s: System, l: Local, gs: seq<Segment>, l': Local,
      gs': seq<Segment>, n: nat)
    requires ValidChain(env, chain) && WriterInv(env, chain, l.w, gs) && ValidSegments(env, chain, gs)
    requires l.staging == s.staging
    requires UploaderInv(env, chain, s.uploader, s.staging, s.remote, gs, n) && HandsOver(env, chain, l, gs, l')
    requires ValidSegments(env, chain, gs') && gs <= gs'
    ensures UploaderInv(env, chain, s.uploader, l'.staging, s.remote, gs', n)
  {
    hide WriterInv, FileOf, ManifestOf, Encodable;
    if s.uploader != Idle {
      StagedKept(env, chain, l, gs, l'.staging, n);
      UpdateAtPrefix(env, chain, gs, gs', n);
    }
  }

  /** A write keeps the invariant, with at most one more segment on its way. */
  lemma WriteStepKeeps(env: Env, chain: seq<Checkpoint>, s: System, elapsed: bool, gs: seq<Segment>, n: nat)
      returns (gs': seq<Segment>)
    requires ValidChain(env, chain) && Inv(env, chain, s, gs, n) && WriteStep(env, chain, s, elapsed).Some?
    ensures gs <= gs' && Inv(env, chain, WriteStep(env, chain, s, elapsed).value, gs', n)
  {
    hide FileOf, ManifestOf, WriteSpec, Queued, UploaderInv, Archived, StagingKept, Holds, Encodable;
    var l := Local(s.writer.value, s.staging, s.queue);
    var r := WriteSpec(env, l, chain[s.cursor], elapsed);
    WriteKeeps(env, chain, l, gs, elapsed);
    gs' := if r.0.queue == l.queue then gs else gs + [OpenSegment(l.w)];
    assert gs'[..n] == gs[..n];
    QueuedAfterWrite(env, chain, l, gs, r.0, gs', n + InFlight(s.uploader));
    UploaderAfterWrite(env, chain, s, l, gs, r.0, gs', n);
  }

  /** One step of any kind keeps the invariant, and archived segments stay archived. */
  lemma StepKeeps(env: Env, chain: seq<Checkpoint>, s: System, e: Event, gs: seq<Segment>, n: nat)
      returns (gs': seq<Segment>, n': nat)
    requires Sound(env) && ValidChain(env, chain) && Inv(env, chain, s, gs, n) && Step(env, chain, s, e).Some?
    ensures Inv(env, chain, Step(env, chain, s, e).value, gs', n')
    ensures gs[..n] <= gs'[..n']
  {
    hide Archived, UploaderInv, Queued, WriterInv, WriteStep, RestartStep, UploadStep, Encodable;
    gs', n' := gs, n;
    match e
    case Write(elapsed) => gs' := WriteStepKeeps(env, chain, s, elapsed, gs, n);
    case Dequeue => DequeueKeeps(env, chain, s, gs, n);
    case UploadSummary => UploadSummaryKeeps(env, chain, s, gs, n);
    case UploadContent => UploadContentKeeps(env, chain, s, gs, n);
    case PutManifest => PutManifestKeeps(env, chain, s, gs, n); n' := n + 1;
    case StopWriter => StopKeeps(env, chain, s, gs, n);
    case Crash(leftover) => CrashKeeps(env, chain, s, gs, n, leftover); gs' := gs[..n]; assert gs'[..n] == gs[..n];
    case Restart => RestartKeeps(env, chain, s, gs, n);
  }
}
