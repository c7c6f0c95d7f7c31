/** What an archive of a chain looks like: contiguous segments, each stored as a content and a summary file. */
module ArchiveSegments {
  import opened Options
  import opened Blob
  import opened ArchivePath
  import opened Archive

  /** Checkpoints `start..end`, all of `epoch`, stored in one pair of files. */
  datatype Segment = Segment(epoch: nat, start: nat, end: nat)

  /** The chain the writer tails: consecutive numbers, epochs that grow by at most one, contents matching their digest,
      and nothing too long to encode. */
  ghost predicate ValidChain(env: Env, chain: seq<Checkpoint>) {
    && (forall i | 0 <= i < |chain| :: ValidCheckpoint(env, chain, i))
    && Encodable(env, chain)
  }

  /** No checkpoint of the chain, and no manifest of an archive of it, takes 2^64 bytes. */
  ghost predicate Encodable(env: Env, chain: seq<Checkpoint>) {
    && (forall i | 0 <= i < |chain| :: Fits(env.contents, chain[i].contents))
    && (forall i | 0 <= i < |chain| :: Fits(env.summaries, chain[i].summary))
    && (forall gs | ValidSegments(env, chain, gs) :: Fits(env.manifests, ManifestOf(env, chain, gs)))
  }

  ghost predicate ValidCheckpoint(env: Env, chain: seq<Checkpoint>, i: nat)
    requires i < |chain|
  {
    && chain[i].summary.sequenceNumber == i
    && EpochBefore(chain, i) <= chain[i].summary.epoch <= EpochBefore(chain, i) + 1
    && chain[i].summary.contentDigest == env.contentsDigest(chain[i].contents)
  }

  lemma PartFits(env: Env, chain: seq<Checkpoint>, start: nat, end: nat)
    requires Encodable(env, chain) && start <= end <= |chain|
    ensures forall i | 0 <= i < end - start :: Fits(env.contents, ContentsOf(chain[start..end])[i])
    ensures forall i | 0 <= i < end - start :: Fits(env.summaries, Summaries(chain[start..end])[i])
  {
    hide Fits, ValidSegments;
    assert forall i | 0 <= i < end - start :: chain[start..end][i] == chain[start + i];
  }

  /** Epoch of the checkpoint before `i`; genesis follows epoch 0. */
  function EpochBefore(chain: seq<Checkpoint>, i: nat): nat
    requires i <= |chain|
  {
    if i == 0 then 0 else chain[i - 1].summary.epoch
  }

  lemma {:induction false} EpochsMonotone(env: Env, chain: seq<Checkpoint>, i: nat, j: nat)
    requires ValidChain(env, chain) && i <= j <= |chain|
    ensures EpochBefore(chain, i) <= EpochBefore(chain, j)
    decreases j
  {
    if i < j {
      EpochsMonotone(env, chain, i, j - 1);
      assert ValidCheckpoint(env, chain, j - 1);
    }
  }

  /** The encoded contents of `chain[start..end]`, the part of a content file that counts towards the commit size. */
  function ContentBlobs(env: Env, chain: seq<Checkpoint>, start: nat, end: nat): Bytes
    requires start <= end <= |chain|
  {
    WriteAll(env.contents, ContentsOf(chain[start..end]))
  }

  function SummaryBlobs(env: Env, chain: seq<Checkpoint>, start: nat, end: nat): Bytes
    requires start <= end <= |chain|
  {
    WriteAll(env.summaries, Summaries(chain[start..end]))
  }

  lemma BlobsGrow(env: Env, chain: seq<Checkpoint>, start: nat, end: nat)
    requires start <= end < |chain|
    ensures ContentBlobs(env, chain, start, end + 1)
         == ContentBlobs(env, chain, start, end) + WriteBlob(env.contents.encode(chain[end].contents))
    ensures SummaryBlobs(env, chain, start, end + 1)
         == SummaryBlobs(env, chain, start, end) + WriteBlob(env.summaries.encode(chain[end].summary))
  {
    var c, c' := ContentsOf(chain[start..end]), ContentsOf(chain[start..end + 1]);
    assert c'[..|c'| - 1] == c && c'[|c'| - 1] == chain[end].contents;
    var s, s' := Summaries(chain[start..end]), Summaries(chain[start..end + 1]);
    assert s'[..|s'| - 1] == s && s'[|s'| - 1] == chain[end].summary;
  }

  /** A segment is non-empty, of one epoch, and exceeds the commit size only if it holds a single checkpoint. */
  ghost predicate ValidSegment(env: Env, chain: seq<Checkpoint>, g: Segment) {
    && g.start < g.end <= |chain|
    && (forall i | g.start <= i < g.end :: chain[i].summary.epoch == g.epoch)
    && (g.end - g.start >= 2 ==> |ContentBlobs(env, chain, g.start, g.end)| <= env.commitFileSize)
  }

  function NextOf(gs: seq<Segment>): nat {
    if gs == [] then 0 else gs[|gs| - 1].end
  }

  /** The segments are valid and tile `0..NextOf(gs)` without gap or overlap. */
  ghost predicate ValidSegments(env: Env, chain: seq<Checkpoint>, gs: seq<Segment>) {
    forall k | 0 <= k < |gs| :: TiledAt(env, chain, gs, k)
  }

  ghost predicate TiledAt(env: Env, chain: seq<Checkpoint>, gs: seq<Segment>, k: nat)
    requires k < |gs|
  {
    ValidSegment(env, chain, gs[k]) && gs[k].start == if k == 0 then 0 else gs[k - 1].end
  }

  function Path(g: Segment, t: FileType): string {
    FilePath(g.epoch, g.start, t)
  }

  function FileOf(env: Env, chain: seq<Checkpoint>, g: Segment, t: FileType): Bytes
    requires g.start <= g.end <= |chain|
  {
    var part := chain[g.start..g.end];
    match t
    case CheckpointContent => FinishedFile(env, CHECKPOINT_FILE_MAGIC, env.contents, ContentsOf(part))
    case CheckpointSummary => FinishedFile(env, SUMMARY_FILE_MAGIC, env.summaries, Summaries(part))
  }

  function MetaOf(env: Env, chain: seq<Checkpoint>, g: Segment, t: FileType): FileMetadata
    requires g.start <= g.end <= |chain|
  {
    FileMetadata(t, g.epoch, g.start, g.end, env.sha3(FileOf(env, chain, g, t)))
  }

  /** The manifest that lists exactly `gs`. */
  ghost function ManifestOf(env: Env, chain: seq<Checkpoint>, gs: seq<Segment>): Manifest
    requires ValidSegments(env, chain, gs)
  {
    if gs == [] then Manifest.New(0, 0)
    else
      var g := gs[|gs| - 1];
      assert TiledAt(env, chain, gs, |gs| - 1);
      assert ValidSegments(env, chain, gs[..|gs| - 1]) by { PrefixValid(env, chain, gs, |gs| - 1); }
      ManifestOf(env, chain, gs[..|gs| - 1])
        .Update(g.epoch, g.end, MetaOf(env, chain, g, CheckpointContent), MetaOf(env, chain, g, CheckpointSummary))
  }

  lemma PrefixValid(env: Env, chain: seq<Checkpoint>, gs: seq<Segment>, n: nat)
    requires ValidSegments(env, chain, gs) && n <= |gs|
    ensures ValidSegments(env, chain, gs[..n])
  {
    forall k | 0 <= k < n
      ensures TiledAt(env, chain, gs[..n], k)
    {
      assert TiledAt(env, chain, gs, k);
    }
  }

  lemma ExtendValid(env: Env, chain: seq<Checkpoint>, gs: seq<Segment>, g: Segment)
    requires ValidSegments(env, chain, gs) && ValidSegment(env, chain, g) && g.start == NextOf(gs)
    ensures ValidSegments(env, chain, gs + [g])
    ensures ManifestOf(env, chain, gs + [g]) == ManifestOf(env, chain, gs)
              .Update(g.epoch, g.end, MetaOf(env, chain, g, CheckpointContent),
                  MetaOf(env, chain, g, CheckpointSummary))
  {
    var all := gs + [g];
    forall k | 0 <= k < |all|
      ensures TiledAt(env, chain, all, k)
    {
      if k < |gs| { assert TiledAt(env, chain, gs, k); }
    }
    assert all[..|all| - 1] == gs;
  }

  /** Starts strictly increase, so a later segment never shares a path with an earlier one. */
  lemma {:induction false} StartsIncrease(env: Env, chain: seq<Checkpoint>, gs: seq<Segment>, j: nat, k: nat)
    requires ValidSegments(env, chain, gs) && j < k < |gs|
    ensures gs[j].start < gs[j].end <= gs[k].start
    decreases k
  {
    assert TiledAt(env, chain, gs, j) && TiledAt(env, chain, gs, k);
    if j < k - 1 {
      StartsIncrease(env, chain, gs, j, k - 1);
      assert TiledAt(env, chain, gs, k - 1);
    }
  }

  lemma ManifestFields(env: Env, chain: seq<Checkpoint>, gs: seq<Segment>)
    requires ValidSegments(env, chain, gs)
    ensures ManifestOf(env, chain, gs).next == NextOf(gs) <= |chain|
    ensures ManifestOf(env, chain, gs).epoch == EpochBefore(chain, NextOf(gs))
  {
    if gs != [] { assert TiledAt(env, chain, gs, |gs| - 1); }
  }

  lemma {:induction false} ManifestVersion(env: Env, chain: seq<Checkpoint>, gs: seq<Segment>)
    requires ValidSegments(env, chain, gs)
    ensures ManifestOf(env, chain, gs).archiveVersion == 1
  {
    hide FileOf;
    if gs != [] {
      PrefixValid(env, chain, gs, |gs| - 1);
      ManifestVersion(env, chain, gs[..|gs| - 1]);
    }
  }

  /** The listed files, in order: a content then a summary file per segment. */
  lemma {:induction false} ManifestFiles(env: Env, chain: seq<Checkpoint>, gs: seq<Segment>, k: nat)
    requires ValidSegments(env, chain, gs)
    ensures |ManifestOf(env, chain, gs).files| == 2 * |gs|
    ensures k < |gs| ==> ListedAt(env, chain, gs[k], ManifestOf(env, chain, gs).files, k)
  {
    if gs != [] {
      var last := |gs| - 1;
      PrefixValid(env, chain, gs, last);
      ManifestFiles(env, chain, gs[..last], k);
      assert TiledAt(env, chain, gs, last);
    }
  }

  ghost predicate ListedAt(env: Env, chain: seq<Checkpoint>, g: Segment, files: seq<FileMetadata>, k: nat) {
    && ValidSegment(env, chain, g)
    && 2 * k + 1 < |files|
    && files[2 * k] == MetaOf(env, chain, g, CheckpointContent)
    && files[2 * k + 1] == MetaOf(env, chain, g, CheckpointSummary)
  }
}

/** `CheckpointWriter` and the tail loop that drives it. */
module ArchiveWriter {
  import opened Options
  import opened Words
  import opened Blob
  import opened ArchivePath
  import opened Archive
  import opened ArchiveSegments

  datatype Writer = Writer(
    epoch: nat,
    start: nat,
    end: nat,
    contentBuf: Bytes,
    summaryBuf: Bytes,
    bufOffset: nat,
    manifest: Manifest
  )

  /** The writer with the two things it shares with the uploader: the staging directory and the channel. */
  datatype Local = Local(w: Writer, staging: Files, queue: seq<CheckpointUpdates>)

  // ----- what each operation does, as functions of the local state

  function RemoveEpochDir(staging: Files, epoch: nat): Files {
    map p | p in staging && !InEpochDir(p, epoch) :: staging[p]
  }

  /** `next_file` twice: create (or truncate) the open pair of files. */
  function OpenFilesSpec(env: Env, l: Local): Local {
    var (content, summary) := (Header(env, CHECKPOINT_FILE_MAGIC), Header(env, SUMMARY_FILE_MAGIC));
    Local(
      l.w.(contentBuf := content, summaryBuf := summary),
      l.staging[FilePath(l.w.epoch, l.w.start, CheckpointContent) := content]
               [FilePath(l.w.epoch, l.w.start, CheckpointSummary) := summary],
      l.queue)
  }

  /** `CheckpointWriter::new`. */
  function NewSpec(env: Env, manifest: Manifest, staging: Files): Local {
    OpenFilesSpec(env, Local(
      Writer(manifest.epoch, manifest.next, manifest.next, [], [], 0, manifest),
      RemoveEpochDir(staging, manifest.epoch),
      []))
  }

  predicate Writable(w: Writer) {
    |w.contentBuf| >= HEADER_BYTES && |w.summaryBuf| >= HEADER_BYTES
  }

  /** `cut`: finish both files, extend the manifest, hand both to the uploader. Nothing happens on an empty range. */
  function CutSpec(env: Env, l: Local): (r: Local)
    requires Writable(l.w)
    ensures Writable(r.w)
  {
    if l.w.start >= l.w.end then l
    else
      var (w, content, summary) := (l.w, Compress(env, l.w.contentBuf), Compress(env, l.w.summaryBuf));
      var contentMeta := FileMetadata(CheckpointContent, w.epoch, w.start, w.end, env.sha3(content));
      var summaryMeta := FileMetadata(CheckpointSummary, w.epoch, w.start, w.end, env.sha3(summary));
      var manifest := w.manifest.Update(w.epoch, w.end, contentMeta, summaryMeta);
      Local(
        w.(manifest := manifest),
        l.staging[contentMeta.Path() := content][summaryMeta.Path() := summary],
        l.queue + [CheckpointUpdates(contentMeta, summaryMeta, manifest)])
  }

  function ResetSpec(env: Env, l: Local): Local {
    OpenFilesSpec(env, l.(w := l.w.(start := l.w.end, bufOffset := MAGIC_BYTES)))
  }

  function NextEpochSpec(env: Env, l: Local): Local
    requires Writable(l.w)
  {
    var c := CutSpec(env, l);
    ResetSpec(env, c.(w := c.w.(epoch := c.w.epoch + 1), staging := RemoveEpochDir(c.staging, c.w.epoch + 1)))
  }

  function AppendSpec(env: Env, l: Local, c: Checkpoint): Local {
    var blob := WriteBlob(env.contents.encode(c.contents));
    l.(w := l.w.(
      contentBuf := l.w.contentBuf + blob,
      bufOffset := l.w.bufOffset + |blob|,
      summaryBuf := l.w.summaryBuf + WriteBlob(env.summaries.encode(c.summary))))
  }

  /** The end of every write: append to whatever files are open by then, and count the checkpoint. */
  function FinishSpec(env: Env, l: Local, c: Checkpoint): (Local, Status) {
    var written := AppendSpec(env, l, c);
    if written.w.end == U64_MAX then (written, Failed)
    else (written.(w := written.w.(end := written.w.end + 1)), Ok)
  }

  /** `write_as_blob` once the epoch is right; `elapsed` is the outcome of the commit-duration test. */
  function WriteInEpochSpec(env: Env, l: Local, c: Checkpoint, elapsed: bool): (Local, Status)
    requires Writable(l.w)
  {
    if c.summary.epoch != l.w.epoch || c.summary.contentDigest != env.contentsDigest(c.contents) then (l, Panicked)
    else
      var full := l.w.bufOffset + BlobSize(env.contents.encode(c.contents)) > env.commitFileSize;
      FinishSpec(env, if full || elapsed then ResetSpec(env, CutSpec(env, l)) else l, c)
  }

  /** `write_as_blob`. */
  function WriteSpec(env: Env, l: Local, c: Checkpoint, elapsed: bool): (Local, Status)
    requires Writable(l.w)
  {
    if c.summary.sequenceNumber != l.w.end then (l, Panicked)
    else if l.w.epoch == U64_MAX then (l, Failed)
    else if c.summary.epoch == l.w.epoch + 1 then WriteInEpochSpec(env, NextEpochSpec(env, l), c, elapsed)
    else WriteInEpochSpec(env, l, c, elapsed)
  }

  // ----- the invariant of the open file

  /** What the offset counts besides the blobs of the open range. */
  function StartOffset(env: Env, chain: seq<Checkpoint>, w: Writer): int
    requires w.start <= w.end <= |chain|
  {
    w.bufOffset - |ContentBlobs(env, chain, w.start, w.end)|
  }

  /** The open files hold exactly `chain[w.start..w.end]`, all of the writer's epoch, within the commit size;
      the writer's manifest lists the segments `gs`, which end where the open files start. */
  ghost predicate OpenInv(env: Env, chain: seq<Checkpoint>, w: Writer, gs: seq<Segment>) {
    && w.start <= w.end <= |chain|
    && (forall i | w.start <= i < w.end :: chain[i].summary.epoch == w.epoch)
    && w.contentBuf == Header(env, CHECKPOINT_FILE_MAGIC) + ContentBlobs(env, chain, w.start, w.end)
    && w.summaryBuf == Header(env, SUMMARY_FILE_MAGIC) + SummaryBlobs(env, chain, w.start, w.end)
    && StartOffset(env, chain, w) in {0, MAGIC_BYTES}
    && (w.end - w.start >= 2 ==> |ContentBlobs(env, chain, w.start, w.end)| <= env.commitFileSize)
    && ValidSegments(env, chain, gs)
    && w.manifest == ManifestOf(env, chain, gs)
    && w.start == NextOf(gs)
  }

  /** The invariant between writes: the writer is in the epoch of the last checkpoint it wrote. */
  ghost predicate WriterInv(env: Env, chain: seq<Checkpoint>, w: Writer, gs: seq<Segment>) {
    OpenInv(env, chain, w, gs) && w.epoch == EpochBefore(chain, w.end)
  }

  function OpenSegment(w: Writer): Segment {
    Segment(w.epoch, w.start, w.end)
  }

  /** The segments listed after a cut. */
  function Listed(w: Writer, gs: seq<Segment>): seq<Segment> {
    if w.start < w.end then gs + [OpenSegment(w)] else gs
  }

  function UpdateOf(env: Env, chain: seq<Checkpoint>, g: Segment, m: Manifest): CheckpointUpdates
    requires g.start <= g.end <= |chain|
  {
    CheckpointUpdates(MetaOf(env, chain, g, CheckpointContent), MetaOf(env, chain, g, CheckpointSummary), m)
  }

  /** Starting from any manifest of the archive, and any leftovers in staging, establishes the invariant. */
  lemma NewEstablishes(env: Env, chain: seq<Checkpoint>, gs: seq<Segment>, staging: Files)
    requires ValidSegments(env, chain, gs)
    ensures var l := NewSpec(env, ManifestOf(env, chain, gs), staging);
            WriterInv(env, chain, l.w, gs) && l.w.start == l.w.end && StartOffset(env, chain, l.w) == 0 && l.queue == []
  {
    ManifestFields(env, chain, gs);
    assert chain[NextOf(gs)..NextOf(gs)] == [];
  }

  // ----- what stays in the staging directory

  ghost predicate SameAt(a: Files, b: Files, p: string) {
    (p in a <==> p in b) && (p in a ==> a[p] == b[p])
  }

  /** Files that start before `start`, in epochs up to `epoch`, are untouched. */
  ghost predicate StagingKept(a: Files, b: Files, epoch: nat, start: nat) {
    forall e: nat, s: nat, t: FileType | e <= epoch && s < start :: SameAt(a, b, FilePath(e, s, t))
  }

  lemma PutKeeps(staging: Files, e: nat, s: nat, t: FileType, file: Bytes, epoch: nat, start: nat)
    requires start <= s
    ensures StagingKept(staging, staging[FilePath(e, s, t) := file], epoch, start)
  {
    forall e': nat, s': nat, t': FileType | e' <= epoch && s' < start
      ensures SameAt(staging, staging[FilePath(e, s, t) := file], FilePath(e', s', t'))
    {
      if FilePath(e, s, t) == FilePath(e', s', t') { FilePathInjective(e, s, t, e', s', t'); }
    }
  }

  lemma RemoveKeeps(staging: Files, removed: nat, epoch: nat, start: nat)
    requires epoch < removed
    ensures StagingKept(staging, RemoveEpochDir(staging, removed), epoch, start)
  {
    forall e: nat, s: nat, t: FileType | e <= epoch && s < start
      ensures SameAt(staging, RemoveEpochDir(staging, removed), FilePath(e, s, t))
    {
      EpochDirExact(e, s, t, removed);
    }
  }

  lemma KeptTransitive(a: Files, b: Files, c: Files, epoch: nat, start: nat, epoch': nat, start': nat)
    requires StagingKept(a, b, epoch, start) && StagingKept(b, c, epoch', start') && epoch <= epoch' && start <= start'
    ensures StagingKept(a, c, epoch, start)
  {
    forall e: nat, s: nat, t: FileType | e <= epoch && s < start
      ensures SameAt(a, c, FilePath(e, s, t))
    {
      assert SameAt(a, b, FilePath(e, s, t)) && SameAt(b, c, FilePath(e, s, t));
    }
  }

  lemma OpenFilesKeeps(env: Env, l: Local, epoch: nat, start: nat)
    requires start <= l.w.start
    ensures StagingKept(l.staging, OpenFilesSpec(env, l).staging, epoch, start)
  {
    var content, summary := Header(env, CHECKPOINT_FILE_MAGIC), Header(env, SUMMARY_FILE_MAGIC);
    var mid := l.staging[FilePath(l.w.epoch, l.w.start, CheckpointContent) := content];
    PutKeeps(l.staging, l.w.epoch, l.w.start, CheckpointContent, content, epoch, start);
    PutKeeps(mid, l.w.epoch, l.w.start, CheckpointSummary, summary, epoch, start);
    KeptTransitive(l.staging, mid, OpenFilesSpec(env, l).staging, epoch, start, epoch, start);
  }

  /** Clearing a directory removes the files of that epoch, all of them, and no others. */
  lemma ClearsEpoch(staging: Files, removed: nat, e: nat, s: nat, t: FileType)
    ensures FilePath(e, s, t) in RemoveEpochDir(staging, removed) <==> FilePath(e, s, t) in staging && e != removed
  {
    EpochDirExact(e, s, t, removed);
  }

  /** Opening creates the two files of the range start, each with its header, and touches no other file. */
  lemma OpensPair(env: Env, l: Local, e: nat, s: nat, t: FileType)
    ensures var p := FilePath(e, s, t);
            if (e, s) == (l.w.epoch, l.w.start) then
              && p in OpenFilesSpec(env, l).staging
              && OpenFilesSpec(env, l).staging[p]
                 == Header(env, if t == CheckpointContent then CHECKPOINT_FILE_MAGIC else SUMMARY_FILE_MAGIC)
            else SameAt(l.staging, OpenFilesSpec(env, l).staging, p)
  {
    hide Header;
    var content, summary :=
      FilePath(l.w.epoch, l.w.start, CheckpointContent), FilePath(l.w.epoch, l.w.start, CheckpointSummary);
    if FilePath(e, s, t) == content { FilePathInjective(e, s, t, l.w.epoch, l.w.start, CheckpointContent); }
    if FilePath(e, s, t) == summary { FilePathInjective(e, s, t, l.w.epoch, l.w.start, CheckpointSummary); }
  }

  /** Of the writer's epoch, exactly the two open files are staged. */
  ghost predicate OnlyOpenPair(l: Local) {
    forall s: nat, t: FileType :: FilePath(l.w.epoch, s, t) in l.staging <==> s == l.w.start
  }

  /** A new writer and one that moves to the next epoch start from a cleared directory. */
  lemma StartsCleared(env: Env, l: Local, manifest: Manifest, staging: Files)
    requires Writable(l.w)
    ensures OnlyOpenPair(NewSpec(env, manifest, staging)) && OnlyOpenPair(NextEpochSpec(env, l))
  {
    hide Header, FilePath, Compress;
    var cleared := RemoveEpochDir(staging, manifest.epoch);
    var opening := Local(Writer(manifest.epoch, manifest.next, manifest.next, [], [], 0, manifest), cleared, []);
    OpensCleared(env, opening, staging);
    var c := CutSpec(env, l);
    var next := Local(c.w.(epoch := c.w.epoch + 1, start := c.w.end, bufOffset := MAGIC_BYTES),
                      RemoveEpochDir(c.staging, c.w.epoch + 1), c.queue);
    OpensCleared(env, next, c.staging);
  }

  lemma OpensCleared(env: Env, l: Local, staging: Files)
    requires l.staging == RemoveEpochDir(staging, l.w.epoch)
    ensures OnlyOpenPair(OpenFilesSpec(env, l))
  {
    hide Header, OpenFilesSpec, RemoveEpochDir, FilePath;
    forall s: nat, t: FileType
      ensures FilePath(l.w.epoch, s, t) in OpenFilesSpec(env, l).staging <==> s == l.w.start
    {
      ClearsEpoch(staging, l.w.epoch, l.w.epoch, s, t);
      OpensPair(env, l, l.w.epoch, s, t);
    }
    OpenedSame(env, l);
  }

  lemma OpenedSame(env: Env, l: Local)
    ensures OpenFilesSpec(env, l).w.epoch == l.w.epoch && OpenFilesSpec(env, l).w.start == l.w.start
  {
  }

  // ----- what a cut hands over

  ghost predicate HoldsFile(env: Env, chain: seq<Checkpoint>, files: Files, g: Segment, t: FileType)
    requires g.start <= g.end <= |chain|
  {
    Path(g, t) in files && files[Path(g, t)] == FileOf(env, chain, g, t)
  }

  /** Both finished files of `g` are in `files`. */
  ghost predicate Holds(env: Env, chain: seq<Checkpoint>, files: Files, g: Segment)
    requires g.start <= g.end <= |chain|
  {
    HoldsFile(env, chain, files, g, CheckpointContent) && HoldsFile(env, chain, files, g, CheckpointSummary)
  }

  lemma HoldsKept(env: Env, chain: seq<Checkpoint>, a: Files, b: Files, g: Segment, epoch: nat, start: nat)
    requires g.start <= g.end <= |chain| && Holds(env, chain, a, g)
    requires StagingKept(a, b, epoch, start) && g.epoch <= epoch && g.start < start
    ensures Holds(env, chain, b, g)
  {
    assert SameAt(a, b, FilePath(g.epoch, g.start, CheckpointContent));
    assert SameAt(a, b, FilePath(g.epoch, g.start, CheckpointSummary));
  }

  /** The only thing `l'` may have handed over is the open segment of `l`, with its two finished files in staging
      and a manifest that lists it last; everything staged for earlier segments is untouched. */
  ghost predicate HandsOver(env: Env, chain: seq<Checkpoint>, l: Local, gs: seq<Segment>, l': Local)
    requires l.w.start <= l.w.end <= |chain|
  {
    var g := OpenSegment(l.w);
    && (|| l'.queue == l.queue
        || (&& l.w.start < l.w.end
            && ValidSegments(env, chain, gs + [g])
            && l'.queue == l.queue + [UpdateOf(env, chain, g, ManifestOf(env, chain, gs + [g]))]
            && Holds(env, chain, l'.staging, g)))
    && StagingKept(l.staging, l'.staging, l.w.epoch, l.w.start)
  }

  /** Finishing the open buffers yields the files of the open segment. */
  lemma OpenBuffersFinish(env: Env, chain: seq<Checkpoint>, w: Writer, gs: seq<Segment>)
    requires OpenInv(env, chain, w, gs)
    ensures Compress(env, w.contentBuf) == FileOf(env, chain, OpenSegment(w), CheckpointContent)
    ensures Compress(env, w.summaryBuf) == FileOf(env, chain, OpenSegment(w), CheckpointSummary)
  {
    hide Compress, Header, WriteAll;
  }

  /** What a cut is, in terms of the segment it closes. */
  lemma CutIs(env: Env, chain: seq<Checkpoint>, l: Local, gs: seq<Segment>)
    requires OpenInv(env, chain, l.w, gs) && l.w.start < l.w.end
    ensures var g := OpenSegment(l.w);
            && ValidSegments(env, chain, gs + [g])
            && CutSpec(env, l) == Local(
                 l.w.(manifest := ManifestOf(env, chain, gs + [g])),
                 l.staging[Path(g, CheckpointContent) := FileOf(env, chain, g, CheckpointContent)]
                          [Path(g, CheckpointSummary) := FileOf(env, chain, g, CheckpointSummary)],
                 l.queue + [UpdateOf(env, chain, g, ManifestOf(env, chain, gs + [g]))])
  {
    var g := OpenSegment(l.w);
    assert ValidSegment(env, chain, g);
    ExtendValid(env, chain, gs, g);
    OpenBuffersFinish(env, chain, l.w, gs);
    hide OpenInv, FileOf, Compress, ManifestOf, ValidSegment, FilePath;
  }

  lemma CutHandsOver(env: Env, chain: seq<Checkpoint>, l: Local, gs: seq<Segment>)
    requires OpenInv(env, chain, l.w, gs) && l.w.start < l.w.end
    ensures var (g, c) := (OpenSegment(l.w), CutSpec(env, l));
            && ValidSegments(env, chain, gs + [g])
            && c.w == l.w.(manifest := ManifestOf(env, chain, gs + [g]))
            && |c.queue| == |l.queue| + 1
            && HandsOver(env, chain, l, gs, c)
  {
    CutIs(env, chain, l, gs);
    var g, c := OpenSegment(l.w), CutSpec(env, l);
    assert g.start <= g.end <= |chain|;
    hide OpenInv, CutSpec, FileOf, ManifestOf, ValidSegments, ValidSegment, Path, UpdateOf, StagingKept;
    PutPair(l.staging, g, FileOf(env, chain, g, CheckpointContent), FileOf(env, chain, g, CheckpointSummary));
  }

  lemma PutPair(staging: Files, g: Segment, content: Bytes, summary: Bytes)
    ensures var both := staging[Path(g, CheckpointContent) := content][Path(g, CheckpointSummary) := summary];
            && StagingKept(staging, both, g.epoch, g.start)
            && both[Path(g, CheckpointContent)] == content && both[Path(g, CheckpointSummary)] == summary
  {
    hide StagingKept, FilePath;
    var mid := staging[Path(g, CheckpointContent) := content];
    var both := mid[Path(g, CheckpointSummary) := summary];
    PutKeeps(staging, g.epoch, g.start, CheckpointContent, content, g.epoch, g.start);
    PutKeeps(mid, g.epoch, g.start, CheckpointSummary, summary, g.epoch, g.start);
    KeptTransitive(staging, mid, both, g.epoch, g.start, g.epoch, g.start);
    if Path(g, CheckpointContent) == Path(g, CheckpointSummary) {
      FilePathInjective(g.epoch, g.start, CheckpointContent, g.epoch, g.start, CheckpointSummary);
    }
  }

  /** Later changes to staging that only touch later files keep a handover intact. */
  lemma HandoverKept(env: Env, chain: seq<Checkpoint>, l: Local, gs: seq<Segment>, mid: Local, l': Local, epoch: nat)
    requires l.w.start <= l.w.end <= |chain|
    requires HandsOver(env, chain, l, gs, mid) && l'.queue == mid.queue
    requires StagingKept(mid.staging, l'.staging, epoch, l.w.end) && l.w.epoch <= epoch
    ensures HandsOver(env, chain, l, gs, l')
  {
    KeptTransitive(l.staging, mid.staging, l'.staging, l.w.epoch, l.w.start, epoch, l.w.end);
    if mid.queue != l.queue {
      HoldsKept(env, chain, mid.staging, l'.staging, OpenSegment(l.w), epoch, l.w.end);
    }
  }

  /** A cut followed by a reset leaves empty files open at the end of the listed segments. */
  lemma CutResetKeeps(env: Env, chain: seq<Checkpoint>, l: Local, gs: seq<Segment>)
    requires OpenInv(env, chain, l.w, gs)
    ensures var l' := ResetSpec(env, CutSpec(env, l));
            && l'.w.start == l'.w.end == l.w.end && l'.w.epoch == l.w.epoch
            && OpenInv(env, chain, l'.w, Listed(l.w, gs))
            && |l'.queue| == |l.queue| + (if l.w.start < l.w.end then 1 else 0)
            && (l'.queue == l.queue <==> l.w.start == l.w.end)
            && StartOffset(env, chain, l'.w) == MAGIC_BYTES
            && HandsOver(env, chain, l, gs, l')
  {
    var c := CutSpec(env, l);
    if l.w.start < l.w.end { CutHandsOver(env, chain, l, gs); } else { NothingCut(env, l); }
    ResetEmpty(env, chain, l.w, gs, c);
    hide OpenInv, CutSpec, ManifestOf, Header, StartOffset, HandsOver, OpenFilesSpec;
    OpenFilesKeeps(env, c.(w := c.w.(start := c.w.end, bufOffset := MAGIC_BYTES)), l.w.epoch, l.w.end);
    HandoverKept(env, chain, l, gs, c, ResetSpec(env, c), l.w.epoch);
  }

  /** Empty files at the end of the listed segments, by a writer that lists them. */
  lemma ResetEmpty(env: Env, chain: seq<Checkpoint>, w: Writer, gs: seq<Segment>, c: Local)
    requires OpenInv(env, chain, w, gs) && ValidSegments(env, chain, Listed(w, gs))
    requires c.w == w.(manifest := ManifestOf(env, chain, Listed(w, gs)))
    ensures var l' := ResetSpec(env, c);
            && l'.w.start == l'.w.end == w.end && l'.w.epoch == w.epoch && l'.queue == c.queue
            && OpenInv(env, chain, l'.w, Listed(w, gs)) && StartOffset(env, chain, l'.w) == MAGIC_BYTES
  {
    hide ValidSegments, ManifestOf, FilePath;
    assert chain[w.end..w.end] == [];
  }

  lemma NextEpochKeeps(env: Env, chain: seq<Checkpoint>, l: Local, gs: seq<Segment>)
    requires OpenInv(env, chain, l.w, gs)
    ensures var l' := NextEpochSpec(env, l);
            && l'.w.start == l'.w.end == l.w.end && l'.w.epoch == l.w.epoch + 1
            && OpenInv(env, chain, l'.w, Listed(l.w, gs))
            && |l'.queue| == |l.queue| + (if l.w.start < l.w.end then 1 else 0)
            && (l'.queue == l.queue <==> l.w.start == l.w.end)
            && StartOffset(env, chain, l'.w) == MAGIC_BYTES
            && HandsOver(env, chain, l, gs, l')
  {
    var c, l' := CutSpec(env, l), NextEpochSpec(env, l);
    CutResetKeeps(env, chain, l, gs);
    NextEpochOpens(env, l);
    assert OpenInv(env, chain, l'.w, Listed(l.w, gs)) && StartOffset(env, chain, l'.w) == MAGIC_BYTES by {
      EmptyInAnyEpoch(env, chain, ResetSpec(env, c).w, Listed(l.w, gs), l.w.epoch + 1);
    }
    assert HandsOver(env, chain, l, gs, c) by {
      if l.w.start < l.w.end { CutHandsOver(env, chain, l, gs); } else { NothingCut(env, l); }
    }
    hide OpenInv, CutSpec, ResetSpec, NextEpochSpec, HandsOver, OpenFilesSpec, ManifestOf, Header, StartOffset;
    var opening := Local(c.w.(epoch := c.w.epoch + 1, start := c.w.end, bufOffset := MAGIC_BYTES),
                         RemoveEpochDir(c.staging, c.w.epoch + 1), c.queue);
    RemoveKeeps(c.staging, c.w.epoch + 1, l.w.epoch, l.w.end);
    OpenFilesKeeps(env, opening, l.w.epoch, l.w.end);
    KeptTransitive(c.staging, opening.staging, l'.staging, l.w.epoch, l.w.end, l.w.epoch, l.w.end);
    HandoverKept(env, chain, l, gs, c, l', l.w.epoch);
  }

  lemma NothingCut(env: Env, l: Local)
    requires Writable(l.w) && l.w.start >= l.w.end
    ensures CutSpec(env, l) == l
  {
  }

  lemma NextEpochOpens(env: Env, l: Local)
    requires Writable(l.w)
    ensures var (c, l') := (CutSpec(env, l), NextEpochSpec(env, l));
            && c.w.epoch == l.w.epoch && c.w.end == l.w.end && c.w.start == l.w.start
            && l' == OpenFilesSpec(env, Local(c.w.(epoch := c.w.epoch + 1, start := c.w.end, bufOffset := MAGIC_BYTES),
                                              RemoveEpochDir(c.staging, c.w.epoch + 1), c.queue))
            && l'.queue == c.queue == ResetSpec(env, c).queue
            && l'.w == ResetSpec(env, c).w.(epoch := l.w.epoch + 1)
            && l'.w.start == l'.w.end == l.w.end && l'.w.epoch == l.w.epoch + 1
  {
    hide Header, Compress, FilePath;
  }

  lemma EmptyInAnyEpoch(env: Env, chain: seq<Checkpoint>, w: Writer, gs: seq<Segment>, epoch: nat)
    requires OpenInv(env, chain, w, gs) && w.start == w.end
    ensures OpenInv(env, chain, w.(epoch := epoch), gs)
    ensures StartOffset(env, chain, w.(epoch := epoch)) == StartOffset(env, chain, w)
  {
  }

  /** Appending the next checkpoint of the writer's epoch, when it fits or the files are empty. */
  lemma AppendKeeps(env: Env, chain: seq<Checkpoint>, l: Local, gs: seq<Segment>)
    requires OpenInv(env, chain, l.w, gs) && l.w.end < |chain| && chain[l.w.end].summary.epoch == l.w.epoch
    requires l.w.start == l.w.end
          || l.w.bufOffset + BlobSize(env.contents.encode(chain[l.w.end].contents)) <= env.commitFileSize
    ensures WriterInv(env, chain, AppendSpec(env, l, chain[l.w.end]).w.(end := l.w.end + 1), gs)
  {
    hide WriteBlob, BlobSize, ManifestOf, ValidSegments, ContentBlobs, SummaryBlobs, Header;
    BlobsGrow(env, chain, l.w.start, l.w.end);
    BlobSizeIsLength(env.contents.encode(chain[l.w.end].contents));
  }

  /** What a write leaves behind: no assertion tripped, the checkpoint appended, at most the open segment handed
      over. */
  ghost predicate GoodWrite(env: Env, chain: seq<Checkpoint>, l: Local, gs: seq<Segment>, r: (Local, Status))
    requires l.w.start <= l.w.end <= |chain|
  {
    && r.1 != Panicked
    && (r.1 == Failed ==> l.w.epoch == U64_MAX || l.w.end == U64_MAX)
    && HandsOver(env, chain, l, gs, r.0)
    && (r.1 == Ok ==>
          && r.0.w.end == l.w.end + 1
          && WriterInv(env, chain, r.0.w, if r.0.queue == l.queue then gs else Listed(l.w, gs)))
  }

  lemma FinishKeeps(env: Env, chain: seq<Checkpoint>, l: Local, gs: seq<Segment>, ready: Local)
    requires OpenInv(env, chain, l.w, gs) && l.w.end < |chain| && ready.w.end == l.w.end
    requires HandsOver(env, chain, l, gs, ready)
    requires WriterInv(env, chain, AppendSpec(env, ready, chain[l.w.end]).w.(end := l.w.end + 1),
                       if ready.queue == l.queue then gs else Listed(l.w, gs))
    ensures GoodWrite(env, chain, l, gs, FinishSpec(env, ready, chain[l.w.end]))
  {
    var r, written := FinishSpec(env, ready, chain[l.w.end]), AppendSpec(env, ready, chain[l.w.end]);
    assert r.0.staging == ready.staging && r.0.queue == ready.queue;
    assert HandsOver(env, chain, l, gs, r.0);
    assert r.1 == Ok ==> r.0.w == written.w.(end := l.w.end + 1);
  }

  lemma WriteInEpochKeeps(env: Env, chain: seq<Checkpoint>, l: Local, gs: seq<Segment>, elapsed: bool)
    requires ValidChain(env, chain) && OpenInv(env, chain, l.w, gs)
    requires l.w.end < |chain| && chain[l.w.end].summary.epoch == l.w.epoch
    ensures GoodWrite(env, chain, l, gs, WriteInEpochSpec(env, l, chain[l.w.end], elapsed))
    ensures WriteInEpochSpec(env, l, chain[l.w.end], elapsed).1 == Failed ==> l.w.end == U64_MAX
  {
    hide OpenSegment, HandsOver, WriterInv, ManifestOf, CutSpec, ResetSpec, Header, ContentBlobs, SummaryBlobs,
        Encodable;
    assert ValidCheckpoint(env, chain, l.w.end);
    var full := l.w.bufOffset + BlobSize(env.contents.encode(chain[l.w.end].contents)) > env.commitFileSize;
    if full || elapsed {
      var ready := ResetSpec(env, CutSpec(env, l));
      CutResetKeeps(env, chain, l, gs);
      AppendKeeps(env, chain, ready, Listed(l.w, gs));
      FinishKeeps(env, chain, l, gs, ready);
    } else {
      AppendKeeps(env, chain, l, gs);
      FinishKeeps(env, chain, l, gs, l);
    }
  }

  /** Every write of the next checkpoint of a valid chain keeps the invariant, never trips an assertion of the
      source, and hands over at most one segment, the open one. */
  lemma WriteKeeps(env: Env, chain: seq<Checkpoint>, l: Local, gs: seq<Segment>, elapsed: bool)
    requires ValidChain(env, chain) && WriterInv(env, chain, l.w, gs) && l.w.end < |chain|
    ensures GoodWrite(env, chain, l, gs, WriteSpec(env, l, chain[l.w.end], elapsed))
  {
    hide WriteInEpochSpec, NextEpochSpec, ManifestOf, Holds, UpdateOf, Header, ContentBlobs, SummaryBlobs, Encodable;
    assert ValidCheckpoint(env, chain, l.w.end);
    if chain[l.w.end].summary.epoch == l.w.epoch {
      WriteInEpochKeeps(env, chain, l, gs, elapsed);
    } else if l.w.epoch != U64_MAX {
      var next := NextEpochSpec(env, l);
      NextEpochKeeps(env, chain, l, gs);
      var r := WriteInEpochSpec(env, next, chain[l.w.end], elapsed);
      WriteInEpochKeeps(env, chain, next, Listed(l.w, gs), elapsed);
      HandoverKept(env, chain, l, gs, next, r.0, next.w.epoch);
    }
  }

  /** When the commit timer has expired, a write that succeeds hands over whatever was open. */
  lemma TimerForcesCut(env: Env, chain: seq<Checkpoint>, l: Local, gs: seq<Segment>)
    requires ValidChain(env, chain) && WriterInv(env, chain, l.w, gs) && l.w.end < |chain| && l.w.epoch != U64_MAX
    ensures |WriteSpec(env, l, chain[l.w.end], true).0.queue| == |l.queue| + if l.w.start < l.w.end then 1 else 0
  {
    hide HandsOver, NextEpochSpec, CutSpec, ResetSpec, ManifestOf, Encodable;
    assert ValidCheckpoint(env, chain, l.w.end);
    if chain[l.w.end].summary.epoch == l.w.epoch {
      CutResetKeeps(env, chain, l, gs);
    } else {
      NextEpochKeeps(env, chain, l, gs);
      CutResetKeeps(env, chain, NextEpochSpec(env, l), Listed(l.w, gs));
    }
  }

  /** The next checkpoint calls for new files: the timer expired, its epoch is another, or its blob does not fit. */
  ghost predicate CallsForCut(env: Env, chain: seq<Checkpoint>, w: Writer, elapsed: bool)
    requires w.start <= w.end < |chain|
  {
    var c := chain[w.end];
    || elapsed
    || c.summary.epoch != w.epoch
    || StartOffset(env, chain, w) + |ContentBlobs(env, chain, w.start, w.end)|
       + |WriteBlob(env.contents.encode(c.contents))| > env.commitFileSize
  }

  /** Where a write leaves the range and the offset: new files at the old end exactly when they are called for, the
      open ones otherwise. */
  ghost predicate MovesTo(env: Env, chain: seq<Checkpoint>, l: Local, cut: bool, r: Local)
    requires l.w.start <= l.w.end < |chain|
  {
    && r.w.start == (if cut then l.w.end else l.w.start) && r.w.end == l.w.end + 1
    && StartOffset(env, chain, r.w) == (if cut then MAGIC_BYTES else StartOffset(env, chain, l.w))
    && (r.queue != l.queue <==> cut && l.w.start < l.w.end)
    && (!cut ==> r.staging == l.staging)
  }

  lemma FinishMoves(env: Env, chain: seq<Checkpoint>, l: Local, gs: seq<Segment>)
    requires OpenInv(env, chain, l.w, gs) && l.w.end < |chain| && FinishSpec(env, l, chain[l.w.end]).1 == Ok
    ensures MovesTo(env, chain, l, false, FinishSpec(env, l, chain[l.w.end]).0)
  {
    hide WriteBlob, ManifestOf, ValidSegments, ContentBlobs, SummaryBlobs, Header;
    BlobsGrow(env, chain, l.w.start, l.w.end);
  }

  lemma WriteInEpochCuts(env: Env, chain: seq<Checkpoint>, l: Local, gs: seq<Segment>, elapsed: bool)
    requires OpenInv(env, chain, l.w, gs)
    requires l.w.end < |chain| && chain[l.w.end].summary.epoch == l.w.epoch
    requires WriteInEpochSpec(env, l, chain[l.w.end], elapsed).1 == Ok
    ensures MovesTo(env, chain, l, CallsForCut(env, chain, l.w, elapsed),
                    WriteInEpochSpec(env, l, chain[l.w.end], elapsed).0)
  {
    BlobSizeIsLength(env.contents.encode(chain[l.w.end].contents));
    hide ManifestOf, HandsOver, CutSpec, ResetSpec, FinishSpec, Header, ContentBlobs, SummaryBlobs, WriteBlob, BlobSize;
    if CallsForCut(env, chain, l.w, elapsed) {
      CutResetKeeps(env, chain, l, gs);
      FinishMoves(env, chain, ResetSpec(env, CutSpec(env, l)), Listed(l.w, gs));
    } else {
      FinishMoves(env, chain, l, gs);
    }
  }

  /** A write that succeeds hands over the open files if and only if they hold something and new ones are called for:
      the timer expired, the epoch changed, or the blob does not fit beside those already there. */
  lemma CutsExactly(env: Env, chain: seq<Checkpoint>, l: Local, gs: seq<Segment>, elapsed: bool)
    requires ValidChain(env, chain) && WriterInv(env, chain, l.w, gs) && l.w.end < |chain|
    requires WriteSpec(env, l, chain[l.w.end], elapsed).1 == Ok
    ensures MovesTo(env, chain, l, CallsForCut(env, chain, l.w, elapsed),
                    WriteSpec(env, l, chain[l.w.end], elapsed).0)
  {
    hide WriteInEpochSpec, NextEpochSpec, ManifestOf, HandsOver, Header, ContentBlobs, SummaryBlobs, Encodable;
    hide WriteBlob;
    assert ValidCheckpoint(env, chain, l.w.end);
    if chain[l.w.end].summary.epoch == l.w.epoch {
      WriteInEpochCuts(env, chain, l, gs, elapsed);
    } else {
      NextEpochKeeps(env, chain, l, gs);
      WriteInEpochCuts(env, chain, NextEpochSpec(env, l), Listed(l.w, gs), elapsed);
    }
  }

  /** What the assertions of `write_as_blob` ask of a checkpoint once its number is right. */
  predicate Belongs(env: Env, w: Writer, c: Checkpoint) {
    && w.epoch <= c.summary.epoch <= w.epoch + 1
    && c.summary.contentDigest == env.contentsDigest(c.contents)
  }

  /** A write of anything in any state panics exactly on a wrong number, epoch or digest, and fails exactly when the
      epoch, or else the range, has no next number. */
  lemma WriteStatusExactly(env: Env, l: Local, c: Checkpoint, elapsed: bool)
    requires Writable(l.w)
    ensures var (l', status) := WriteSpec(env, l, c, elapsed);
            && (status == Panicked <==>
                  || c.summary.sequenceNumber != l.w.end
                  || (l.w.epoch != U64_MAX && !Belongs(env, l.w, c)))
            && (status == Failed <==>
                  && c.summary.sequenceNumber == l.w.end
                  && (l.w.epoch == U64_MAX || (Belongs(env, l.w, c) && l.w.end == U64_MAX)))
            && (c.summary.sequenceNumber != l.w.end || l.w.epoch == U64_MAX ==> l' == l)
  {
    hide Header, Compress, FilePath;
    var next := NextEpochSpec(env, l);
    assert next.w.end == l.w.end && next.w.epoch == l.w.epoch + 1;
  }

  // ----- the writer itself

  /** One turn of the tail loop: how many checkpoints the node's store shows by then, and the commit timer. */
  datatype Tick = Tick(visible: nat, elapsed: bool)

  class CheckpointWriter {
    const env: Env
    var epochNum: nat
    var rangeStart: nat
    var rangeEnd: nat
    var wbuf: Bytes
    var summaryWbuf: Bytes
    var bufOffset: nat
    var manifest: Manifest
    var staging: Files
    var queue: seq<CheckpointUpdates>

    ghost function View(): Local
      reads this
    {
      Local(Writer(epochNum, rangeStart, rangeEnd, wbuf, summaryWbuf, bufOffset, manifest), staging, queue)
    }

    ghost predicate Valid()
      reads this
    {
      Writable(View().w)
    }

    constructor (env: Env, manifest: Manifest, staging: Files)
      ensures Valid() && this.env == env && View() == NewSpec(env, manifest, staging)
    {
      this.env := env;
      epochNum := manifest.epoch;
      rangeStart, rangeEnd := manifest.next, manifest.next;
      bufOffset := 0;
      this.manifest := manifest;
      queue := [];
      wbuf, summaryWbuf := [], [];
      this.staging := RemoveEpochDir(staging, manifest.epoch);
      new;
      OpenFiles();
    }

    method OpenFiles()
      modifies this`wbuf, this`summaryWbuf, this`staging
      ensures Valid() && View() == OpenFilesSpec(env, old(View()))
    {
      wbuf := Header(env, CHECKPOINT_FILE_MAGIC);
      staging := staging[FilePath(epochNum, rangeStart, CheckpointContent) := wbuf];
      summaryWbuf := Header(env, SUMMARY_FILE_MAGIC);
      staging := staging[FilePath(epochNum, rangeStart, CheckpointSummary) := summaryWbuf];
    }

    /** `finalize` and `finalize_summary`: the compressed file and its metadata. */
    method Finalize(t: FileType, buf: Bytes) returns (meta: FileMetadata)
      requires |buf| >= HEADER_BYTES
      modifies this`staging
      ensures meta == FileMetadata(t, epochNum, rangeStart, rangeEnd, env.sha3(Compress(env, buf)))
      ensures staging == old(staging)[meta.Path() := Compress(env, buf)]
    {
      var file := Compress(env, buf);
      staging := staging[FilePath(epochNum, rangeStart, t) := file];
      meta := FileMetadata(t, epochNum, rangeStart, rangeEnd, env.sha3(file));
    }

    method Cut()
      requires Valid()
      modifies this`manifest, this`staging, this`queue
      ensures Valid() && View() == CutSpec(env, old(View()))
    {
      if rangeStart < rangeEnd {
        var content := Finalize(CheckpointContent, wbuf);
        var summary := Finalize(CheckpointSummary, summaryWbuf);
        manifest := manifest.Update(epochNum, rangeEnd, content, summary);
        queue := queue + [CheckpointUpdates(content, summary, manifest)];
      }
    }

    method Reset()
      modifies this
      ensures Valid() && View() == ResetSpec(env, old(View()))
    {
      rangeStart := rangeEnd;
      bufOffset := MAGIC_BYTES;
      OpenFiles();
    }

    /** The epoch change inside `write_as_blob`. */
    method MoveToNextEpoch()
      requires Valid()
      modifies this
      ensures Valid() && View() == NextEpochSpec(env, old(View()))
    {
      Cut();
      epochNum := epochNum + 1;
      staging := RemoveEpochDir(staging, epochNum);
      Reset();
    }

    /** The last part of `write_as_blob`: both blobs are appended, then the range grows. */
    method Append(c: Checkpoint) returns (status: Status)
      requires Valid()
      modifies this
      ensures Valid() && (View(), status) == FinishSpec(env, old(View()), c)
    {
      var blob := WriteBlob(env.contents.encode(c.contents));
      wbuf := wbuf + blob;
      bufOffset := bufOffset + |blob|;
      summaryWbuf := summaryWbuf + WriteBlob(env.summaries.encode(c.summary));
      if rangeEnd == U64_MAX {
        return Failed;
      }
      rangeEnd := rangeEnd + 1;
      return Ok;
    }

    method Write(c: Checkpoint, elapsed: bool) returns (status: Status)
      requires Valid()
      modifies this
      ensures Valid() && (View(), status) == WriteSpec(env, old(View()), c, elapsed)
      ensures status == Ok && c.summary.epoch == old(epochNum) && !elapsed
              && old(bufOffset) + |WriteBlob(env.contents.encode(c.contents))| <= env.commitFileSize ==>
                queue == old(queue) && staging == old(staging) && rangeStart == old(rangeStart)
    {
      BlobSizeIsLength(env.contents.encode(c.contents));
      if c.summary.sequenceNumber != rangeEnd {
        return Panicked;
      }
      if epochNum == U64_MAX {
        return Failed;
      }
      if c.summary.epoch == epochNum + 1 {
        MoveToNextEpoch();
      }
      if c.summary.epoch != epochNum || c.summary.contentDigest != env.contentsDigest(c.contents) {
        return Panicked;
      }
      if bufOffset + BlobSize(env.contents.encode(c.contents)) > env.commitFileSize || elapsed {
        Cut();
        Reset();
      }
      status := Append(c);
    }

    /** `start_tailing_checkpoints`, for any number of turns until the kill signal. On a valid chain the writer never
        trips one of its assertions, and between turns it holds exactly the checkpoints it has not listed yet. */
    method TailCheckpoints(chain: seq<Checkpoint>, ticks: seq<Tick>, ghost gs: seq<Segment>)
      returns (cursor: nat, status: Status, ghost listed: seq<Segment>)
      requires ValidChain(env, chain) && WriterInv(env, chain, View().w, gs)
      requires forall t <- ticks :: t.visible <= |chain|
      modifies this
      ensures status != Panicked
      ensures status == Ok ==> gs <= listed && cursor == rangeEnd && WriterInv(env, chain, View().w, listed)
      ensures status == Ok ==> old(rangeEnd) <= cursor <= old(rangeEnd) + |ticks|
      ensures status == Ok && cursor > old(rangeEnd) ==> exists t <- ticks :: cursor <= t.visible
      ensures status == Ok && cursor < old(rangeEnd) + |ticks| ==> exists t <- ticks :: t.visible <= cursor
    {
      hide WriteSpec, ManifestOf, HandsOver, Header, ContentBlobs, SummaryBlobs, Encodable;
      cursor, status, listed := rangeEnd, Ok, gs;
      for i := 0 to |ticks|
        invariant status == Ok && gs <= listed && cursor == rangeEnd && WriterInv(env, chain, View().w, listed)
        invariant old(rangeEnd) <= cursor <= old(rangeEnd) + i
        invariant cursor > old(rangeEnd) ==> exists t <- ticks :: cursor <= t.visible
        invariant cursor < old(rangeEnd) + i ==> exists t <- ticks :: t.visible <= cursor
      {
        assert ticks[i] in ticks;
        if cursor < ticks[i].visible {
          ghost var before := View();
          WriteKeeps(env, chain, before, listed, ticks[i].elapsed);
          status := Write(chain[cursor], ticks[i].elapsed);
          if status != Ok {
            return;
          }
          if queue != before.queue {
            listed := Listed(before.w, listed);
          }
          cursor := cursor + 1;
        }
      }
    }
  }
}
