/** The assumptions of the archive theorems can be met: serialisers that round-trip, a chain that is valid and
    published, and a run that puts a manifest. */
module ArchiveWitness {
  import opened Options
  import opened Blob
  import opened ArchivePath
  import opened Archive
  import opened ArchiveSegments
  import opened CheckpointStore
  import W = ArchiveWriter
  import P = ArchiveProtocol
  import S = ArchiveSafety

  // ----- rows of numbers as bytes: a number is ticks (1) and an end (0), a row ends with 2, the rows with 3

  type Row = seq<nat>

  function Ticks(n: nat): Bytes {
    if n == 0 then [0] else [1] + Ticks(n - 1)
  }

  function RowBytes(row: Row): Bytes {
    if row == [] then [2] else Ticks(row[0]) + RowBytes(row[1..])
  }

  function RowsBytes(rows: seq<Row>): Bytes {
    if rows == [] then [3] else RowBytes(rows[0]) + RowsBytes(rows[1..])
  }

  function Parse(s: Bytes, n: nat, row: Row, rows: seq<Row>): Option<seq<Row>> {
    if s == [] then None
    else if s[0] == 0 then Parse(s[1..], 0, row + [n], rows)
    else if s[0] == 1 then Parse(s[1..], n + 1, row, rows)
    else if s[0] == 2 then Parse(s[1..], 0, [], rows + [row])
    else Some(rows)
  }

  lemma {:induction false} ParseTicks(k: nat, rest: Bytes, n: nat, row: Row, rows: seq<Row>)
    ensures Parse(Ticks(k) + rest, n, row, rows) == Parse(rest, 0, row + [n + k], rows)
  {
    var s := Ticks(k) + rest;
    if k == 0 {
      assert s[1..] == rest;
    } else {
      assert s[1..] == Ticks(k - 1) + rest;
      ParseTicks(k - 1, rest, n + 1, row, rows);
    }
  }

  lemma {:induction false} ParseRow(more: Row, rest: Bytes, row: Row, rows: seq<Row>)
    ensures Parse(RowBytes(more) + rest, 0, row, rows) == Parse(rest, 0, [], rows + [row + more])
    decreases |more|
  {
    if more == [] {
      var s := RowBytes(more) + rest;
      assert s[1..] == rest && row + more == row;
    } else {
      assert RowBytes(more) + rest == Ticks(more[0]) + (RowBytes(more[1..]) + rest);
      ParseTicks(more[0], RowBytes(more[1..]) + rest, 0, row, rows);
      ParseRow(more[1..], rest, row + [more[0]], rows);
      assert row + [more[0]] + more[1..] == row + more;
    }
  }

  lemma {:induction false} ParseRows(more: seq<Row>, rows: seq<Row>)
    ensures Parse(RowsBytes(more), 0, [], rows) == Some(rows + more)
    decreases |more|
  {
    if more == [] {
      assert rows + more == rows;
    } else {
      ParseRow(more[0], RowsBytes(more[1..]), [], rows);
      assert [] + more[0] == more[0];
      ParseRows(more[1..], rows + [more[0]]);
      assert rows + [more[0]] + more[1..] == rows + more;
    }
  }

  // ----- values as rows

  function OptionRow(o: Option<nat>): Row {
    match o case None => [] case Some(n) => [n]
  }

  function RowOption(row: Row): Option<nat> {
    if row == [] then None else Some(row[0])
  }

  function SummaryRows(c: Summary): seq<Row> {
    [[c.sequenceNumber, c.epoch, c.contentDigest, c.signature], OptionRow(c.previousDigest), OptionRow(c.nextCommittee)]
  }

  function RowsSummary(rows: seq<Row>): Option<Summary> {
    if |rows| != 3 || |rows[0]| != 4 then None
    else Some(Summary(rows[0][0], rows[0][1], rows[0][2], RowOption(rows[1]), RowOption(rows[2]), rows[0][3]))
  }

  function ContentsRows(c: Contents): seq<Row> {
    seq(|c.transactions|, i requires 0 <= i < |c.transactions| =>
      [c.transactions[i].transactionDigest, c.transactions[i].effectsTransactionDigest])
  }

  function RowsContents(rows: seq<Row>): Option<Contents> {
    if exists i :: 0 <= i < |rows| && |rows[i]| != 2 then None
    else Some(Contents(seq(|rows|,
        i requires 0 <= i < |rows| && |rows[i]| == 2 => ExecutionData(rows[i][0], rows[i][1]))))
  }

  function FileRow(f: FileMetadata): Row {
    [if f.fileType == CheckpointContent then 0 else 1, f.epoch, f.start, f.end]
      + seq(|f.sha3|, i requires 0 <= i < |f.sha3| => f.sha3[i])
  }

  predicate IsFileRow(row: Row) {
    |row| >= 4 && forall i | 4 <= i < |row| :: row[i] < 256
  }

  function RowFile(row: Row): FileMetadata
    requires IsFileRow(row)
  {
    FileMetadata(if row[0] == 0 then CheckpointContent else CheckpointSummary, row[1], row[2], row[3],
                 seq(|row| - 4, i requires 0 <= i < |row| - 4 => row[i + 4]))
  }

  function ManifestRows(m: Manifest): seq<Row> {
    [[m.archiveVersion, m.next, m.epoch]] + seq(|m.files|, i requires 0 <= i < |m.files| => FileRow(m.files[i]))
  }

  function RowsManifest(rows: seq<Row>): Option<Manifest> {
    if |rows| == 0 || |rows[0]| != 3 || exists i :: 1 <= i < |rows| && !IsFileRow(rows[i]) then None
    else Some(Manifest(rows[0][0], rows[0][1],
                       seq(|rows| - 1,
                           i requires 0 <= i < |rows| - 1 && IsFileRow(rows[i + 1]) => RowFile(rows[i + 1])),
                       rows[0][2]))
  }

  lemma FileRowBack(f: FileMetadata)
    ensures IsFileRow(FileRow(f)) && RowFile(FileRow(f)) == f
  {
    assert RowFile(FileRow(f)).sha3 == f.sha3;
  }

  lemma ManifestRowsBack(m: Manifest)
    ensures RowsManifest(ManifestRows(m)) == Some(m)
  {
    var rows := ManifestRows(m);
    forall i | 1 <= i < |rows| ensures IsFileRow(rows[i]) && RowFile(rows[i]) == m.files[i - 1] {
      FileRowBack(m.files[i - 1]);
    }
    assert RowsManifest(rows).value.files == m.files;
  }

  lemma ContentsRowsBack(c: Contents)
    ensures RowsContents(ContentsRows(c)) == Some(c)
  {
    var rows := ContentsRows(c);
    assert RowsContents(rows).value.transactions == c.transactions;
  }

  // ----- the environment and the chain

  function RowCodec<T>(rows: T -> seq<Row>, back: seq<Row> -> Option<T>): Codec<T> {
    Codec((x: T) => RowsBytes(rows(x)),
          (s: Bytes) => match Parse(s, 0, [], []) case None => None case Some(r) => back(r))
  }

  lemma RowCodecFaithful<T(!new)>(rows: T -> seq<Row>, back: seq<Row> -> Option<T>)
    requires forall x :: back(rows(x)) == Some(x)
    ensures Faithful(RowCodec(rows, back))
  {
    var c := RowCodec(rows, back);
    forall x ensures c.decode(c.encode(x)) == Some(x) && 0 < |c.encode(x)| {
      ParseRows(rows(x), []);
      assert [] + rows(x) == rows(x);
    }
  }

  const ZEROS: Bytes := seq(SHA3_BYTES, _ => 0)

  function Witness(): Env {
    Env(RowCodec(SummaryRows, RowsSummary), RowCodec(ContentsRows, RowsContents), RowCodec(ManifestRows, RowsManifest),
        (b: Bytes) => b, (b: Bytes) => Some(b), (b: Bytes) => ZEROS, (c: Contents) => 0, (c: Summary) => 0,
        (c: Summary, k: Committee) => true, true, 0)
  }

  lemma WitnessSound()
    ensures Sound(Witness())
  {
    forall c ensures RowsContents(ContentsRows(c)) == Some(c) { ContentsRowsBack(c); }
    forall m ensures RowsManifest(ManifestRows(m)) == Some(m) { ManifestRowsBack(m); }
    RowCodecFaithful(SummaryRows, RowsSummary);
    RowCodecFaithful(ContentsRows, RowsContents);
    RowCodecFaithful(ManifestRows, RowsManifest);
  }

  function Head(n: nat): Checkpoint {
    Checkpoint(Summary(n, 0, 0, if n == 0 then None else Some(0), None, 0), Contents([]))
  }

  function Chain(): seq<Checkpoint> {
    [Head(0), Head(1)]
  }

  // ----- nothing in it is long

  lemma {:induction false} TicksLength(n: nat)
    ensures |Ticks(n)| == n + 1
  {
    if n > 0 { TicksLength(n - 1); }
  }

  lemma {:induction false} RowLength(row: Row)
    requires forall i | 0 <= i < |row| :: row[i] <= 2
    ensures |RowBytes(row)| <= 3 * |row| + 1
    decreases |row|
  {
    if row != [] {
      TicksLength(row[0]);
      RowLength(row[1..]);
    }
  }

  lemma {:induction false} RowsLength(rows: seq<Row>)
    requires forall i | 0 <= i < |rows| :: |rows[i]| <= 36 && forall j | 0 <= j < |rows[i]| :: rows[i][j] <= 2
    ensures |RowsBytes(rows)| <= 109 * |rows| + 1
    decreases |rows|
  {
    if rows != [] {
      RowLength(rows[0]);
      RowsLength(rows[1..]);
    }
  }

  lemma {:induction false} FewSegments(env: Env, chain: seq<Checkpoint>, gs: seq<Segment>, k: nat)
    requires ValidSegments(env, chain, gs) && k < |gs|
    ensures k <= gs[k].start < gs[k].end <= |chain|
  {
    hide ValidSegment;
    assert TiledAt(env, chain, gs, k);
    assert gs[k].start < gs[k].end <= |chain| by { SegmentRange(env, chain, gs[k]); }
    if k > 0 { FewSegments(env, chain, gs, k - 1); }
  }

  lemma SegmentRange(env: Env, chain: seq<Checkpoint>, g: Segment)
    requires ValidSegment(env, chain, g)
    ensures g.start < g.end <= |chain| && chain[g.start].summary.epoch == g.epoch
  {
  }

  lemma {:induction false} FirstVersion(env: Env, chain: seq<Checkpoint>, gs: seq<Segment>)
    requires ValidSegments(env, chain, gs)
    ensures ManifestOf(env, chain, gs).archiveVersion == 1
  {
    if gs != [] {
      PrefixValid(env, chain, gs, |gs| - 1);
      FirstVersion(env, chain, gs[..|gs| - 1]);
      assert TiledAt(env, chain, gs, |gs| - 1);
    }
  }

  predicate ShortRow(row: Row) {
    |row| <= 36 && forall j | 0 <= j < |row| :: row[j] <= 2
  }

  lemma ShortFile(g: Segment, t: FileType)
    requires ValidSegment(Witness(), Chain(), g)
    ensures ShortRow(FileRow(MetaOf(Witness(), Chain(), g, t)))
  {
    SegmentRange(Witness(), Chain(), g);
    hide FileOf, ValidSegment;
    var f := MetaOf(Witness(), Chain(), g, t);
    assert f.sha3 == ZEROS;
  }

  lemma ManifestIsShort(gs: seq<Segment>)
    requires ValidSegments(Witness(), Chain(), gs)
    ensures Fits(Witness().manifests, ManifestOf(Witness(), Chain(), gs))
  {
    var env, chain := Witness(), Chain();
    hide Witness, FileOf, ValidSegment, MetaOf;
    var m := ManifestOf(env, chain, gs);
    FirstVersion(env, chain, gs);
    ManifestFields(env, chain, gs);
    ManifestFiles(env, chain, gs, 0);
    if |gs| > 2 { FewSegments(env, chain, gs, 2); }
    var rows := ManifestRows(m);
    forall i | 0 <= i < |rows| ensures ShortRow(rows[i]) {
      if i > 0 {
        var k := (i - 1) / 2;
        ManifestFiles(env, chain, gs, k);
        ShortFile(gs[k], CheckpointContent);
        ShortFile(gs[k], CheckpointSummary);
        assert rows[i] == FileRow(m.files[i - 1]);
      }
    }
    RowsLength(rows);
    ManifestEncoding(m);
  }

  lemma ManifestEncoding(m: Manifest)
    ensures Witness().manifests.encode(m) == RowsBytes(ManifestRows(m))
  {
  }

  lemma WitnessValid()
    ensures ValidChain(Witness(), Chain())
  {
    var env, chain := Witness(), Chain();
    forall i | 0 <= i < |chain| ensures Fits(env.summaries, chain[i].summary) && Fits(env.contents, chain[i].contents) {
      RowsLength(SummaryRows(chain[i].summary));
      RowsLength(ContentsRows(chain[i].contents));
    }
    forall gs | ValidSegments(env, chain, gs) ensures Fits(env.manifests, ManifestOf(env, chain, gs)) {
      ManifestIsShort(gs);
    }
  }

  // ----- and it gets archived

  lemma {:induction false} RunThenRun(env: Env, chain: seq<Checkpoint>, s: P.System, a: seq<P.Event>, b: seq<P.Event>)
    requires P.Run(env, chain, s, a).Some?
    ensures P.Run(env, chain, s, a + b) == P.Run(env, chain, P.Run(env, chain, s, a).value, b)
  {
    hide P.Step;
    if b == [] {
      assert a + b == a;
    } else {
      RunThenRun(env, chain, s, a, b[..|b| - 1]);
      assert (a + b)[..|a + b| - 1] == a + b[..|b| - 1];
    }
  }

  lemma DrainedHasManifest(env: Env, chain: seq<Checkpoint>, t: P.System, s: P.System, gs: seq<Segment>, n: nat)
    requires P.Inv(env, chain, t, gs, n) && t.uploader.Fetched? && P.Inv(env, chain, s, gs, |gs|)
    ensures MANIFEST_FILENAME in s.remote
  {
    assert gs[..|gs|] == gs && gs != [];
  }

  /** On every valid chain of two checkpoints or more, some run puts a manifest. */
  lemma ManifestReachable(env: Env, chain: seq<Checkpoint>) returns (s: P.System)
    requires Sound(env) && ValidChain(env, chain) && |chain| >= 2
    ensures P.Reachable(env, chain, s) && MANIFEST_FILENAME in s.remote
  {
    hide Sound, ValidChain, P.Run, P.Inv;
    var start := [P.Restart, P.Write(false), P.Write(true), P.Dequeue];
    var t := S.FirstUploadReachable(env, chain, map[]);
    assert P.Reachable(env, chain, t);
    var gs, n := S.ReachableInv(env, chain, t);
    var es := S.UploaderDrains(env, chain, t, gs, n);
    s := P.Run(env, chain, t, es).value;
    RunThenRun(env, chain, P.Init(map[]), start, es);
    assert P.Reachable(env, chain, s);
    DrainedHasManifest(env, chain, t, s, gs, n);
  }

  lemma WitnessPublished()
    ensures PublishedChain(Witness(), Chain(), [0, 0]) && |Chain()| == 2
  {
  }

  /** There is an environment, a chain and a reachable state with a manifest for which everything the archive theorems
      assume holds, and the chain is one a store can replay. */
  lemma AssumptionsHold() returns (env: Env, chain: seq<Checkpoint>, committees: seq<Committee>, s: P.System)
    ensures Sound(env) && ValidChain(env, chain) && PublishedChain(env, chain, committees)
    ensures P.Reachable(env, chain, s) && MANIFEST_FILENAME in s.remote
  {
    env, chain, committees := Witness(), Chain(), [0, 0];
    hide Witness, Chain, Sound, ValidChain, PublishedChain, P.Reachable;
    WitnessSound();
    WitnessValid();
    WitnessPublished();
    s := ManifestReachable(env, chain);
  }
}
