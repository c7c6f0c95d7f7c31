/** The store an archive is replayed into, and the replay of one checkpoint. */
module CheckpointStore {
  import opened Options
  import opened Blob
  import opened Archive
  import opened Words

  /** `verified` and `synced` are the two watermarks; `committees[e]` is the committee of epoch `e`. */
  datatype Store = Store(
    checkpoints: map<nat, Summary>,
    contents: map<nat, Contents>,
    committees: seq<Committee>,
    verified: Option<nat>,
    synced: Option<nat>
  )

  function SaturatingNext(n: nat): nat {
    if n >= U64_MAX then U64_MAX else n + 1
  }

  /** A watermark only moves up. */
  function Raise(watermark: Option<nat>, n: nat): (r: Option<nat>)
    ensures r.Some? && r.value >= n && (watermark.Some? ==> r.value >= watermark.value)
    ensures r.value == n || r == watermark
  {
    if watermark.Some? && watermark.value >= n then watermark else Some(n)
  }

  /** `verify_checkpoint`: sequence, chain, epoch, committee and signature, in that order. */
  function VerifyCheckpoint(env: Env, st: Store, prev: Summary, c: Summary): Status {
    if c.sequenceNumber != SaturatingNext(prev.sequenceNumber) then Panicked
    else if c.previousDigest != Some(env.summaryDigest(prev)) then Failed
    else if c.epoch != prev.epoch && c.epoch != SaturatingNext(prev.epoch) then Failed
    else if c.epoch == SaturatingNext(prev.epoch) && prev.nextCommittee.None? then Failed
    else if c.epoch >= |st.committees| then Panicked
    else if !env.signed(c, st.committees[c.epoch]) then Failed
    else Ok
  }

  /** `insert_checkpoint`, which also learns the next committee; committees must arrive in order. */
  function InsertCheckpoint(st: Store, c: Summary): (Store, Status) {
    var next := SaturatingNext(c.epoch);
    if c.nextCommittee.Some? && next > |st.committees| then (st, Panicked)
    else
      var committees :=
        if c.nextCommittee.Some? && next == |st.committees| then st.committees + [c.nextCommittee.value]
        else st.committees;
      (st.(checkpoints := st.checkpoints[c.sequenceNumber := c],
           committees := committees,
           verified := Raise(st.verified, c.sequenceNumber)), Ok)
  }

  /** `get_or_insert_verified_checkpoint`: the checkpoint of that number, inserted first if it verifies. */
  function GetOrInsert(env: Env, st: Store, c: Summary): (r: (Store, Status))
    ensures r.1 == Ok ==> c.sequenceNumber in r.0.checkpoints
  {
    if c.sequenceNumber in st.checkpoints then (st, Ok)
    else if c.sequenceNumber == 0 || c.sequenceNumber - 1 !in st.checkpoints then (st, Failed)
    else
      var status := VerifyCheckpoint(env, st, st.checkpoints[c.sequenceNumber - 1], c);
      if status != Ok then (st, status) else InsertCheckpoint(st, c)
  }

  /** `verify_digests`. */
  predicate DigestsMatch(env: Env, contents: Contents, digest: Digest) {
    && env.contentsDigest(contents) == digest
    && forall tx <- contents.transactions :: tx.effectsTransactionDigest == tx.transactionDigest
  }

  datatype Progress = Progress(store: Store, transactions: nat, checkpoints: nat)

  /** The closure `read` runs for each checkpoint. */
  function ReplayOne(env: Env, p: Progress, c: Checkpoint): (Progress, Status) {
    var (st, status) := GetOrInsert(env, p.store, c.summary);
    if status != Ok then (p.(store := st), status)
    else
      var v := st.checkpoints[c.summary.sequenceNumber];
      if !DigestsMatch(env, c.contents, v.contentDigest) then (p.(store := st), Failed)
      else
        (Progress(
           st.(contents := st.contents[v.sequenceNumber := c.contents], synced := Raise(st.synced, v.sequenceNumber)),
           p.transactions + |c.contents.transactions|,
           p.checkpoints + 1), Ok)
  }

  /** Replays until the first checkpoint that does not succeed. */
  function Replay(env: Env, p: Progress, cs: seq<Checkpoint>): (Progress, Status)
    decreases |cs|
  {
    if cs == [] then (p, Ok)
    else
      var r := ReplayOne(env, p, cs[0]);
      if r.1 != Ok then r else Replay(env, r.0, cs[1..])
  }

  function Transactions(cs: seq<Checkpoint>): nat {
    if cs == [] then 0 else |cs[0].contents.transactions| + Transactions(cs[1..])
  }

  /** A replay that succeeds has counted every checkpoint and every transaction in it. */
  lemma {:induction false} ReplayCounts(env: Env, p: Progress, cs: seq<Checkpoint>)
    requires Replay(env, p, cs).1 == Ok
    ensures Replay(env, p, cs).0.checkpoints == p.checkpoints + |cs|
    ensures Replay(env, p, cs).0.transactions == p.transactions + Transactions(cs)
    decreases |cs|
  {
    hide GetOrInsert, DigestsMatch;
    if cs != [] { ReplayCounts(env, ReplayOne(env, p, cs[0]).0, cs[1..]); }
  }

  /** A checkpoint whose summary is stored or accepted is replayed exactly when its contents have the digest stored for
      that number and each of its transactions comes with its own effects. */
  lemma ReplayedExactly(env: Env, p: Progress, c: Checkpoint)
    requires GetOrInsert(env, p.store, c.summary).1 == Ok
    ensures var (p', status) := ReplayOne(env, p, c);
            var (st, txs) := (GetOrInsert(env, p.store, c.summary).0, c.contents.transactions);
            && (status == Ok <==>
                  && env.contentsDigest(c.contents) == st.checkpoints[c.summary.sequenceNumber].contentDigest
                  && forall i | 0 <= i < |txs| :: txs[i].effectsTransactionDigest == txs[i].transactionDigest)
            && (status != Ok ==> status == Failed && p' == p.(store := st))
  {
    hide GetOrInsert;
    var txs := c.contents.transactions;
    assert forall i | 0 <= i < |txs| :: txs[i] in txs;
  }

  lemma {:induction false} ReplayConcat(env: Env, p: Progress, a: seq<Checkpoint>, b: seq<Checkpoint>)
    ensures var r := Replay(env, p, a); Replay(env, p, a + b) == if r.1 == Ok then Replay(env, r.0, b) else r
    decreases |a|
  {
    hide ReplayOne;
    if a == [] {
      assert a + b == b;
    } else {
      assert (a + b)[0] == a[0] && (a + b)[1..] == a[1..] + b;
      ReplayConcat(env, ReplayOne(env, p, a[0]).0, a[1..], b);
    }
  }

  // ----- a store that is a verified chain

  /** `c` verified against its predecessor under a committee the store knows. */
  ghost predicate Linked(env: Env, committees: seq<Committee>, prev: Summary, c: Summary) {
    && c.sequenceNumber == prev.sequenceNumber + 1
    && c.previousDigest == Some(env.summaryDigest(prev))
    && (c.epoch == prev.epoch || (c.epoch == SaturatingNext(prev.epoch) && prev.nextCommittee.Some?))
    && c.epoch < |committees|
    && env.signed(c, committees[c.epoch])
  }

  ghost predicate LinkedAt(env: Env, st: Store, k: nat) {
    && k > 0 && k - 1 in st.checkpoints && k in st.checkpoints
    && Linked(env, st.committees, st.checkpoints[k - 1], st.checkpoints[k])
  }

  /** The checkpoints are exactly `lo..hi`, without gap, each linked to the one before; every stored contents matches
      the digest in its stored summary; the watermarks point at stored checkpoints. */
  ghost predicate ChainStore(env: Env, st: Store, lo: nat, hi: nat) {
    && lo < hi <= U64_SIZE
    && (forall k: nat :: k in st.checkpoints <==> lo <= k < hi)
    && (forall k: nat | lo <= k < hi :: st.checkpoints[k].sequenceNumber == k)
    && (forall k: nat | lo < k < hi :: LinkedAt(env, st, k))
    && (forall k: nat | k in st.contents ::
          k in st.checkpoints && DigestsMatch(env, st.contents[k], st.checkpoints[k].contentDigest))
    && (st.verified.Some? ==> lo <= st.verified.value < hi)
    && (st.synced.Some? ==> lo <= st.synced.value < hi)
  }

  /** `st'` extends `st`: nothing stored before is changed or lost. */
  ghost predicate Extends(st: Store, st': Store) {
    && st.committees <= st'.committees
    && (forall k: nat | k in st.checkpoints :: k in st'.checkpoints && st'.checkpoints[k] == st.checkpoints[k])
    && st.contents.Keys <= st'.contents.Keys
  }

  lemma InsertKeepsChain(env: Env, st: Store, lo: nat, hi: nat, c: Summary)
    requires ChainStore(env, st, lo, hi) && c.sequenceNumber !in st.checkpoints && GetOrInsert(env, st, c).1 == Ok
    ensures c.sequenceNumber == hi
    ensures var st' := GetOrInsert(env, st, c).0; ChainStore(env, st', lo, hi + 1) && Extends(st, st')
  {
    var st' := GetOrInsert(env, st, c).0;
    assert c.sequenceNumber == hi;
    forall k: nat | lo < k < hi + 1
      ensures LinkedAt(env, st', k)
    {
      if k < hi { assert LinkedAt(env, st, k); }
    }
  }

  /** `c` continues the chain of `prev`, in its epoch or, if `prev` ends that, in the next. */
  ghost predicate Continues(env: Env, prev: Summary, c: Summary) {
    && c.previousDigest == Some(env.summaryDigest(prev))
    && (|| (c.epoch == prev.epoch && prev.epoch != U64_MAX)
        || (c.epoch == SaturatingNext(prev.epoch) && prev.nextCommittee.Some?))
  }

  /** What it takes to be accepted after `prev`. */
  ghost predicate Acceptable(env: Env, st: Store, prev: Summary, c: Summary) {
    && Continues(env, prev, c)
    && c.epoch < |st.committees| && env.signed(c, st.committees[c.epoch])
    && (c.nextCommittee.Some? ==> SaturatingNext(c.epoch) <= |st.committees|)
  }

  /** What makes the store panic: the committee to verify with is missing, or the one announced is out of order. */
  ghost predicate Unprepared(env: Env, st: Store, prev: Summary, c: Summary) {
    && Continues(env, prev, c)
    && (|| c.epoch >= |st.committees|
        || (&& env.signed(c, st.committees[c.epoch])
            && c.nextCommittee.Some? && SaturatingNext(c.epoch) > |st.committees|))
  }

  /** Without a store: a wrong number panics, whatever else is wrong. */
  lemma WrongNumberPanics(env: Env, st: Store, prev: Summary, c: Summary)
    requires c.sequenceNumber != SaturatingNext(prev.sequenceNumber)
    ensures VerifyCheckpoint(env, st, prev, c) == Panicked
  {
  }

  /** An offered summary: one whose number is stored changes nothing; one that is not next is refused; the next one is
      accepted exactly when it is acceptable, and then it alone is stored, becomes the verified watermark, and the
      committee it names is learned if it is new; it panics exactly when the store is unprepared for it. */
  lemma OfferedExactly(env: Env, st: Store, lo: nat, hi: nat, c: Summary)
    requires ChainStore(env, st, lo, hi) && c.sequenceNumber <= U64_MAX
    ensures var (st', status) := GetOrInsert(env, st, c);
            && (lo <= c.sequenceNumber < hi ==> status == Ok && st' == st)
            && (!(lo <= c.sequenceNumber <= hi) ==> status == Failed && st' == st)
            && (c.sequenceNumber == hi ==>
                  && (status == Ok <==> Acceptable(env, st, st.checkpoints[hi - 1], c))
                  && (status == Panicked <==> Unprepared(env, st, st.checkpoints[hi - 1], c))
                  && (status != Ok ==> st' == st)
                  && (status == Ok ==>
                        && st'.checkpoints == st.checkpoints[hi := c] && st'.verified == Some(hi)
                        && st'.contents == st.contents && st'.synced == st.synced
                        && st'.committees == st.committees +
                           (if c.nextCommittee.Some? && SaturatingNext(c.epoch) == |st.committees|
                            then [c.nextCommittee.value] else [])))
  {
    assert hi - 1 in st.checkpoints && st.checkpoints[hi - 1].sequenceNumber == hi - 1;
  }

  lemma GetOrInsertKeepsChain(env: Env, st: Store, lo: nat, hi: nat, c: Summary)
    requires ChainStore(env, st, lo, hi)
    ensures var (st', status) := GetOrInsert(env, st, c);
            && Extends(st, st') && (ChainStore(env, st', lo, hi) || ChainStore(env, st', lo, hi + 1))
            && st'.verified == (if ChainStore(env, st', lo, hi) then st.verified else Some(hi))
  {
    if c.sequenceNumber !in st.checkpoints && GetOrInsert(env, st, c).1 == Ok {
      InsertKeepsChain(env, st, lo, hi, c);
    }
  }

  lemma StoringContentsKeepsChain(env: Env, st: Store, lo: nat, hi: nat, k: nat, contents: Contents)
    requires ChainStore(env, st, lo, hi) && k in st.checkpoints
        && DigestsMatch(env, contents, st.checkpoints[k].contentDigest)
    ensures ChainStore(env, st.(contents := st.contents[k := contents], synced := Raise(st.synced, k)), lo, hi)
  {
    var st' := st.(contents := st.contents[k := contents], synced := Raise(st.synced, k));
    forall i: nat | lo < i < hi
      ensures LinkedAt(env, st', i)
    {
      assert LinkedAt(env, st, i);
    }
    forall i: nat | i in st'.contents
      ensures i in st'.checkpoints && DigestsMatch(env, st'.contents[i], st'.checkpoints[i].contentDigest)
    {
      if i != k { assert i in st.contents; }
    }
  }

  lemma ReplayOneKeepsChain(env: Env, p: Progress, lo: nat, hi: nat, c: Checkpoint)
    requires ChainStore(env, p.store, lo, hi)
    ensures var st' := ReplayOne(env, p, c).0.store;
            && Extends(p.store, st') && (ChainStore(env, st', lo, hi) || ChainStore(env, st', lo, hi + 1))
            && st'.verified == (if ChainStore(env, st', lo, hi) then p.store.verified else Some(hi))
  {
    GetOrInsertKeepsChain(env, p.store, lo, hi, c.summary);
    var (st, status) := GetOrInsert(env, p.store, c.summary);
    var hi' := if ChainStore(env, st, lo, hi) then hi else hi + 1;
    var k := c.summary.sequenceNumber;
    if status == Ok && DigestsMatch(env, c.contents, st.checkpoints[k].contentDigest) {
      assert st.checkpoints[k].sequenceNumber == k;
      StoringContentsKeepsChain(env, st, lo, hi', k, c.contents);
    }
  }

  /** Whatever is replayed, and wherever it stops, the store stays a gap-free verified chain that only grew. */
  lemma {:induction false} ReplayKeepsChain(env: Env, p: Progress, lo: nat, hi: nat, cs: seq<Checkpoint>)
      returns (hi': nat)
    requires ChainStore(env, p.store, lo, hi)
    ensures hi <= hi' && ChainStore(env, Replay(env, p, cs).0.store, lo, hi')
        && Extends(p.store, Replay(env, p, cs).0.store)
    ensures Replay(env, p, cs).0.store.verified == if hi < hi' then Some(hi' - 1) else p.store.verified
    decreases |cs|
  {
    hide ChainStore, ReplayOne;
    if cs == [] {
      hi' := hi;
    } else {
      var r := ReplayOne(env, p, cs[0]);
      ReplayOneKeepsChain(env, p, lo, hi, cs[0]);
      hi' := if ChainStore(env, r.0.store, lo, hi) then hi else hi + 1;
      if r.1 == Ok { hi' := ReplayKeepsChain(env, r.0, lo, hi', cs[1..]); }
    }
  }

  // ----- the panics of the replay cannot happen

  predicate KnownFor(committees: seq<Committee>, c: Summary) {
    c.epoch < |committees| && (c.nextCommittee.Some? ==> SaturatingNext(c.epoch) < |committees|)
  }

  /** The store knows the committee of every checkpoint it holds, and every committee they announce. */
  ghost predicate KnowsCommittees(st: Store) {
    forall k: nat | k in st.checkpoints :: KnownFor(st.committees, st.checkpoints[k])
  }

  /** The committee is there to verify a checkpoint with, the predecessor found is the one expected, and learning the
      next committee is never out of order. */
  lemma GetOrInsertNeverPanics(env: Env, st: Store, lo: nat, hi: nat, c: Summary)
    requires ChainStore(env, st, lo, hi) && KnowsCommittees(st) && c.sequenceNumber <= U64_MAX
    ensures GetOrInsert(env, st, c).1 != Panicked && KnowsCommittees(GetOrInsert(env, st, c).0)
  {
    var k := c.sequenceNumber;
    if k !in st.checkpoints && k > 0 && k - 1 in st.checkpoints {
      assert KnownFor(st.committees, st.checkpoints[k - 1]);
      var st' := GetOrInsert(env, st, c).0;
      forall i: nat | i in st'.checkpoints ensures KnownFor(st'.committees, st'.checkpoints[i]) {
        assert i != k ==> KnownFor(st.committees, st.checkpoints[i]);
      }
    }
  }

  /** Replaying anything at all into such a store ends in success or an error, never in a panic. */
  lemma {:induction false} ReplayNeverPanics(env: Env, p: Progress, lo: nat, hi: nat, cs: seq<Checkpoint>)
    requires ChainStore(env, p.store, lo, hi) && KnowsCommittees(p.store)
    requires forall i | 0 <= i < |cs| :: cs[i].summary.sequenceNumber <= U64_MAX
    ensures Replay(env, p, cs).1 != Panicked && KnowsCommittees(Replay(env, p, cs).0.store)
    decreases |cs|
  {
    hide ChainStore, GetOrInsert, DigestsMatch;
    if cs != [] {
      GetOrInsertNeverPanics(env, p.store, lo, hi, cs[0].summary);
      ReplayOneKeepsChain(env, p, lo, hi, cs[0]);
      var r := ReplayOne(env, p, cs[0]);
      assert KnowsCommittees(r.0.store);
      if r.1 == Ok {
        ReplayNeverPanics(env, r.0, lo, if ChainStore(env, r.0.store, lo, hi) then hi else hi + 1, cs[1..]);
      }
    }
  }

  // ----- replaying the chain that was archived

  /** What the network produces: linked checkpoints of consecutive numbers, an epoch change exactly after a
      checkpoint that names the next committee, and contents whose digests match. `committees[e]` is the committee of
      epoch `e`. */
  ghost predicate PublishedChain(env: Env, chain: seq<Checkpoint>, committees: seq<Committee>) {
    |chain| <= U64_MAX && forall i | 0 <= i < |chain| :: PublishedAt(env, chain, committees, i)
  }

  ghost predicate PublishedAt(env: Env, chain: seq<Checkpoint>, committees: seq<Committee>, i: nat)
    requires i < |chain|
  {
    var c := chain[i].summary;
    && c.sequenceNumber == i
    && c.epoch + 1 < |committees| && c.epoch < U64_MAX
    && (c.nextCommittee.Some? ==> c.nextCommittee.value == committees[c.epoch + 1])
    && DigestsMatch(env, chain[i].contents, c.contentDigest)
    && env.signed(c, committees[c.epoch])
    && (i > 0 ==>
          var prev := chain[i - 1].summary;
          && c.previousDigest == Some(env.summaryDigest(prev))
          && c.epoch == if prev.nextCommittee.Some? then prev.epoch + 1 else prev.epoch)
  }

  /** How many committees are known once `c` is stored. */
  function KnownCommittees(c: Summary): nat {
    c.epoch + if c.nextCommittee.Some? then 2 else 1
  }

  /** The store holds `chain[lo..hi]` and the committees that go with it. */
  ghost predicate Tracks(env: Env, chain: seq<Checkpoint>, committees: seq<Committee>, st: Store, lo: nat, hi: nat) {
    && lo < hi <= |chain|
    && (forall k: nat :: k in st.checkpoints <==> lo <= k < hi)
    && (forall k: nat | lo <= k < hi :: st.checkpoints[k] == chain[k].summary)
    && KnownCommittees(chain[hi - 1].summary) <= |committees|
    && st.committees == committees[..KnownCommittees(chain[hi - 1].summary)]
  }

  /** The next published checkpoint, or one already stored, always replays, and is then stored with its contents. */
  lemma ReplayNext(env: Env, chain: seq<Checkpoint>, committees: seq<Committee>, p: Progress, lo: nat, hi: nat, i: nat)
    requires PublishedChain(env, chain, committees) && Tracks(env, chain, committees, p.store, lo, hi)
    requires lo <= i <= hi && i < |chain|
    ensures var (p', status) := ReplayOne(env, p, chain[i]);
            && status == Ok && p'.checkpoints == p.checkpoints + 1
            && Tracks(env, chain, committees, p'.store, lo, if i == hi then hi + 1 else hi)
            && p'.store.contents == p.store.contents[i := chain[i].contents]
            && p'.store.synced == Raise(p.store.synced, i)
            && p'.store.verified == (if i == hi then Raise(p.store.verified, hi) else p.store.verified)
            && p'.transactions == p.transactions + |chain[i].contents.transactions|
  {
    assert PublishedAt(env, chain, committees, i);
    if i == hi {
      assert PublishedAt(env, chain, committees, hi - 1);
      var prev, c := chain[hi - 1].summary, chain[i].summary;
      assert VerifyCheckpoint(env, p.store, prev, c) == Ok;
      var st := InsertCheckpoint(p.store, c).0;
      assert st.committees == committees[..KnownCommittees(c)];
    }
  }

  function ContentsRange(chain: seq<Checkpoint>, a: nat, b: nat): map<nat, Contents>
    requires b <= |chain|
  {
    map k: nat | a <= k < b :: chain[k].contents
  }

  lemma ContentsRangeStep(chain: seq<Checkpoint>, m: map<nat, Contents>, a: nat, b: nat)
    requires a < b <= |chain|
    ensures m[a := chain[a].contents] + ContentsRange(chain, a + 1, b) == m + ContentsRange(chain, a, b)
  {
  }

  /** Replaying any stretch of the published chain that starts inside or right after the store succeeds; afterwards the
      store holds it all, with contents, and exactly the stretch was counted. */
  lemma {:induction false} ReplayPublished(
    env: Env, chain: seq<Checkpoint>, committees: seq<Committee>, p: Progress, lo: nat, hi: nat, a: nat, b: nat)
    requires PublishedChain(env, chain, committees) && Tracks(env, chain, committees, p.store, lo, hi)
    requires lo <= a <= hi && a <= b <= |chain|
    ensures var (p', status) := Replay(env, p, chain[a..b]);
            && status == Ok && p'.checkpoints == p.checkpoints + (b - a)
            && Tracks(env, chain, committees, p'.store, lo, if hi < b then b else hi)
            && p'.store.contents == p.store.contents + ContentsRange(chain, a, b)
            && (a < b ==> p'.store.synced == Raise(p.store.synced, b - 1))
            && p'.store.verified == (if hi < b then Raise(p.store.verified, b - 1) else p.store.verified)
            && p'.transactions == p.transactions + Transactions(chain[a..b])
    decreases b - a
  {
    hide ReplayOne, PublishedChain, Tracks, ContentsRange;
    if a < b {
      assert hi < |chain| || a < hi by { TracksBound(env, chain, committees, p.store, lo, hi); }
      ReplayNext(env, chain, committees, p, lo, hi, a);
      assert chain[a..b][0] == chain[a] && chain[a..b][1..] == chain[a + 1..b];
      var hi' := if a == hi then hi + 1 else hi;
      ReplayPublished(env, chain, committees, ReplayOne(env, p, chain[a]).0, lo, hi', a + 1, b);
      ContentsRangeStep(chain, p.store.contents, a, b);
    } else {
      NothingReplayed(chain, p.store.contents, a);
      TracksBound(env, chain, committees, p.store, lo, hi);
    }
  }

  lemma TracksBound(env: Env, chain: seq<Checkpoint>, committees: seq<Committee>, st: Store, lo: nat, hi: nat)
    requires Tracks(env, chain, committees, st, lo, hi)
    ensures lo < hi <= |chain|
  {
  }

  lemma NothingReplayed(chain: seq<Checkpoint>, m: map<nat, Contents>, a: nat)
    requires a <= |chain|
    ensures m + ContentsRange(chain, a, a) == m
  {
  }
}

/** `ArchiveReader::read`. */
module ArchiveReader {
  import opened Options
  import opened Blob
  import opened ArchivePath
  import opened Archive
  import opened CheckpointStore

  type FilePair = (FileMetadata, FileMetadata)

  // ----- choosing the files

  function OfType(files: seq<FileMetadata>, t: FileType): seq<FileMetadata> {
    if files == [] then []
    else
      var rest := OfType(files[..|files| - 1], t);
      if files[|files| - 1].fileType == t then rest + [files[|files| - 1]] else rest
  }

  ghost predicate SortedByStart(files: seq<FileMetadata>) {
    forall i, j | 0 <= i < j < |files| :: files[i].start <= files[j].start
  }

  function InsertByStart(files: seq<FileMetadata>, f: FileMetadata): seq<FileMetadata> {
    if files == [] || files[|files| - 1].start <= f.start then files + [f]
    else InsertByStart(files[..|files| - 1], f) + [files[|files| - 1]]
  }

  /** `sort_by_key` on the range start: stable. */
  function SortByStart(files: seq<FileMetadata>): seq<FileMetadata> {
    if files == [] then []
    else InsertByStart(SortByStart(files[..|files| - 1]), files[|files| - 1])
  }

  lemma {:induction false} InsertBounded(files: seq<FileMetadata>, f: FileMetadata, bound: nat)
    requires f.start <= bound && forall i | 0 <= i < |files| :: files[i].start <= bound
    ensures forall i | 0 <= i < |InsertByStart(files, f)| :: InsertByStart(files, f)[i].start <= bound
  {
    if files != [] { InsertBounded(files[..|files| - 1], f, bound); }
  }

  lemma {:induction false} InsertSorts(files: seq<FileMetadata>, f: FileMetadata)
    requires SortedByStart(files)
    ensures SortedByStart(InsertByStart(files, f))
  {
    if files != [] && files[|files| - 1].start > f.start {
      var init, last := files[..|files| - 1], files[|files| - 1];
      InsertSorts(init, f);
      InsertBounded(init, f, last.start);
    }
  }

  lemma {:induction false} InsertAdds(files: seq<FileMetadata>, f: FileMetadata)
    ensures multiset(InsertByStart(files, f)) == multiset(files) + multiset{f}
  {
    if files != [] && files[|files| - 1].start > f.start {
      InsertAdds(files[..|files| - 1], f);
      assert files == files[..|files| - 1] + [files[|files| - 1]];
    }
  }

  /** Sorting orders the files and neither loses nor invents one. */
  lemma {:induction false} SortSorts(files: seq<FileMetadata>)
    ensures SortedByStart(SortByStart(files)) && multiset(SortByStart(files)) == multiset(files)
  {
    hide InsertByStart, SortedByStart;
    if files != [] {
      var init, last := files[..|files| - 1], files[|files| - 1];
      SortSorts(init);
      InsertSorts(SortByStart(init), last);
      InsertAdds(SortByStart(init), last);
      assert files == init + [last];
    } else {
      NothingToSort();
    }
  }

  lemma NothingToSort()
    ensures SortedByStart([]) && SortByStart([]) == []
  {
  }

  lemma SortSnoc(files: seq<FileMetadata>, f: FileMetadata)
    ensures SortByStart(files + [f]) == InsertByStart(SortByStart(files), f)
  {
    assert (files + [f])[..|files|] == files;
  }

  lemma InsertAtEnd(files: seq<FileMetadata>, f: FileMetadata)
    requires files == [] || files[|files| - 1].start <= f.start
    ensures InsertByStart(files, f) == files + [f]
  {
  }

  lemma SortedInit(files: seq<FileMetadata>)
    requires SortedByStart(files) && files != []
    ensures SortedByStart(files[..|files| - 1])
    ensures |files| > 1 ==> files[|files| - 2].start <= files[|files| - 1].start
  {
  }

  lemma {:induction false} SortKeepsSorted(files: seq<FileMetadata>)
    requires SortedByStart(files)
    ensures SortByStart(files) == files
  {
    hide SortByStart, SortedByStart, InsertByStart;
    if files == [] {
      NothingToSort();
    } else {
      var init, last := files[..|files| - 1], files[|files| - 1];
      SortedInit(files);
      SortKeepsSorted(init);
      SortSnoc(init, last);
      InsertAtEnd(init, last);
      assert files == init + [last];
    }
  }

  predicate Contiguous(files: seq<FileMetadata>) {
    forall i | 1 <= i < |files| :: files[i].start == files[i - 1].end
  }

  predicate SameRanges(s: seq<FileMetadata>, c: seq<FileMetadata>)
    requires |s| == |c|
  {
    forall i | 0 <= i < |s| :: s[i].start == c[i].start && s[i].end == c[i].end
  }

  function Zip<A, B>(a: seq<A>, b: seq<B>): (r: seq<(A, B)>)
    ensures |r| == (if |a| < |b| then |a| else |b|) && forall i | 0 <= i < |r| :: r[i] == (a[i], b[i])
  {
    seq(if |a| < |b| then |a| else |b|, i requires 0 <= i < |a| && i < |b| => (a[i], b[i]))
  }

  /** The checks of `read` before it searches, and the pairs of files it searches in. */
  function PlanRead(m: Manifest, start: nat): (seq<FilePair>, Status) {
    if m.next == 0 || start > m.next - 1 || m.files == [] then ([], Failed)
    else
      var (s, c) := (SortByStart(OfType(m.files, CheckpointSummary)), SortByStart(OfType(m.files, CheckpointContent)));
      if |s| != |c| || !Contiguous(s) || !Contiguous(c) || !SameRanges(s, c) || s == []
          || s[0].start != 0 then ([], Panicked)
      else (Zip(s, c), Ok)
  }

  ghost predicate SortedPairs(files: seq<FilePair>) {
    forall i, j | 0 <= i < j < |files| :: files[i].0.start <= files[j].0.start
  }

  /** What the assertions of `read` ask of the listed files: as many summary files as content files, at least one;
      sorted, each list without a gap from 0; the ranges of a pair equal. */
  ghost predicate WellPaired(files: seq<FileMetadata>) {
    var (s, c) := (SortByStart(OfType(files, CheckpointSummary)), SortByStart(OfType(files, CheckpointContent)));
    && |s| == |c| > 0 && s[0].start == 0
    && (forall i | 0 < i < |s| :: s[i].start == s[i - 1].end && c[i].start == c[i - 1].end)
    && (forall i | 0 <= i < |s| :: s[i].start == c[i].start && s[i].end == c[i].end)
  }

  /** `read` refuses exactly a start past the latest archived checkpoint and an empty archive, and panics before reading
      exactly when an assertion fails; otherwise it goes through the sorted pairs. */
  lemma PlanExactly(m: Manifest, start: nat)
    ensures var (files, status) := PlanRead(m, start);
            && (status == Failed <==> start >= m.next || m.files == [])
            && (status == Panicked <==> start < m.next && m.files != [] && !WellPaired(m.files))
            && (status == Ok ==>
                  var (s, c) :=
                    (SortByStart(OfType(m.files, CheckpointSummary)), SortByStart(OfType(m.files, CheckpointContent)));
                  |files| == |s| == |c| && forall i | 0 <= i < |files| :: files[i] == (s[i], c[i]))
  {
    hide SortByStart, OfType;
    var (s, c) := (SortByStart(OfType(m.files, CheckpointSummary)), SortByStart(OfType(m.files, CheckpointContent)));
    if |s| == |c| {
      assert Contiguous(s) <==> forall i | 0 < i < |s| :: s[i].start == s[i - 1].end;
      assert Contiguous(c) <==> forall i | 0 < i < |s| :: c[i].start == c[i - 1].end;
    }
  }

  /** The files of a type, each as often as listed. */
  lemma {:induction false} OfTypeExactly(files: seq<FileMetadata>, t: FileType, f: FileMetadata)
    ensures multiset(OfType(files, t))[f] == if f.fileType == t then multiset(files)[f] else 0
  {
    if files != [] {
      var n := |files| - 1;
      assert files == files[..n] + [files[n]];
      OfTypeExactly(files[..n], t, f);
    }
  }

  function WithStart(files: seq<FileMetadata>, start: nat): seq<FileMetadata> {
    if files == [] then []
    else WithStart(files[..|files| - 1], start) +
         if files[|files| - 1].start == start then [files[|files| - 1]] else []
  }

  lemma {:induction false} InsertStable(files: seq<FileMetadata>, f: FileMetadata, start: nat)
    requires SortedByStart(files)
    ensures WithStart(InsertByStart(files, f), start) == WithStart(files, start) + if f.start == start then [f] else []
  {
    if files == [] || files[|files| - 1].start <= f.start {
      assert (files + [f])[..|files|] == files;
    } else {
      var init, last := files[..|files| - 1], files[|files| - 1];
      InsertStable(init, f, start);
      assert InsertByStart(files, f)[..|InsertByStart(init, f)|] == InsertByStart(init, f);
      if f.start == start { NoneStartsLater(init, last, start); }
    }
  }

  lemma NoneStartsLater(init: seq<FileMetadata>, last: FileMetadata, start: nat)
    requires start < last.start
    ensures WithStart(init + [last], start) == WithStart(init, start)
  {
    assert (init + [last])[..|init|] == init;
  }

  /** Sorting is stable: files of one start keep the order they are listed in. */
  lemma {:induction false} SortStable(files: seq<FileMetadata>, start: nat)
    ensures WithStart(SortByStart(files), start) == WithStart(files, start)
  {
    hide InsertByStart;
    if files != [] {
      var init := files[..|files| - 1];
      SortStable(init, start);
      SortSorts(init);
      InsertStable(SortByStart(init), files[|files| - 1], start);
    }
  }

  lemma PlanSorted(m: Manifest, start: nat)
    ensures var (files, status) := PlanRead(m, start);
            status == Ok ==> files != [] && files[0].0.start == 0 && SortedPairs(files)
  {
    SortSorts(OfType(m.files, CheckpointSummary));
  }

  /** What `binary_search_by_key` promises: an index of the key, or the place where it would go. */
  ghost predicate SearchResult(files: seq<FilePair>, key: nat, found: bool, index: nat) {
    && index <= |files|
    && (found ==> index < |files| && files[index].0.start == key)
    && (!found ==>
          && (forall i | 0 <= i < index :: files[i].0.start < key)
          && (forall i | index <= i < |files| :: key < files[i].0.start))
  }

  method BinarySearch(files: seq<FilePair>, key: nat) returns (found: bool, index: nat)
    requires SortedPairs(files)
    ensures SearchResult(files, key, found, index)
  {
    var lo, hi := 0, |files|;
    while lo < hi
      invariant 0 <= lo <= hi <= |files|
      invariant forall i | 0 <= i < lo :: files[i].0.start < key
      invariant forall i | hi <= i < |files| :: key < files[i].0.start
    {
      var mid := (lo + hi) / 2;
      if files[mid].0.start == key {
        return true, mid;
      } else if files[mid].0.start < key {
        lo := mid + 1;
      } else {
        hi := mid;
      }
    }
    return false, lo;
  }

  /** The file `read` starts from: the one found, or the one before the insertion point. */
  ghost predicate StartsAt(files: seq<FilePair>, start: nat, index: nat) {
    || SearchResult(files, start, true, index)
    || SearchResult(files, start, false, index + 1)
  }

  ghost predicate EndsAt(files: seq<FilePair>, end: nat, index: nat) {
    SearchResult(files, end, true, index) || SearchResult(files, end, false, index)
  }

  // ----- reading the files

  function InRange(cs: seq<Checkpoint>, start: nat, end: nat): seq<Checkpoint> {
    if cs == [] then []
    else
      var rest := InRange(cs[1..], start, end);
      if start <= cs[0].summary.sequenceNumber < end then [cs[0]] + rest else rest
  }

  function Checkpoints(s: seq<Summary>, c: seq<Contents>): (r: seq<Checkpoint>)
    ensures |r| == (if |s| < |c| then |s| else |c|) && forall i | 0 <= i < |r| :: r[i] == Checkpoint(s[i], c[i])
  {
    seq(if |s| < |c| then |s| else |c|, i requires 0 <= i < |s| && i < |c| => Checkpoint(s[i], c[i]))
  }

  /** The checkpoints a pair of files yields; `None` if a file is missing or its header is not accepted. */
  function Load(env: Env, remote: Files, files: FilePair): Option<seq<Checkpoint>> {
    if files.0.Path() !in remote || files.1.Path() !in remote then None
    else
      match (OpenFile(env, SUMMARY_FILE_MAGIC, remote[files.0.Path()]),
          OpenFile(env, CHECKPOINT_FILE_MAGIC, remote[files.1.Path()]))
      case (Some(s), Some(c)) => Some(Checkpoints(ReadAll(env.summaries, s), ReadAll(env.contents, c)))
      case _ => None
  }

  /** Replays the files in order, stopping at the first failure. */
  function ReadFiles(env: Env, p: Progress, remote: Files, files: seq<FilePair>, start: nat, end: nat)
    : (Progress, Status)
    decreases |files|
  {
    if files == [] then (p, Ok)
    else match Load(env, remote, files[0])
      case None => (p, Failed)
      case Some(cs) =>
        var r := Replay(env, p, InRange(cs, start, end));
        if r.1 != Ok then r else ReadFiles(env, r.0, remote, files[1..], start, end)
  }

  function Slice<T>(s: seq<T>, a: nat, b: nat): seq<T>
    requires b <= |s|
  {
    if a <= b then s[a..b] else []
  }

  /** One turn of the loop over the files. */
  lemma ReadNext(env: Env, p: Progress, remote: Files, files: seq<FilePair>, k: nat, e: nat, start: nat, end: nat)
    requires k < e <= |files|
    ensures ReadFiles(env, p, remote, Slice(files, k, e), start, end) ==
            match Load(env, remote, files[k])
            case None => (p, Failed)
            case Some(cs) =>
              var r := Replay(env, p, InRange(cs, start, end));
              if r.1 != Ok then r else ReadFiles(env, r.0, remote, Slice(files, k + 1, e), start, end)
  {
    hide Load, Replay, InRange;
    var todo := Slice(files, k, e);
    assert todo[0] == files[k] && todo[1..] == Slice(files, k + 1, e);
  }

  lemma ReadDone(env: Env, p: Progress, remote: Files, files: seq<FilePair>, k: nat, e: nat, start: nat, end: nat)
    requires e <= |files| && k >= e
    ensures ReadFiles(env, p, remote, Slice(files, k, e), start, end) == (p, Ok)
  {
  }

  class LocalStore {
    var checkpoints: map<nat, Summary>
    var contents: map<nat, Contents>
    var committees: seq<Committee>
    var verified: Option<nat>
    var synced: Option<nat>
    var transactionCounter: nat
    var checkpointCounter: nat

    ghost function View(): Progress
      reads this
    {
      Progress(Store(checkpoints, contents, committees, verified, synced), transactionCounter, checkpointCounter)
    }

    method Insert(c: Summary) returns (status: Status)
      modifies this`checkpoints, this`committees, this`verified
      ensures (View().store, status) == InsertCheckpoint(old(View()).store, c)
      ensures status == Ok ==>
                && checkpoints == old(checkpoints)[c.sequenceNumber := c]
                && verified.Some? && verified.value >= c.sequenceNumber
                && (verified == Some(c.sequenceNumber) || verified == old(verified))
    {
      if c.nextCommittee.Some? {
        var next := SaturatingNext(c.epoch);
        if next > |committees| {
          return Panicked;
        }
        if next == |committees| {
          committees := committees + [c.nextCommittee.value];
        }
      }
      checkpoints := checkpoints[c.sequenceNumber := c];
      verified := Raise(verified, c.sequenceNumber);
      return Ok;
    }

    method GetOrInsertVerified(env: Env, c: Summary) returns (status: Status)
      modifies this`checkpoints, this`committees, this`verified
      ensures (View().store, status) == GetOrInsert(env, old(View()).store, c)
    {
      if c.sequenceNumber in checkpoints {
        return Ok;
      }
      if c.sequenceNumber == 0 || c.sequenceNumber - 1 !in checkpoints {
        return Failed;
      }
      status := VerifyCheckpoint(env, Store(checkpoints, contents, committees, verified, synced),
          checkpoints[c.sequenceNumber - 1], c);
      if status == Ok {
        status := Insert(c);
      }
    }

    method ReplayCheckpoint(env: Env, c: Checkpoint) returns (status: Status)
      modifies this
      ensures (View(), status) == ReplayOne(env, old(View()), c)
    {
      status := GetOrInsertVerified(env, c.summary);
      if status != Ok {
        return;
      }
      var v := checkpoints[c.summary.sequenceNumber];
      if !DigestsMatch(env, c.contents, v.contentDigest) {
        return Failed;
      }
      contents := contents[v.sequenceNumber := c.contents];
      synced := Raise(synced, v.sequenceNumber);
      transactionCounter := transactionCounter + |c.contents.transactions|;
      checkpointCounter := checkpointCounter + 1;
    }

    /** The inner `try_for_each`: replay the checkpoints of one pair of files that lie in the range. */
    method ReplayInRange(env: Env, cs: seq<Checkpoint>, start: nat, end: nat) returns (status: Status)
      modifies this
      ensures (View(), status) == Replay(env, old(View()), InRange(cs, start, end))
    {
      hide ReplayOne;
      status := Ok;
      for i := 0 to |cs|
        invariant status == Ok
        invariant Replay(env, View(), InRange(cs[i..], start, end)) == Replay(env, old(View()), InRange(cs, start, end))
      {
        assert cs[i..][0] == cs[i] && cs[i..][1..] == cs[i + 1..];
        if start <= cs[i].summary.sequenceNumber < end {
          status := ReplayCheckpoint(env, cs[i]);
          if status != Ok {
            return;
          }
        }
      }
    }
  }

  /** `read`, for any manifest and any remote store. `first` and `last` delimit the files it went through. */
  method Read(env: Env, manifest: Manifest, remote: Files, store: LocalStore, start: nat, end: nat)
    returns (status: Status, ghost first: nat, ghost last: nat)
    modifies store
    ensures var (files, planned) := PlanRead(manifest, start);
            && (planned != Ok ==> status == planned && store.View() == old(store.View()))
            && (planned == Ok ==>
                  && StartsAt(files, start, first) && EndsAt(files, end, last)
                  && (store.View(), status) == ReadFiles(env, old(store.View()), remote, Slice(files, first, last),
                      start, end))
    ensures start >= manifest.next || manifest.files == [] ==> status == Failed && store.View() == old(store.View())
    ensures start < manifest.next && manifest.files != [] && !WellPaired(manifest.files) ==>
              status == Panicked && store.View() == old(store.View())
  {
    PlanExactly(manifest, start);
    hide PlanRead, Load, Replay, InRange, SortedPairs, ReadFiles, Slice;
    first, last := 0, 0;
    var (files, planned) := PlanRead(manifest, start);
    status := planned;
    if status != Ok {
      return;
    }
    PlanSorted(manifest, start);
    var found, index := BinarySearch(files, start);
    // An insertion point of 0 is impossible: the first file starts at 0.
    var startIndex: nat := if found then index else index - 1;
    var _, endIndex := BinarySearch(files, end);
    first, last := startIndex, endIndex;
    hide SearchResult;
    var k := startIndex;
    while k < endIndex
      invariant status == Ok
      invariant ReadFiles(env, store.View(), remote, Slice(files, k, endIndex), start, end)
             == ReadFiles(env, old(store.View()), remote, Slice(files, startIndex, endIndex), start, end)
    {
      ReadNext(env, store.View(), remote, files, k, endIndex, start, end);
      match Load(env, remote, files[k]) {
        case None =>
          return Failed, first, last;
        case Some(cs) =>
          status := store.ReplayInRange(env, cs, start, end);
          if status != Ok {
            return;
          }
      }
      k := k + 1;
    }
    ReadDone(env, store.View(), remote, files, k, endIndex, start, end);
  }
}
