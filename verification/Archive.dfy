/** Entities of `sui-archival`: checkpoints, manifests, and the bytes of archive files. */
module Archive {
  import opened Options
  import opened Blob
  import opened ArchivePath

  type Digest = nat
  type Committee = nat
  type Files = map<string, Bytes>

  const CHECKPOINT_FILE_MAGIC: nat := 0x0000_DEAD
  const SUMMARY_FILE_MAGIC: nat := 0x0000_CAFE
  const MANIFEST_FILE_MAGIC: nat := 0x00C0_FFEE
  const MAGIC_BYTES: nat := 4
  const HEADER_BYTES: nat := 6
  const SHA3_BYTES: nat := 32
  const BLOB_FORMAT: Byte := 0

  // ----- checkpoints

  datatype ExecutionData = ExecutionData(transactionDigest: Digest, effectsTransactionDigest: Digest)

  datatype Contents = Contents(transactions: seq<ExecutionData>)

  /** A certified checkpoint summary; `nextCommittee` is present on the last checkpoint of an epoch. */
  datatype Summary = Summary(
    sequenceNumber: nat,
    epoch: nat,
    contentDigest: Digest,
    previousDigest: Option<Digest>,
    nextCommittee: Option<Committee>,
    signature: nat
  )

  datatype Checkpoint = Checkpoint(summary: Summary, contents: Contents)

  function Summaries(cs: seq<Checkpoint>): (r: seq<Summary>)
    ensures |r| == |cs| && forall i | 0 <= i < |cs| :: r[i] == cs[i].summary
  {
    seq(|cs|, i requires 0 <= i < |cs| => cs[i].summary)
  }

  function ContentsOf(cs: seq<Checkpoint>): (r: seq<Contents>)
    ensures |r| == |cs| && forall i | 0 <= i < |cs| :: r[i] == cs[i].contents
  {
    seq(|cs|, i requires 0 <= i < |cs| => cs[i].contents)
  }

  // ----- manifest

  datatype FileMetadata = FileMetadata(fileType: FileType, epoch: nat, start: nat, end: nat, sha3: Bytes) {
    function Path(): string { FilePath(epoch, start, fileType) }
  }

  datatype Manifest = Manifest(archiveVersion: nat, next: nat, files: seq<FileMetadata>, epoch: nat) {
    static function New(epoch: nat, next: nat): Manifest {
      Manifest(1, next, [], epoch)
    }

    function Update(epoch: nat, next: nat, content: FileMetadata, summary: FileMetadata): Manifest {
      this.(files := files + [content, summary], epoch := epoch, next := next)
    }
  }

  /** What a cut hands to the uploader. */
  datatype CheckpointUpdates = CheckpointUpdates(content: FileMetadata, summary: FileMetadata, manifest: Manifest)

  // ----- outcomes

  /** An operation succeeds, returns an error, or panics. */
  datatype Status = Ok | Failed | Panicked

  // ----- environment

  /** Everything the archive calls but does not define: BCS, zstd, SHA3, digests and signatures,
      together with the writer's two configuration values. */
  datatype Env = Env(
    summaries: Codec<Summary>,
    contents: Codec<Contents>,
    manifests: Codec<Manifest>,
    zstd: Bytes -> Bytes,
    unzstd: Bytes -> Option<Bytes>,
    sha3: Bytes -> Bytes,
    contentsDigest: Contents -> Digest,
    summaryDigest: Summary -> Digest,
    signed: (Summary, Committee) -> bool,
    compressed: bool,
    commitFileSize: nat
  )

  ghost predicate Sound(env: Env) {
    && Faithful(env.summaries)
    && Faithful(env.contents)
    && Faithful(env.manifests)
    && (forall b :: env.unzstd(env.zstd(b)) == Some(b))
    && (forall b :: |env.sha3(b)| == SHA3_BYTES)
  }

  // ----- blob files

  function Header(env: Env, magic: nat): (h: Bytes)
    requires magic < 0x1_0000_0000
    ensures |h| == HEADER_BYTES
  {
    WriteU32(magic) + [BLOB_FORMAT, if env.compressed then 1 else 0]
  }

  /** `CheckpointWriter::compress`: the header stays readable, the rest is compressed. */
  function Compress(env: Env, file: Bytes): Bytes
    requires |file| >= HEADER_BYTES
  {
    if env.compressed then file[..HEADER_BYTES] + env.zstd(file[HEADER_BYTES..]) else file
  }

  /** `make_iterator` up to the point where blobs are read: checks the header and undoes compression. */
  function OpenFile(env: Env, magic: nat, file: Bytes): Option<Bytes> {
    if |file| < HEADER_BYTES || ReadU32(file) != magic || file[4] != BLOB_FORMAT then None
    else if file[5] == 0 then Some(file[HEADER_BYTES..])
    else if file[5] == 1 then env.unzstd(file[HEADER_BYTES..])
    else None
  }

  /** Whatever the bytes, a file is opened exactly if it has a whole header with the expected magic number, the blob
      format, and a known compression that can be undone. */
  lemma OpenedExactly(env: Env, magic: nat, file: Bytes)
    requires magic < 0x1_0000_0000
    ensures OpenFile(env, magic, file).Some? <==>
            && |file| >= 6 && file[..4] == WriteU32(magic) && file[4] == 0
            && (file[5] == 0 || (file[5] == 1 && env.unzstd(file[6..]).Some?))
    ensures OpenFile(env, magic, file).Some? ==>
              OpenFile(env, magic, file) == if file[5] == 0 then Some(file[6..]) else env.unzstd(file[6..])
  {
    if |file| >= 6 {
      assert ReadU32(file) == ReadU32(file[..4]);
      if ReadU32(file) == magic { ReadU32Injective(file[..4], WriteU32(magic)); }
    }
  }

  /** A finished file holding the values `xs`. */
  function FinishedFile<T>(env: Env, magic: nat, codec: Codec<T>, xs: seq<T>): Bytes
    requires magic < 0x1_0000_0000
  {
    Compress(env, Header(env, magic) + WriteAll(codec, xs))
  }

  /** Reading a finished file yields exactly the values written to it, in either compression mode. */
  lemma FinishedFileRoundTrip<T(!new)>(env: Env, magic: nat, codec: Codec<T>, xs: seq<T>)
    requires Sound(env) && Faithful(codec) && magic < 0x1_0000_0000 && forall i | 0 <= i < |xs| :: Fits(codec, xs[i])
    ensures var body := OpenFile(env, magic, FinishedFile(env, magic, codec, xs));
            body.Some? && ReadAll(codec, body.value) == xs
  {
    var header, body := Header(env, magic), WriteAll(codec, xs);
    assert (header + body)[..HEADER_BYTES] == header && (header + body)[HEADER_BYTES..] == body;
    var file := FinishedFile(env, magic, codec, xs);
    assert file[..HEADER_BYTES] == header;
    assert file[HEADER_BYTES..] == if env.compressed then env.zstd(body) else body;
    assert ReadU32(file) == ReadU32(WriteU32(magic));
    ReadAllWriteAll(codec, xs);
  }
}

/** The MANIFEST object: magic, one blob, and the digest of everything before the digest. */
module ManifestCodec {
  import opened Options
  import opened Blob
  import opened Archive

  function ManifestBody(env: Env, m: Manifest): Bytes {
    WriteU32(MANIFEST_FILE_MAGIC) + WriteBlob(env.manifests.encode(m))
  }

  function WriteManifest(env: Env, m: Manifest): Bytes {
    ManifestBody(env, m) + env.sha3(ManifestBody(env, m))
  }

  /** `read_manifest`; `None` stands for each of its error returns. */
  function ReadManifest(env: Env, file: Bytes): Option<Manifest> {
    if |file| < MAGIC_BYTES || ReadU32(file) != MANIFEST_FILE_MAGIC || |file| < SHA3_BYTES then None
    else
      var split := |file| - SHA3_BYTES;
      if env.sha3(file[..split]) != file[split..] then None
      else match ReadBlob(file[MAGIC_BYTES..])
        case None => None
        case Some((data, _)) => env.manifests.decode(data)
  }

  /** Every manifest survives being written and read back. */
  lemma ManifestRoundTrip(env: Env, m: Manifest)
    requires Sound(env) && Fits(env.manifests, m)
    ensures ReadManifest(env, WriteManifest(env, m)) == Some(m)
  {
    var data, body, file := env.manifests.encode(m), ManifestBody(env, m), WriteManifest(env, m);
    var digest := env.sha3(body);
    assert file[..|file| - SHA3_BYTES] == body && file[|file| - SHA3_BYTES..] == digest;
    assert file[MAGIC_BYTES..] == WriteBlob(data) + digest;
    BlobRoundTrip(data, digest);
    assert ReadU32(file) == ReadU32(WriteU32(MANIFEST_FILE_MAGIC));
  }

  /** What acceptance guarantees about arbitrary bytes: the magic in front, the digest of the rest at the end,
      and a blob after the magic that decodes to the result. Nothing else is accepted. */
  lemma AcceptedManifest(env: Env, file: Bytes, m: Manifest)
    requires ReadManifest(env, file) == Some(m)
    ensures |file| >= SHA3_BYTES
    ensures file[..MAGIC_BYTES] == WriteU32(MANIFEST_FILE_MAGIC)
    ensures file[|file| - SHA3_BYTES..] == env.sha3(file[..|file| - SHA3_BYTES])
    ensures exists data, rest ::
              ReadBlob(file[MAGIC_BYTES..]) == Some((data, rest)) && env.manifests.decode(data) == Some(m)
  {
    ReadU32Injective(file[..MAGIC_BYTES], WriteU32(MANIFEST_FILE_MAGIC));
    var blob := ReadBlob(file[MAGIC_BYTES..]);
    assert blob == Some((blob.value.0, blob.value.1));
  }

  /** And all of that is accepted. */
  lemma AcceptedExactly(env: Env, file: Bytes)
    requires Sound(env)
    ensures ReadManifest(env, file).Some? <==>
            && |file| >= 32 && file[..4] == WriteU32(MANIFEST_FILE_MAGIC)
            && file[|file| - 32..] == env.sha3(file[..|file| - 32])
            && ReadBlob(file[4..]).Some? && env.manifests.decode(ReadBlob(file[4..]).value.0).Some?
  {
    hide ReadBlob;
    if |file| >= 4 {
      assert ReadU32(file) == ReadU32(file[..4]);
      if ReadU32(file) == MANIFEST_FILE_MAGIC { ReadU32Injective(file[..4], WriteU32(MANIFEST_FILE_MAGIC)); }
    }
  }
}
