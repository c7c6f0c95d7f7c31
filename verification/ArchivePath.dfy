/** Object names of the archive: `MANIFEST`, and `epoch_<e>/<first checkpoint>.<suffix>` for data files. */
module ArchivePath {
  datatype FileType = CheckpointContent | CheckpointSummary

  const MANIFEST_FILENAME := "MANIFEST"
  const EPOCH_DIR_PREFIX := "epoch_"

  function Suffix(t: FileType): string {
    match t
    case CheckpointContent => "chk"
    case CheckpointSummary => "sum"
  }

  /** Decimal rendering, as `format!("{}", n)` produces. */
  function Decimal(n: nat): (s: string)
    ensures |s| > 0 && forall c <- s :: '0' <= c <= '9'
  {
    var digit := '0' + (n % 10) as char;
    if n < 10 then [digit] else Decimal(n / 10) + [digit]
  }

  function EpochDir(epoch: nat): string {
    EPOCH_DIR_PREFIX + Decimal(epoch)
  }

  function FilePath(epoch: nat, start: nat, t: FileType): string {
    EpochDir(epoch) + "/" + (Decimal(start) + "." + Suffix(t))
  }

  /** `path` lies in the directory of `epoch`. */
  predicate InEpochDir(path: string, epoch: nat) {
    EpochDir(epoch) + "/" <= path
  }

  lemma {:induction false} DecimalInjective(m: nat, n: nat)
    requires Decimal(m) == Decimal(n)
    ensures m == n
    decreases m
  {
    var s, t := Decimal(m), Decimal(n);
    assert s[|s| - 1] == t[|t| - 1];
    assert m % 10 == n % 10;
    if m >= 10 && n >= 10 {
      assert s[..|s| - 1] == Decimal(m / 10) && t[..|t| - 1] == Decimal(n / 10);
      DecimalInjective(m / 10, n / 10);
    }
  }

  /** A separator that occurs in neither head splits a string in one way only. */
  lemma SplitUnique(a: string, x: string, b: string, y: string, sep: char)
    requires sep !in a && sep !in b
    requires a + [sep] + x <= b + [sep] + y
    ensures a == b && x <= y
  {
    var s, t := a + [sep] + x, b + [sep] + y;
    assert s[|a|] == sep && (forall i | 0 <= i < |a| :: s[i] == a[i]);
    assert t[|b|] == sep && (forall i | 0 <= i < |b| :: t[i] == b[i]);
    assert forall i | 0 <= i < |s| :: s[i] == t[i];
    assert |a| == |b|;
    assert a == s[..|a|] == t[..|b|] == b;
    assert s[|a| + 1..] == x && t[|a| + 1..] == y;
  }

  lemma EpochDirSplit(epoch: nat, other: nat, x: string, y: string)
    requires EpochDir(epoch) + "/" + x <= EpochDir(other) + "/" + y
    ensures epoch == other && x <= y
  {
    SplitUnique(EpochDir(epoch), x, EpochDir(other), y, '/');
    assert EpochDir(epoch)[|EPOCH_DIR_PREFIX|..] == Decimal(epoch);
    assert EpochDir(other)[|EPOCH_DIR_PREFIX|..] == Decimal(other);
    DecimalInjective(epoch, other);
  }

  /** A data file lies in the directory of its own epoch and in no other: `epoch_1` does not hold `epoch_10`. */
  lemma EpochDirExact(epoch: nat, start: nat, t: FileType, other: nat)
    ensures InEpochDir(FilePath(epoch, start, t), other) <==> epoch == other
  {
    var name := Decimal(start) + "." + Suffix(t);
    if InEpochDir(FilePath(epoch, start, t), other) {
      assert EpochDir(other) + "/" + "" == EpochDir(other) + "/";
      EpochDirSplit(other, epoch, "", name);
    }
  }

  /** Distinct (epoch, start, type) triples have distinct paths. */
  lemma FilePathInjective(e1: nat, s1: nat, t1: FileType, e2: nat, s2: nat, t2: FileType)
    requires FilePath(e1, s1, t1) == FilePath(e2, s2, t2)
    ensures e1 == e2 && s1 == s2 && t1 == t2
  {
    EpochDirSplit(e1, e2, Decimal(s1) + "." + Suffix(t1), Decimal(s2) + "." + Suffix(t2));
    EpochDirSplit(e2, e1, Decimal(s2) + "." + Suffix(t2), Decimal(s1) + "." + Suffix(t1));
    SplitUnique(Decimal(s1), Suffix(t1), Decimal(s2), Suffix(t2), '.');
    DecimalInjective(s1, s2);
    assert "chk"[0] != "sum"[0];
  }

  /** Data files live in a directory, the manifest does not. */
  lemma OnlyDataFilesInDirectories(epoch: nat, start: nat, t: FileType)
    ensures '/' in FilePath(epoch, start, t) && '/' !in MANIFEST_FILENAME
  {
    assert FilePath(epoch, start, t)[|EpochDir(epoch)|] == '/';
  }
}
