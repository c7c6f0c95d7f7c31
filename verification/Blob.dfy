/** The blob format of `sui-storage`: an unsigned varint length, one encoding byte, then the data.
    A blob file is a six byte header followed by blobs. */
module Blob {
  import opened Options
  import opened Words

  type Byte = b: int | 0 <= b < 256
  type Bytes = seq<Byte>

  const MAX_VARINT_LENGTH: nat := 10
  const BCS_ENCODING: Byte := 1

  /** A serialiser: `decode` is partial because it runs on arbitrary bytes. */
  datatype Codec<!T> = Codec(encode: T -> Bytes, decode: Bytes -> Option<T>)

  /** What is asked of BCS: values round-trip, and no encoding is empty. */
  ghost predicate Faithful<T(!new)>(c: Codec<T>) {
    forall x :: c.decode(c.encode(x)) == Some(x) && 0 < |c.encode(x)|
  }

  /** The length of the encoding fits the 64 bits it is written in. */
  predicate Fits<T>(c: Codec<T>, x: T) {
    |c.encode(x)| < U64_SIZE
  }

  // ----- varint

  function EncodeVarint(n: nat): Bytes {
    if n < 128 then [n] else [128 + n % 128] + EncodeVarint(n / 128)
  }

  /** `required_space`: the number of bytes a varint takes. */
  function VarintSize(n: nat): nat {
    if n < 128 then 1 else 1 + VarintSize(n / 128)
  }

  /** Reads a varint of at most `k` bytes; the second component is the unread input. */
  function ReadVarint(s: Bytes, k: nat): (r: Option<(nat, Bytes)>)
    ensures r.Some? ==> |r.value.1| < |s|
    decreases k
  {
    if k == 0 || s == [] then None
    else if s[0] < 128 then Some((s[0], s[1..]))
    else match ReadVarint(s[1..], k - 1)
      case None => None
      case Some((v, rest)) => Some((s[0] - 128 + 128 * v, rest))
  }

  function Pow128(k: nat): nat {
    if k == 0 then 1 else 128 * Pow128(k - 1)
  }

  lemma {:induction false} VarintRoundTrip(n: nat, k: nat, rest: Bytes)
    requires 0 < k && n < Pow128(k)
    ensures ReadVarint(EncodeVarint(n) + rest, k) == Some((n, rest))
    decreases k
  {
    var s := EncodeVarint(n) + rest;
    if n < 128 {
      assert s[1..] == rest;
    } else {
      assert s[1..] == EncodeVarint(n / 128) + rest;
      VarintRoundTrip(n / 128, k - 1, rest);
    }
  }

  /** The number that base-128 digits make, lowest first; the top bit of a byte is not part of its digit. */
  function Digits(s: Bytes): nat {
    if s == [] then 0 else s[0] % 128 + 128 * Digits(s[1..])
  }

  /** A varint ends at its first byte below 128. */
  ghost predicate LastByteAt(s: Bytes, j: nat) {
    j < |s| && s[j] < 128 && forall i | 0 <= i < j :: s[i] >= 128
  }

  /** Whatever the bytes, a varint is read exactly if it ends within `k` of them, and then it is the number its digits
      make. */
  lemma {:induction false} VarintExactly(s: Bytes, k: nat)
    ensures ReadVarint(s, k).Some? <==> exists j: nat :: j < k && LastByteAt(s, j)
    ensures forall j: nat | j < k && LastByteAt(s, j) :: ReadVarint(s, k) == Some((Digits(s[..j + 1]), s[j + 1..]))
    decreases k
  {
    if k > 0 && s != [] {
      if s[0] < 128 {
        assert LastByteAt(s, 0);
        assert s[..1][1..] == [];
      } else {
        VarintExactly(s[1..], k - 1);
        forall j: nat ensures LastByteAt(s, j) <==> j > 0 && LastByteAt(s[1..], j - 1) { LastByteLater(s, j); }
        hide LastByteAt;
        if j: nat :| j < k - 1 && LastByteAt(s[1..], j) { assert LastByteAt(s, j + 1); }
        forall j: nat | j < k && LastByteAt(s, j)
          ensures ReadVarint(s, k) == Some((Digits(s[..j + 1]), s[j + 1..]))
        {
          FirstDigit(s, j);
        }
      }
    }
  }

  lemma LastByteLater(s: Bytes, j: nat)
    requires s != [] && s[0] >= 128
    ensures LastByteAt(s, j) <==> j > 0 && LastByteAt(s[1..], j - 1)
  {
    assert forall i | 0 < i < |s| :: s[i] == s[1..][i - 1];
    if j > 0 && LastByteAt(s[1..], j - 1) {
      forall i | 0 <= i < j ensures s[i] >= 128 { if i > 0 { assert s[1..][i - 1] >= 128; } }
    }
  }

  lemma FirstDigit(s: Bytes, j: nat)
    requires 0 < j && LastByteAt(s, j)
    ensures j < |s| && Digits(s[..j + 1]) == s[0] % 128 + 128 * Digits(s[1..][..j]) && s[1..][j..] == s[j + 1..]
  {
    assert s[..j + 1][1..] == s[1..][..j];
  }

  lemma U64FitsVarint()
    ensures U64_SIZE < Pow128(MAX_VARINT_LENGTH)
  {
    assert Pow128(2) == 128 * Pow128(1);
    assert Pow128(4) == 128 * Pow128(3) == 128 * 128 * Pow128(2);
    assert Pow128(6) == 128 * Pow128(5) == 128 * 128 * Pow128(4);
    assert Pow128(8) == 128 * Pow128(7) == 128 * 128 * Pow128(6);
    assert Pow128(10) == 128 * Pow128(9) == 128 * 128 * Pow128(8);
  }

  // ----- one blob

  function WriteBlob(data: Bytes): Bytes {
    EncodeVarint(|data|) + [BCS_ENCODING] + data
  }

  /** `Blob::size`, the size the writer plans with before anything is written. */
  function BlobSize(data: Bytes): nat {
    VarintSize(|data|) + 1 + |data|
  }

  lemma {:induction false} VarintSizeIsLength(n: nat)
    ensures VarintSize(n) == |EncodeVarint(n)|
  {
    if n >= 128 { VarintSizeIsLength(n / 128); }
  }

  /** The planned size is the number of bytes written. */
  lemma BlobSizeIsLength(data: Bytes)
    ensures BlobSize(data) == |WriteBlob(data)|
  {
    VarintSizeIsLength(|data|);
  }

  /** `Blob::read`: any malformed or truncated blob is an error; otherwise the data and the unread input. */
  function ReadBlob(s: Bytes): (r: Option<(Bytes, Bytes)>)
    ensures r.Some? ==> |r.value.1| < |s|
  {
    match ReadVarint(s, MAX_VARINT_LENGTH)
    case None => None
    case Some((v, rest)) =>
      var len := v % U64_SIZE;
      if len == 0 || |rest| < 1 + len || rest[0] != BCS_ENCODING then None
      else Some((rest[1..1 + len], rest[1 + len..]))
  }

  /** Blobs are self-delimiting. */
  lemma BlobRoundTrip(data: Bytes, rest: Bytes)
    requires 0 < |data| < U64_SIZE
    ensures ReadBlob(WriteBlob(data) + rest) == Some((data, rest))
  {
    U64FitsVarint();
    var tail := [BCS_ENCODING] + data + rest;
    assert WriteBlob(data) + rest == EncodeVarint(|data|) + tail;
    VarintRoundTrip(|data|, MAX_VARINT_LENGTH, tail);
    assert tail[1..1 + |data|] == data && tail[1 + |data|..] == rest;
  }

  /** Whatever the bytes, a blob is read exactly if its varint ends within ten bytes at a length above 0, the encoding
      byte is right, and that many bytes of data follow. */
  lemma BlobExactly(s: Bytes, j: nat)
    requires LastByteAt(s, j)
    ensures var (len, rest) := (Digits(s[..j + 1]) % U64_SIZE, s[j + 1..]);
            && (ReadBlob(s).Some? <==> j < 10 && 0 < len < |rest| && rest[0] == 1)
            && (ReadBlob(s).Some? ==> ReadBlob(s).value == (rest[1..1 + len], rest[1 + len..]))
  {
    hide ReadVarint, Digits;
    VarintExactly(s, MAX_VARINT_LENGTH);
    forall i: nat | LastByteAt(s, i) ensures i == j { }
  }

  // ----- a sequence of blobs

  function WriteAll<T>(c: Codec<T>, xs: seq<T>): Bytes {
    if xs == [] then [] else WriteAll(c, xs[..|xs| - 1]) + WriteBlob(c.encode(xs[|xs| - 1]))
  }

  /** `BlobIter`: yields values until the first blob that cannot be read or decoded. */
  function ReadAll<T>(c: Codec<T>, s: Bytes): seq<T>
    decreases |s|
  {
    match ReadBlob(s)
    case None => []
    case Some((data, rest)) =>
      match c.decode(data)
      case None => []
      case Some(x) => [x] + ReadAll(c, rest)
  }

  lemma {:induction false} WriteAllCons<T>(c: Codec<T>, x: T, xs: seq<T>)
    ensures WriteAll(c, [x] + xs) == WriteBlob(c.encode(x)) + WriteAll(c, xs)
    decreases |xs|
  {
    var all := [x] + xs;
    if xs == [] {
      assert all[..0] == [];
    } else {
      assert all[..|all| - 1] == [x] + xs[..|xs| - 1];
      WriteAllCons(c, x, xs[..|xs| - 1]);
    }
  }

  /** Iterating over the blobs of a file yields exactly the values written, in order. */
  lemma {:induction false} ReadAllWriteAll<T(!new)>(c: Codec<T>, xs: seq<T>)
    requires Faithful(c) && forall i | 0 <= i < |xs| :: Fits(c, xs[i])
    ensures ReadAll(c, WriteAll(c, xs)) == xs
  {
    if xs != [] {
      var x, tail := xs[0], xs[1..];
      assert xs == [x] + tail;
      WriteAllCons(c, x, tail);
      BlobRoundTrip(c.encode(x), WriteAll(c, tail));
      ReadAllWriteAll(c, tail);
    } else {
      assert ReadVarint([], MAX_VARINT_LENGTH) == None;
    }
  }

  /** What comes after the values and cannot be read as one ends the iteration, and nothing behind it is seen. */
  lemma {:induction false} ReadAllStops<T(!new)>(c: Codec<T>, xs: seq<T>, junk: Bytes)
    requires Faithful(c) && forall i | 0 <= i < |xs| :: Fits(c, xs[i])
    requires ReadBlob(junk).None? || c.decode(ReadBlob(junk).value.0).None?
    ensures ReadAll(c, WriteAll(c, xs) + junk) == xs
  {
    hide ReadBlob;
    if xs == [] {
      assert WriteAll(c, xs) + junk == junk;
    } else {
      var x, tail := xs[0], xs[1..];
      assert xs == [x] + tail;
      WriteAllCons(c, x, tail);
      assert WriteAll(c, xs) + junk == WriteBlob(c.encode(x)) + (WriteAll(c, tail) + junk);
      BlobRoundTrip(c.encode(x), WriteAll(c, tail) + junk);
      ReadAllStops(c, tail, junk);
    }
  }

  // ----- big-endian magic numbers

  function WriteU32(n: nat): (s: Bytes)
    requires n < 0x1_0000_0000
    ensures |s| == 4 && ReadU32(s) == n
  {
    var (c, b, a) := (n / 256, n / 256 / 256, n / 256 / 256 / 256);
    [a, b % 256, c % 256, n % 256]
  }

  function ReadU32(s: Bytes): nat
    requires |s| >= 4
  {
    var (a: int, b: int, c: int, d: int) := (s[0], s[1], s[2], s[3]);
    ((a * 256 + b) * 256 + c) * 256 + d
  }

  lemma ReadU32Injective(s: Bytes, t: Bytes)
    requires |s| == |t| == 4 && ReadU32(s) == ReadU32(t)
    ensures s == t
  {
    var (a: int, b: int, c: int) := (s[0], s[1], s[2]);
    var (x: int, y: int, z: int) := (t[0], t[1], t[2]);
    LastDigit((a * 256 + b) * 256 + c, s[3], (x * 256 + y) * 256 + z, t[3]);
    LastDigit(a * 256 + b, s[2], x * 256 + y, t[2]);
    LastDigit(a, s[1], x, t[1]);
  }

  lemma LastDigit(a: int, x: Byte, b: int, y: Byte)
    requires a * 256 + x == b * 256 + y
    ensures a == b && x == y
  {
  }
}
