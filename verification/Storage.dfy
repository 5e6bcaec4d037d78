/** The files being hashed, as the readers see them, and the chunks they hand to the hashers. */
module Storage {
  import opened Arith
  import opened Digests
  import opened FileHashes
  import opened Options

  /** A storage entry together with what is on disk: its bytes, or nothing when the file is missing. */
  datatype DiskFile = DiskFile(size: nat, padding: bool, content: Option<seq<byte>>)
  {
    /** A file on disk has its declared size. */
    ghost predicate Valid() {
      content.Some? ==> |content.value| == size
    }

    /** Missing and padding files are read as zero bytes. */
    predicate Unread() {
      padding || content.None?
    }

    function Bytes(): (b: seq<byte>)
      requires Valid()
      ensures |b| == size
    {
      if Unread() then Zeros(size) else content.value
    }
  }

  /** `data_chunk`; no data means nothing to hash. */
  datatype Chunk = Chunk(pieceIndex: nat, fileIndex: nat, data: Option<seq<byte>>)

  const U32_MAX := 0xFFFF_FFFF

  /** `static_cast<std::uint32_t>` */
  function U32(x: int): nat { x % 0x1_0000_0000 }

  lemma U32Fits(x: nat)
    requires x <= U32_MAX
    ensures U32(x) == x
  {
  }

  ghost predicate ValidFiles(files: seq<DiskFile>) {
    forall f :: f in files ==> f.Valid()
  }

  /** Bytes in the first n files. */
  function BytesBefore(files: seq<DiskFile>, n: nat): nat
    requires n <= |files|
  {
    if n == 0 then 0 else BytesBefore(files, n - 1) + files[n - 1].size
  }

  /** The first n files joined. */
  function Joined(files: seq<DiskFile>, n: nat): (b: seq<byte>)
    requires n <= |files| && ValidFiles(files)
    ensures |b| == BytesBefore(files, n)
  {
    if n == 0 then [] else Joined(files, n - 1) + files[n - 1].Bytes()
  }

  function PieceCount(files: seq<DiskFile>, pieceSize: nat): nat
    requires pieceSize > 0
  {
    (BytesBefore(files, |files|) + pieceSize - 1) / pieceSize
  }

  /** A piece's worth of bytes from an offset on, less at the end. */
  function PieceFrom(bytes: seq<byte>, pieceSize: nat, at: nat): seq<byte>
    requires at <= |bytes|
  {
    bytes[at..Min(at + pieceSize, |bytes|)]
  }

  /** The bytes of piece k. */
  function Piece(bytes: seq<byte>, pieceSize: nat, k: nat): seq<byte>
    requires k * pieceSize <= |bytes|
  {
    PieceFrom(bytes, pieceSize, k * pieceSize)
  }

  lemma {:induction false} JoinedGrows(files: seq<DiskFile>, m: nat, n: nat)
    requires m <= n <= |files| && ValidFiles(files)
    ensures BytesBefore(files, m) <= BytesBefore(files, n)
    ensures Joined(files, n)[..BytesBefore(files, m)] == Joined(files, m)
  {
    if m < n {
      JoinedGrows(files, m, n - 1);
    }
  }

  /** A file's bytes sit in the joined bytes at its offset. */
  lemma FileInJoined(files: seq<DiskFile>, i: nat)
    requires i < |files| && ValidFiles(files)
    ensures BytesBefore(files, i) + files[i].size <= BytesBefore(files, |files|)
    ensures Joined(files, |files|)[BytesBefore(files, i)..BytesBefore(files, i) + files[i].size] == files[i].Bytes()
  {
    JoinedGrows(files, i + 1, |files|);
    var all, upto := Joined(files, |files|), Joined(files, i + 1);
    assert upto == Joined(files, i) + files[i].Bytes();
    assert all[BytesBefore(files, i)..BytesBefore(files, i + 1)]
      == all[..BytesBefore(files, i + 1)][BytesBefore(files, i)..];
  }

  lemma SliceOfSlice<T>(s: seq<T>, off: nat, size: nat, from: nat, to: nat)
    requires off + size <= |s| && from <= to <= size
    ensures s[off..off + size][from..to] == s[off + from..off + to]
  {
    var a, b := s[off..off + size][from..to], s[off + from..off + to];
    forall k | 0 <= k < to - from
      ensures a[k] == b[k]
    {
    }
  }

  lemma JoinSlices<T>(s: seq<T>, a: nat, b: nat, c: nat)
    requires a <= b <= c <= |s|
    ensures s[a..c] == s[a..b] + s[b..c]
  {
  }

  lemma BytesOfNext(files: seq<DiskFile>, i: nat)
    requires i < |files|
    ensures BytesBefore(files, i + 1) == BytesBefore(files, i) + files[i].size
  {
  }

  /** Pushing the next of a list of items. */
  lemma PushNext<T>(queue: seq<T>, all: seq<T>, k: nat)
    requires k < |all|
    ensures queue + all[..k] + [all[k]] == queue + all[..k + 1]
    ensures k + 1 == |all| ==> all[..k + 1] == all
  {
  }

  /** A single-buffer hasher: bytes accumulate until the digest is taken, which empties it. */
  class Hasher {
    var pending: seq<byte>

    constructor ()
      ensures pending == []
    {
      pending := [];
    }

    method Update(data: seq<byte>)
      modifies this
      ensures pending == old(pending) + data
    {
      pending := pending + data;
    }

    method FinalizeTo() returns (data: seq<byte>)
      modifies this
      ensures data == old(pending) && pending == []
    {
      data := pending;
      pending := [];
    }
  }
}
