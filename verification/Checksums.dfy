/**
 * The per-file checksums of src/v1_checksum_hasher.cpp: one hasher runs over the joined files, chunk by chunk, and is
 * emptied at the end of every file.
 */
module Checksums {
  import opened Digests
  import opened Options
  import opened Storage

  /** The digest of a file's bytes. */
  datatype Checksum = Checksum(data: seq<byte>)

  function Before(files: seq<seq<byte>>, n: nat): nat
    requires n <= |files|
  {
    if n == 0 then 0 else Before(files, n - 1) + |files[n - 1]|
  }

  function Concat(parts: seq<seq<byte>>, n: nat): (r: seq<byte>)
    requires n <= |parts|
    ensures |r| == Before(parts, n)
  {
    if n == 0 then [] else Concat(parts, n - 1) + parts[n - 1]
  }

  lemma {:induction false} ConcatGrows(parts: seq<seq<byte>>, m: nat, n: nat)
    requires m <= n <= |parts|
    ensures Before(parts, m) <= Before(parts, n)
    ensures Concat(parts, n)[..Before(parts, m)] == Concat(parts, m)
  {
    if m < n {
      ConcatGrows(parts, m, n - 1);
    }
  }

  /** A part's bytes at its place in the whole. */
  lemma PartInConcat(parts: seq<seq<byte>>, i: nat)
    requires i < |parts|
    ensures Before(parts, i + 1) == Before(parts, i) + |parts[i]| <= Before(parts, |parts|)
    ensures Concat(parts, |parts|)[Before(parts, i)..Before(parts, i + 1)] == parts[i]
  {
    ConcatGrows(parts, i + 1, |parts|);
    var all, upto := Concat(parts, |parts|), Concat(parts, i + 1);
    assert upto == Concat(parts, i) + parts[i];
    assert all[Before(parts, i)..Before(parts, i + 1)] == all[..Before(parts, i + 1)][Before(parts, i)..];
  }

  /** Files up to the last one with content. */
  function Covered(files: seq<seq<byte>>): (n: nat)
    ensures n <= |files|
    ensures n > 0 ==> files[n - 1] != []
    ensures forall i :: n <= i < |files| ==> files[i] == []
  {
    if files == [] then 0
    else if files[|files| - 1] != [] then |files|
    else Covered(files[..|files| - 1])
  }

  lemma {:induction false} NothingAfter(files: seq<seq<byte>>, m: nat, n: nat)
    requires m <= n <= |files|
    ensures Before(files, m) == Before(files, n) <==> forall i :: m <= i < n ==> files[i] == []
  {
    if m < n {
      NothingAfter(files, m, n - 1);
      ConcatGrows(files, m, n - 1);
    }
  }

  class V1ChecksumHasher {
    const sizes: seq<nat>
    const hasher: Hasher
    var currentFile: nat
    var dataHashed: nat
    var bytesHashed: nat
    var checksums: seq<Option<Checksum>>

    /** The files whose bytes come in, and how many bytes have. */
    ghost const files: seq<seq<byte>>
    ghost var consumed: nat

    /** Between two parts of a chunk: the hasher holds the part of the current file that has come in. */
    ghost predicate Between()
      reads this, hasher
    {
      && |sizes| == |files| == |checksums| && (forall i :: 0 <= i < |files| ==> sizes[i] == |files[i]|)
      && currentFile <= |files| && bytesHashed == consumed && Finished(currentFile)
      && if currentFile == |files| then hasher.pending == [] && consumed == Before(files, currentFile)
         else
           && dataHashed <= sizes[currentFile] && (dataHashed == sizes[currentFile] ==> dataHashed == 0)
           && hasher.pending == files[currentFile][..dataHashed]
           && consumed == Before(files, currentFile) + dataHashed
    }

    /** Between two chunks, no empty file has been closed ahead of the data behind it. */
    ghost predicate Valid()
      reads this, hasher
    {
      Between() && (currentFile > 0 && (currentFile == |files| || dataHashed == 0) ==> sizes[currentFile - 1] > 0)
    }

    /** The first n files have the digests of their own bytes, the others none. */
    ghost predicate Finished(n: nat)
      reads this
    {
      |checksums| == |files| && forall i :: 0 <= i < |files| ==>
        checksums[i] == if i < n then Some(Checksum(files[i])) else None
    }

    constructor (files: seq<seq<byte>>)
      ensures Valid() && this.files == files && consumed == 0 && fresh(hasher)
    {
      this.files := files;
      sizes := seq(|files|, i requires 0 <= i < |files| => |files[i]|);
      hasher := new Hasher();
      currentFile, dataHashed, bytesHashed, consumed := 0, 0, 0, 0;
      checksums := seq(|files|, _ => None);
    }

    /** The chunk is the data that comes next. */
    ghost predicate IsNext(data: seq<byte>, at: nat)
      reads this
    {
      && at + |data| <= Before(files, |files|)
      && data == Concat(files, |files|)[at..at + |data|]
    }

    /** Hashes a chunk; the source asks for a current file. */
    method HashChunk(data: seq<byte>)
      requires Valid() && IsNext(data, consumed) && currentFile < |sizes|
      modifies this, hasher
      ensures Valid() && consumed == old(consumed) + |data|
    {
      ghost var start := consumed;
      var chunkOffset := 0;
      while chunkOffset != |data|
        invariant 0 <= chunkOffset <= |data| && consumed == start + chunkOffset
        invariant Between() && (chunkOffset == |data| ==> Valid())
        decreases |data| - chunkOffset, |sizes| - currentFile
      {
        chunkOffset := HashPart(data, chunkOffset, start);
      }
    }

    /** The part of the chunk that belongs to the current file, which is closed when it is complete. */
    method HashPart(data: seq<byte>, chunkOffset: nat, ghost start: nat) returns (next: nat)
      requires Between() && IsNext(data, start) && chunkOffset < |data| && consumed == start + chunkOffset
      modifies this, hasher
      ensures Between() && chunkOffset <= next <= |data| && consumed == start + next
      ensures next == |data| ==> Valid()
      ensures next > chunkOffset || currentFile > old(currentFile)
    {
      StillData(files, currentFile, consumed);
      var currentFileSize := sizes[currentFile];
      var n := Min(currentFileSize - dataHashed, |data| - chunkOffset);
      PartOfFile(files, data, start, chunkOffset, currentFile, dataHashed, n);
      hide Before, Concat;
      hasher.Update(data[chunkOffset..chunkOffset + n]);
      next := chunkOffset + n;
      bytesHashed := bytesHashed + n;
      dataHashed := dataHashed + n;
      consumed := consumed + n;
      if dataHashed == currentFileSize {
        CloseFile();
      }
    }

    /** Takes the digest of the current file and moves on to the next. */
    method CloseFile()
      requires |sizes| == |files| == |checksums| && (forall i :: 0 <= i < |files| ==> sizes[i] == |files[i]|)
      requires currentFile < |files| && Finished(currentFile) && bytesHashed == consumed
      requires dataHashed == sizes[currentFile] && hasher.pending == files[currentFile][..dataHashed]
      requires consumed == Before(files, currentFile) + dataHashed
      modifies this`currentFile, this`dataHashed, this`checksums, hasher
      ensures Between() && currentFile == old(currentFile) + 1
      ensures currentFile < |files| ==> dataHashed == 0
    {
      ghost var done := currentFile;
      assert files[done][..|files[done]|] == files[done];
      var digest := hasher.FinalizeTo();
      checksums := checksums[currentFile := Some(Checksum(digest))];
      currentFile := currentFile + 1;
      if currentFile < |sizes| {
        dataHashed := 0;
      }
    }

    /**
     * Any split of the joined files into chunks, empty ones included: every file up to the last one with content gets
     * the digest of its own bytes, empty ones in between included; the empty files behind it get none. The contracts of
     * a chunk, that it has data and that there is a current file, fail exactly for a chunk that stands for a piece of a
     * missing or padding file, and for an empty one behind all bytes of a storage whose last file has content.
     */
    method HashAll(chunks: seq<Chunk>) returns (ok: bool)
      requires Valid() && consumed == 0
      requires WithData(chunks) <= Concat(files, |files|)
      requires (forall c :: c in chunks ==> c.data.Some?) ==> WithData(chunks) == Concat(files, |files|)
      modifies this, hasher
      ensures ok <==> forall k :: 0 <= k < |chunks| ==> Accepted(files, chunks, k)
      ensures ok ==> Finished(Covered(files)) && bytesHashed == Before(files, |files|)
    {
      var k := 0;
      ok := true;
      while k < |chunks|
        invariant k <= |chunks| && Valid()
        invariant consumed == |WithData(chunks[..k])|
        invariant forall j :: 0 <= j < k ==> chunks[j].data.Some? && Accepted(files, chunks, j)
      {
        hide Concat, Before, Covered, WithData, Accepted, Valid;
        ok := HashNext(chunks, k);
        if !ok {
          return false;
        }
        k := k + 1;
      }
      assert chunks[..|chunks|] == chunks;
      AllCovered();
    }

    method HashNext(chunks: seq<Chunk>, k: nat) returns (ok: bool)
      requires Valid() && k < |chunks| && WithData(chunks) <= Concat(files, |files|)
      requires (forall j :: 0 <= j < k ==> chunks[j].data.Some?) && consumed == |WithData(chunks[..k])|
      modifies this, hasher
      ensures Valid() && (ok <==> Accepted(files, chunks, k))
      ensures ok ==> chunks[k].data.Some? && consumed == |WithData(chunks[..k + 1])|
    {
      hide WithData, Before, Concat, Covered;
      if chunks[k].data.None? {
        return false;
      }
      NextWithData(chunks, k);
      NextOfPrefix(WithData(chunks[..k]), chunks[k].data.value, WithData(chunks), Concat(files, |files|));
      HasCurrentFile();
      if currentFile == |sizes| {
        return false;
      }
      HashChunk(chunks[k].data.value);
      ok := true;
    }

    lemma HasCurrentFile()
      requires Valid() && consumed <= Before(files, |files|)
      ensures currentFile < |files| <==> consumed < Before(files, |files|) || Covered(files) < |files|
    {
      if consumed == Before(files, |files|) {
        AllCovered();
      }
    }

    lemma AllCovered()
      requires Valid() && consumed == Before(files, |files|)
      ensures currentFile == Covered(files)
    {
      if currentFile < |files| {
        PartInConcat(files, currentFile);
      }
      NothingAfter(files, currentFile, |files|);
    }
  }

  /** The bytes of the chunks in front of the first one without data. */
  function WithData(chunks: seq<Chunk>): seq<byte> {
    if chunks == [] || chunks[0].data.None? then [] else chunks[0].data.value + WithData(chunks[1..])
  }

  lemma NextOfPrefix(before: seq<byte>, data: seq<byte>, part: seq<byte>, all: seq<byte>)
    requires before + data <= part <= all
    ensures |before| + |data| <= |all| && data == all[|before|..|before| + |data|]
  {
  }

  /** The contracts of `hash_chunk` for chunk k: it has data, and there is a current file. */
  predicate Accepted(files: seq<seq<byte>>, chunks: seq<Chunk>, k: nat)
    requires k < |chunks|
  {
    chunks[k].data.Some? && (|WithData(chunks[..k])| < Before(files, |files|) || Covered(files) < |files|)
  }

  /** Chunk k goes on where the ones before end. */
  lemma {:induction false} NextWithData(chunks: seq<Chunk>, k: nat)
    requires k < |chunks| && forall j :: 0 <= j <= k ==> chunks[j].data.Some?
    ensures WithData(chunks[..k + 1]) == WithData(chunks[..k]) + chunks[k].data.value
    ensures WithData(chunks[..k + 1]) <= WithData(chunks)
  {
    if k == 0 {
      assert chunks[..1][1..] == [] && chunks[..0] == [];
    } else {
      NextWithData(chunks[1..], k - 1);
      assert chunks[..k + 1][1..] == chunks[1..][..k] && chunks[..k][1..] == chunks[1..][..k - 1];
    }
  }

  /** While data is missing there is a current file. */
  lemma StillData(files: seq<seq<byte>>, i: nat, at: nat)
    requires i <= |files| && at < Before(files, |files|) && (i == |files| ==> at == Before(files, i))
    ensures i < |files|
  {
  }

  lemma PartOfFile(files: seq<seq<byte>>, data: seq<byte>, start: nat, offset: nat, i: nat, hashed: nat, n: nat)
    requires i < |files| && start + |data| <= Before(files, |files|)
    requires data == Concat(files, |files|)[start..start + |data|]
    requires start + offset == Before(files, i) + hashed && hashed + n <= |files[i]| && offset + n <= |data|
    ensures files[i][..hashed] + data[offset..offset + n] == files[i][..hashed + n]
  {
    PartInConcat(files, i);
    var all := Concat(files, |files|);
    var b := Before(files, i);
    hide Before, Concat;
    SliceOfSlice(all, start, |data|, offset, offset + n);
    SliceOfSlice(all, b, |files[i]|, hashed, hashed + n);
    JoinSlices(files[i], 0, hashed, hashed + n);
    assert files[i][0..hashed] == files[i][..hashed] && files[i][0..hashed + n] == files[i][..hashed + n];
  }
}
