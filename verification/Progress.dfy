/**
 * Progress of a hashing run: src/storage_hasher.cpp:247-265 finds the current file by a search that starts where the
 * last one ended, in the running sums of src/file_storage.cpp:341-368.
 */
module Progress {
  import opened Options
  import opened Digests
  import opened Search
  import opened Storage
  import opened HybridLayout

  /** Bytes a file counts for; v2 padding is implicit. */
  function CountedSize(f: DiskFile, v2: bool): nat {
    if v2 && f.padding then 0 else f.size
  }

  function Counted(files: seq<DiskFile>, v2: bool, n: nat): nat
    requires n <= |files|
  {
    if n == 0 then 0 else Counted(files, v2, n - 1) + CountedSize(files[n - 1], v2)
  }

  /** Without v2 padding counts like any file; with it only the regular files count. */
  lemma {:induction false} CountedTotals(files: seq<DiskFile>, n: nat)
    requires n <= |files|
    ensures Counted(files, false, n) == BytesBefore(files, n)
    ensures Counted(files, true, n) == RegularBytes(files, n)
  {
    if n > 0 {
      CountedTotals(files, n - 1);
    }
  }

  /** The running sums: how many bytes are done when file i is. */
  ghost predicate IsScan(sums: seq<nat>, files: seq<DiskFile>, v2: bool) {
    |sums| == |files| && forall i :: 0 <= i < |files| ==> sums[i] == Counted(files, v2, i + 1)
  }

  method InclusiveFileSizeScan(files: seq<DiskFile>, v2: bool) returns (sums: seq<nat>)
    ensures IsScan(sums, files, v2)
  {
    sums := [];
    var sum := 0;
    for i := 0 to |files|
      invariant |sums| == i && sum == Counted(files, v2, i)
      invariant forall k :: 0 <= k < i ==> sums[k] == Counted(files, v2, k + 1)
    {
      sum := sum + CountedSize(files[i], v2);
      sums := sums + [sum];
    }
  }

  ghost predicate NonDecreasing(sums: seq<nat>) {
    forall i, j :: 0 <= i < j < |sums| ==> sums[i] <= sums[j]
  }

  lemma {:induction false} CountedGrows(files: seq<DiskFile>, v2: bool, m: nat, n: nat)
    requires m <= n <= |files|
    ensures Counted(files, v2, m) <= Counted(files, v2, n)
  {
    if m < n {
      CountedGrows(files, v2, m, n - 1);
    }
  }

  lemma ScanIsSorted(sums: seq<nat>, files: seq<DiskFile>, v2: bool)
    requires IsScan(sums, files, v2)
    ensures NonDecreasing(sums)
  {
    forall i, j | 0 <= i < j < |sums| ensures sums[i] <= sums[j] {
      CountedGrows(files, v2, i + 1, j + 1);
    }
  }

  /** The first sum from `first` on that is not below `bytes`. */
  function FirstNotBelow(sums: seq<nat>, first: nat, bytes: nat): (k: nat)
    requires first <= |sums|
    ensures first <= k <= |sums|
    ensures forall i :: first <= i < k ==> sums[i] < bytes
    ensures k < |sums| ==> sums[k] >= bytes
    decreases |sums| - first
  {
    if first == |sums| || sums[first] >= bytes then first else FirstNotBelow(sums, first + 1, bytes)
  }

  /** std::lower_bound on the part of the sums that starts at `first`. */
  method LowerBound(sums: seq<nat>, first: nat, bytes: nat) returns (k: nat)
    requires first <= |sums| && NonDecreasing(sums)
    ensures k == FirstNotBelow(sums, first, bytes)
  {
    k := PartitionPoint(sums, first, |sums|, (sum: nat) => sum < bytes);
    IsFirst(sums, first, bytes, k);
  }

  lemma IsFirst(sums: seq<nat>, first: nat, bytes: nat, k: nat)
    requires first <= k <= |sums| && (forall i :: first <= i < k ==> sums[i] < bytes) &&
               (k < |sums| ==> sums[k] >= bytes)
    ensures k == FirstNotBelow(sums, first, bytes)
  {
    var r := FirstNotBelow(sums, first, bytes);
    hide FirstNotBelow;
    assert r < |sums| ==> sums[r] >= bytes;
  }

  /** Starting late finds the same file exactly when the start is not behind it. */
  lemma HintIsRight(sums: seq<nat>, hint: nat, bytes: nat)
    requires hint <= |sums| && NonDecreasing(sums)
    ensures FirstNotBelow(sums, hint, bytes) == FirstNotBelow(sums, 0, bytes)
            <==> hint == 0 || sums[hint - 1] < bytes
  {
    var full := FirstNotBelow(sums, 0, bytes);
    var late := FirstNotBelow(sums, hint, bytes);
    if hint > 0 && sums[hint - 1] >= bytes {
      assert full < hint;
    }
  }

  class ProgressTracker {
    const sums: seq<nat>
    var currentFileIndex: nat

    /** The largest byte count asked about. */
    ghost var seen: nat

    ghost predicate Valid()
      reads this
    {
      NonDecreasing(sums) && currentFileIndex <= |sums| && (currentFileIndex > 0 ==> sums[currentFileIndex - 1] < seen)
    }

    constructor (files: seq<DiskFile>, v2: bool)
      ensures Valid() && IsScan(sums, files, v2) && seen == 0
    {
      var scan := InclusiveFileSizeScan(files, v2);
      sums := scan;
      currentFileIndex, seen := 0, 0;
      ScanIsSorted(scan, files, v2);
    }

    /**
     * The current file and the bytes of it that are done. For byte counts that never go down the remembered start does
     * not change the answer.
     */
    method CurrentFileProgress(bytes: nat) returns (fileIndex: nat, bytesHashed: nat)
      requires Valid() && bytes >= seen
      modifies this
      ensures Valid() && seen == bytes
      ensures fileIndex == FirstNotBelow(sums, 0, bytes)
      ensures (if fileIndex == 0 then 0 else sums[fileIndex - 1]) + bytesHashed == bytes
      ensures fileIndex < |sums| ==> bytes <= sums[fileIndex]
      ensures fileIndex > 0 ==> bytesHashed > 0
    {
      HintIsRight(sums, currentFileIndex, bytes);
      var index := LowerBound(sums, currentFileIndex, bytes);
      currentFileIndex := index;
      seen := bytes;
      fileIndex := index;
      bytesHashed := if index == 0 then bytes else bytes - sums[index - 1];
    }
  }

  /** What the answers are over a run of byte counts. */
  ghost predicate Answers(sums: seq<nat>, counts: seq<nat>, answers: seq<nat>) {
    |answers| == |counts| && forall k :: 0 <= k < |counts| ==> answers[k] == FirstNotBelow(sums, 0, counts[k])
  }

  method FollowRun(tracker: ProgressTracker, counts: seq<nat>) returns (answers: seq<nat>)
    requires tracker.Valid() && NonDecreasing(counts) && (counts != [] ==> counts[0] >= tracker.seen)
    modifies tracker
    ensures Answers(tracker.sums, counts, answers)
  {
    answers := [];
    for i := 0 to |counts|
      invariant tracker.Valid() && |answers| == i
      invariant i < |counts| ==> tracker.seen <= counts[i]
      invariant forall k :: 0 <= k < i ==> answers[k] == FirstNotBelow(tracker.sums, 0, counts[k])
    {
      var index, _ := tracker.CurrentFileProgress(counts[i]);
      answers := answers + [index];
    }
  }
}
