/** v1 pieces: SHA-1 hashes of consecutive stretches of one piece size. */
module Pieces {
  import opened Arith
  import opened Digests
  import opened Storage

  /** `v1_hashed_piece` */
  datatype HashedPiece = HashedPiece(index: nat, hash: PieceHash)

  /** The piece that starts at an offset, filled up with zero bytes when `pad` is set. */
  function PaddedFrom(data: seq<byte>, pieceSize: nat, at: nat, pad: bool): seq<byte>
    requires at <= |data|
  {
    var piece := PieceFrom(data, pieceSize, at);
    if pad && |piece| < pieceSize then piece + Zeros(pieceSize - |piece|) else piece
  }

  function PaddedPiece(data: seq<byte>, pieceSize: nat, k: nat, pad: bool): seq<byte>
    requires k * pieceSize <= |data|
  {
    PaddedFrom(data, pieceSize, k * pieceSize, pad)
  }

  function PieceMessages(first: nat, data: seq<byte>, pieceSize: nat, pad: bool): (r: seq<HashedPiece>)
    requires pieceSize > 0
    ensures |r| == DivCeil(|data|, pieceSize)
  {
    seq(DivCeil(|data|, pieceSize), k requires 0 <= k < DivCeil(|data|, pieceSize) =>
      DivCeilCounts(|data|, pieceSize, k);
      HashedPiece(first + k, Sha1(PaddedPiece(data, pieceSize, k, pad))))
  }

  /** How many pieces of a chunk are whole. */
  lemma WholePieces(data: seq<byte>, pieceSize: nat)
    requires pieceSize > 0
    ensures var n := DivCeil(|data|, pieceSize);
            if |data| % pieceSize == 0 then n * pieceSize == |data|
            else n > 0 && (n - 1) * pieceSize < |data| < n * pieceSize
  {
    assert |data| == |data| / pieceSize * pieceSize + |data| % pieceSize;
    assert (|data| / pieceSize + 1) * pieceSize == |data| / pieceSize * pieceSize + pieceSize;
  }

  lemma PieceAt(first: nat, data: seq<byte>, pieceSize: nat, pad: bool, k: nat)
    requires pieceSize > 0 && k < DivCeil(|data|, pieceSize)
    ensures k * pieceSize < |data|
    ensures k < DivCeil(|data|, pieceSize) - 1 || |data| % pieceSize == 0 <==> k * pieceSize + pieceSize <= |data|
    ensures PieceMessages(first, data, pieceSize, pad)[k] == HashedPiece(first + k, Sha1(
              if k * pieceSize + pieceSize <= |data| then data[k * pieceSize..k * pieceSize + pieceSize]
              else data[k * pieceSize..] + if pad then Zeros(pieceSize - (|data| - k * pieceSize)) else []))
  {
    hide DivCeil;
    DivCeilCounts(|data|, pieceSize, k);
    DivCeilCounts(|data|, pieceSize, k + 1);
    WholePieces(data, pieceSize);
    assert (k + 1) * pieceSize == k * pieceSize + pieceSize;
    PaddedPieceCases(data, pieceSize, k, pad);
  }

  lemma LastPieceIncomplete(data: seq<byte>, pieceSize: nat)
    requires pieceSize > 0 && |data| % pieceSize != 0
    ensures DivCeil(|data|, pieceSize) > 0
  {
  }

  lemma FinalPieceAt(first: nat, data: seq<byte>, pieceSize: nat, pad: bool, k: nat)
    requires pieceSize > 0 && |data| % pieceSize != 0 && k == DivCeil(|data|, pieceSize) - 1
    ensures k * pieceSize < |data| < k * pieceSize + pieceSize
    ensures var piece := data[k * pieceSize..];
            PieceMessages(first, data, pieceSize, pad)[k]
            == HashedPiece(first + k, Sha1(if pad then piece + Zeros(pieceSize - |piece|) else piece))
  {
    hide DivCeil, Zeros, PieceMessages;
    PieceAt(first, data, pieceSize, pad, k);
    assert data[k * pieceSize..] + [] == data[k * pieceSize..];
  }

  lemma PaddedPieceCases(data: seq<byte>, pieceSize: nat, k: nat, pad: bool)
    requires k * pieceSize < |data|
    ensures PaddedPiece(data, pieceSize, k, pad) ==
            if k * pieceSize + pieceSize <= |data| then data[k * pieceSize..k * pieceSize + pieceSize]
            else data[k * pieceSize..] + if pad then Zeros(pieceSize - (|data| - k * pieceSize)) else []
  {
    var at := k * pieceSize;
    assert data[at..] == data[at..|data|] && data[at..] + [] == data[at..];
  }

  /** A whole piece of a part of the bytes. */
  lemma WholePieceOfPart(all: seq<byte>, off: nat, content: seq<byte>, pieceSize: nat, at: nat, pad: bool)
    requires off + |content| <= |all| && all[off..off + |content|] == content
    requires at + pieceSize <= |content|
    ensures PaddedFrom(content, pieceSize, at, pad) == PieceFrom(all, pieceSize, off + at)
  {
    var piece := PieceFrom(content, pieceSize, at);
    SliceOfSlice(all, off, |content|, at, at + pieceSize);
    assert piece == PieceFrom(all, pieceSize, off + at) && |piece| == pieceSize;
  }

  /** The rest of a part at the very end of the bytes. */
  lemma LastPieceOfPart(all: seq<byte>, off: nat, content: seq<byte>, pieceSize: nat, at: nat)
    requires off + |content| == |all| && all[off..] == content
    requires at <= |content| < at + pieceSize
    ensures PaddedFrom(content, pieceSize, at, false) == PieceFrom(all, pieceSize, off + at)
  {
    assert all[off + at..|all|] == content[at..];
  }

  /** The rest of a part that zero bytes follow. */
  lemma FilledPieceOfPart(all: seq<byte>, off: nat, content: seq<byte>, pieceSize: nat, at: nat)
    requires at <= |content| < at + pieceSize
    requires off + at + pieceSize <= |all| && all[off..off + |content|] == content
    requires all[off + |content|..off + at + pieceSize] == Zeros(pieceSize - (|content| - at))
    ensures PaddedFrom(content, pieceSize, at, true) == PieceFrom(all, pieceSize, off + at)
  {
    hide Zeros;
    var rest := PieceFrom(content, pieceSize, at);
    SliceOfSlice(all, off, |content|, at, |content|);
    JoinSlices(all, off + at, off + |content|, off + at + pieceSize);
    assert rest == all[off + at..off + |content|];
  }
}
