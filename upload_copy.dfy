/**
 * The copy of a tightly packed image into a mapped upload buffer whose rows
 * are a row pitch apart, as the texture sample does before it asks the GPU to
 * copy the placed footprint into the texture.
 */
module UploadCopy {
  import opened Common

  /**
   * Offset of row `r` in a buffer whose rows start `pitch` bytes apart: where a
   * row pointer stands after being advanced by `pitch` bytes `r` times.
   */
  function RowStart(r: nat, pitch: nat): nat {
    if r == 0 then 0 else RowStart(r - 1, pitch) + pitch
  }

  /** Advancing a row pointer `r` times by `pitch` bytes moves it by `r * pitch` bytes. */
  lemma {:induction false} RowStartIsProduct(r: nat, pitch: nat)
    ensures RowStart(r, pitch) == r * pitch
  {
    if r > 0 {
      RowStartIsProduct(r - 1, pitch);
      assert r * pitch == (r - 1) * pitch + pitch;
    }
  }

  /** Later rows start further on. */
  lemma {:induction false} RowStartMonotonic(a: nat, b: nat, pitch: nat)
    requires a <= b
    ensures RowStart(a, pitch) <= RowStart(b, pitch)
    ensures a < b ==> RowStart(a, pitch) + pitch <= RowStart(b, pitch)
  {
    if a < b {
      RowStartMonotonic(a, b - 1, pitch);
    }
  }

  /** Byte `k` of row `r`, inside the pitch, splits back into its row and its column. */
  lemma RowStartSplits(r: nat, k: nat, pitch: nat)
    requires k < pitch
    ensures (RowStart(r, pitch) + k) / pitch == r && (RowStart(r, pitch) + k) % pitch == k
  {
    RowStartIsProduct(r, pitch);
    DivModOf(RowStart(r, pitch) + k, r, k, pitch);
  }

  /** Offset of byte `k` of row `r` in a buffer whose rows start `pitch` bytes apart. */
  function Offset(r: nat, k: nat, pitch: nat): nat { RowStart(r, pitch) + k }

  /** Bytes a placed footprint occupies: every row but the last takes a whole pitch. */
  function FootprintSize(numRows: nat, rowSize: nat, rowPitch: nat): nat {
    if numRows == 0 then 0 else RowStart(numRows - 1, rowPitch) + rowSize
  }

  /** Whether byte `i` of the upload buffer lies in the copied part of one of the first `numRows` rows. */
  predicate InCopiedRow(i: nat, numRows: nat, rowSize: nat, rowPitch: nat) {
    0 < rowPitch && i / rowPitch < numRows && i % rowPitch < rowSize
  }

  /** Byte `k` of every row `r` below `numRows` of `buf` holds byte `k` of row `r` of the packed `src`. */
  ghost predicate RowsCopied(buf: seq<UInt8>, src: seq<UInt8>, numRows: nat, rowSize: nat, rowPitch: nat) {
    forall r, k :: 0 <= r < numRows && 0 <= k < rowSize ==>
      && Offset(r, k, rowPitch) < |buf| && Offset(r, k, rowSize) < |src|
      && buf[Offset(r, k, rowPitch)] == src[Offset(r, k, rowSize)]
  }

  /**
   * `after` is `before` with the first `numRows` rows of `src` copied in, and
   * every other byte (the padding at the end of each pitched row, and whatever
   * follows the last row) left as it was.
   */
  ghost predicate CopiedRows(before: seq<UInt8>, after: seq<UInt8>, src: seq<UInt8>,
                             numRows: nat, rowSize: nat, rowPitch: nat) {
    && |after| == |before|
    && RowsCopied(after, src, numRows, rowSize, rowPitch)
    && forall i :: 0 <= i < |after| && !InCopiedRow(i, numRows, rowSize, rowPitch) ==> after[i] == before[i]
  }

  /**
   * Copies `numRows` rows of `rowSize` bytes, packed one after the other in
   * `src`, into `dst` at `rowPitch` bytes per row. The three sizes are what the
   * device reports for the texture's copyable footprint.
   */
  method CopyRows(dst: array<UInt8>, src: seq<UInt8>, numRows: nat, rowSize: nat, rowPitch: nat)
    requires rowSize <= rowPitch
    requires RowStart(numRows, rowSize) <= |src|
    requires FootprintSize(numRows, rowSize, rowPitch) <= dst.Length
    modifies dst
    ensures CopiedRows(old(dst[..]), dst[..], src, numRows, rowSize, rowPitch)
  {
    ghost var original := dst[..];
    var dstOffset, srcOffset := 0, 0;
    var row := 0;
    PrefixFits(0, numRows, rowSize, rowPitch);
    while row < numRows
      invariant row <= numRows
      invariant dstOffset == RowStart(row, rowPitch) && srcOffset == RowStart(row, rowSize)
      invariant RowStart(row, rowSize) <= |src| && FootprintSize(row, rowSize, rowPitch) <= dst.Length
      invariant CopiedRows(original, dst[..], src, row, rowSize, rowPitch)
    {
      RowFits(row, numRows, rowSize, rowPitch);
      ghost var before := dst[..];
      MemCopy(dst, dstOffset, src, srcOffset, rowSize);
      CopyStep(original, before, dst[..], src, row, rowSize, rowPitch);
      dstOffset := dstOffset + rowPitch;
      srcOffset := srcOffset + rowSize;
      row := row + 1;
      PrefixFits(row, numRows, rowSize, rowPitch);
    }
  }

  /** `memcpy`: copies `count` bytes of `src`, starting at `from`, into `dst` starting at `at`. */
  method MemCopy(dst: array<UInt8>, at: nat, src: seq<UInt8>, from: nat, count: nat)
    requires at + count <= dst.Length && from + count <= |src|
    modifies dst
    ensures forall i :: at <= i < at + count ==> dst[i] == src[from + (i - at)]
    ensures forall i :: 0 <= i < dst.Length && !(at <= i < at + count) ==> dst[i] == old(dst[i])
  {
    forall i | at <= i < at + count {
      dst[i] := src[from + (i - at)];
    }
  }

  /** The first `row` rows of the first `numRows` fit wherever all `numRows` do. */
  lemma PrefixFits(row: nat, numRows: nat, rowSize: nat, rowPitch: nat)
    requires row <= numRows && rowSize <= rowPitch
    ensures RowStart(row, rowSize) <= RowStart(numRows, rowSize)
    ensures FootprintSize(row, rowSize, rowPitch) <= FootprintSize(numRows, rowSize, rowPitch)
  {
    RowStartMonotonic(row, numRows, rowSize);
    if 0 < row {
      RowStartMonotonic(row - 1, numRows - 1, rowPitch);
    }
  }

  /** Row `row` below `numRows` ends within the footprint, and within the packed rows. */
  lemma RowFits(row: nat, numRows: nat, rowSize: nat, rowPitch: nat)
    requires row < numRows && rowSize <= rowPitch
    ensures RowStart(row, rowPitch) + rowSize <= FootprintSize(numRows, rowSize, rowPitch)
    ensures RowStart(row, rowSize) + rowSize <= RowStart(numRows, rowSize)
    ensures FootprintSize(row, rowSize, rowPitch) <= RowStart(row, rowPitch)
  {
    RowStartMonotonic(row, numRows - 1, rowPitch);
    RowStartMonotonic(row + 1, numRows, rowSize);
  }

  /**
   * Copying packed row `row` to its pitched place, and touching nothing else,
   * extends a copy of the first `row` rows to a copy of the first `row + 1`.
   */
  lemma CopyStep(original: seq<UInt8>, before: seq<UInt8>, after: seq<UInt8>, src: seq<UInt8>,
                 row: nat, rowSize: nat, rowPitch: nat)
    requires rowSize <= rowPitch
    requires CopiedRows(original, before, src, row, rowSize, rowPitch)
    requires |after| == |before|
    requires RowStart(row, rowPitch) + rowSize <= |before| && RowStart(row, rowSize) + rowSize <= |src|
    requires forall i :: RowStart(row, rowPitch) <= i < RowStart(row, rowPitch) + rowSize ==>
      after[i] == src[RowStart(row, rowSize) + (i - RowStart(row, rowPitch))]
    requires forall i :: 0 <= i < |after| && !(RowStart(row, rowPitch) <= i < RowStart(row, rowPitch) + rowSize) ==>
      after[i] == before[i]
    ensures CopiedRows(original, after, src, row + 1, rowSize, rowPitch)
  {
    StepKeepsRows(before, after, src, row, rowSize, rowPitch);
    StepKeepsPadding(original, before, after, src, row, rowSize, rowPitch);
  }

  /** After row `row` is copied, rows up to and including `row` hold their packed bytes. */
  lemma StepKeepsRows(before: seq<UInt8>, after: seq<UInt8>, src: seq<UInt8>,
                      row: nat, rowSize: nat, rowPitch: nat)
    requires rowSize <= rowPitch
    requires RowsCopied(before, src, row, rowSize, rowPitch)
    requires |after| == |before|
    requires RowStart(row, rowPitch) + rowSize <= |before| && RowStart(row, rowSize) + rowSize <= |src|
    requires forall i :: RowStart(row, rowPitch) <= i < RowStart(row, rowPitch) + rowSize ==>
      after[i] == src[RowStart(row, rowSize) + (i - RowStart(row, rowPitch))]
    requires forall i :: 0 <= i < |after| && !(RowStart(row, rowPitch) <= i < RowStart(row, rowPitch) + rowSize) ==>
      after[i] == before[i]
    ensures RowsCopied(after, src, row + 1, rowSize, rowPitch)
  {
    forall r, k | 0 <= r < row && 0 <= k < rowSize
      ensures Offset(r, k, rowPitch) < |after| && Offset(r, k, rowSize) < |src|
      ensures after[Offset(r, k, rowPitch)] == src[Offset(r, k, rowSize)]
    {
      RowStartMonotonic(r, row, rowPitch);
    }
  }

  /** Copying row `row` changes no byte outside the first `row + 1` copied rows. */
  lemma StepKeepsPadding(original: seq<UInt8>, before: seq<UInt8>, after: seq<UInt8>, src: seq<UInt8>,
                         row: nat, rowSize: nat, rowPitch: nat)
    requires rowSize <= rowPitch && |before| == |original| && |after| == |before|
    requires forall i :: 0 <= i < |before| && !InCopiedRow(i, row, rowSize, rowPitch) ==> before[i] == original[i]
    requires RowStart(row, rowPitch) + rowSize <= |before|
    requires forall i :: 0 <= i < |after| && !(RowStart(row, rowPitch) <= i < RowStart(row, rowPitch) + rowSize) ==>
      after[i] == before[i]
    ensures forall i :: 0 <= i < |after| && !InCopiedRow(i, row + 1, rowSize, rowPitch) ==> after[i] == original[i]
  {
    var base := RowStart(row, rowPitch);
    forall i | 0 <= i < |after| && !InCopiedRow(i, row + 1, rowSize, rowPitch)
      ensures after[i] == original[i]
    {
      if base <= i < base + rowSize {
        RowStartSplits(row, i - base, rowPitch);
        assert false;
      }
    }
  }

  /**
   * What a copy from the placed footprint reads back: the first `rowSize`
   * bytes of each of `numRows` rows that are `rowPitch` apart, packed together.
   */
  function ReadRows(buf: seq<UInt8>, numRows: nat, rowSize: nat, rowPitch: nat): (rows: seq<UInt8>)
    requires rowSize <= rowPitch && FootprintSize(numRows, rowSize, rowPitch) <= |buf|
    ensures |rows| == RowStart(numRows, rowSize)
  {
    if numRows == 0 then []
    else
      var n := numRows - 1;
      RowFits(n, numRows, rowSize, rowPitch);
      ReadRows(buf, n, rowSize, rowPitch) + buf[RowStart(n, rowPitch)..RowStart(n, rowPitch) + rowSize]
  }

  /** Reading the footprint back gives exactly the packed rows that were copied into it. */
  lemma {:induction false} ReadAfterCopy(buf: seq<UInt8>, src: seq<UInt8>, numRows: nat, rowSize: nat, rowPitch: nat)
    requires rowSize <= rowPitch && FootprintSize(numRows, rowSize, rowPitch) <= |buf|
    requires RowStart(numRows, rowSize) <= |src|
    requires RowsCopied(buf, src, numRows, rowSize, rowPitch)
    ensures ReadRows(buf, numRows, rowSize, rowPitch) == src[..RowStart(numRows, rowSize)]
  {
    if numRows > 0 {
      var n := numRows - 1;
      var last, packed := RowStart(n, rowPitch), RowStart(n, rowSize);
      RowFits(n, numRows, rowSize, rowPitch);
      FewerRowsCopied(buf, src, n, numRows, rowSize, rowPitch);
      ReadAfterCopy(buf, src, n, rowSize, rowPitch);
      RowRead(buf, src, n, numRows, rowSize, rowPitch);
      assert ReadRows(buf, numRows, rowSize, rowPitch)
          == ReadRows(buf, n, rowSize, rowPitch) + buf[last..last + rowSize];
      assert RowStart(numRows, rowSize) == packed + rowSize;
      assert src[..packed + rowSize] == src[..packed] + src[packed..packed + rowSize];
    }
  }

  /** A buffer holding the first `numRows` copied rows holds the first `row` of them too. */
  lemma FewerRowsCopied(buf: seq<UInt8>, src: seq<UInt8>, row: nat, numRows: nat, rowSize: nat, rowPitch: nat)
    requires row <= numRows
    requires RowsCopied(buf, src, numRows, rowSize, rowPitch)
    ensures RowsCopied(buf, src, row, rowSize, rowPitch)
  {
  }

  /** Row `row` of a buffer holding the copied rows reads back as packed row `row` of `src`. */
  lemma RowRead(buf: seq<UInt8>, src: seq<UInt8>, row: nat, numRows: nat, rowSize: nat, rowPitch: nat)
    requires row < numRows
    requires RowStart(row, rowPitch) + rowSize <= |buf| && RowStart(row, rowSize) + rowSize <= |src|
    requires RowsCopied(buf, src, numRows, rowSize, rowPitch)
    ensures buf[RowStart(row, rowPitch)..RowStart(row, rowPitch) + rowSize]
            == src[RowStart(row, rowSize)..RowStart(row, rowSize) + rowSize]
  {
    var last, packed := RowStart(row, rowPitch), RowStart(row, rowSize);
    var copied, packedRow := buf[last..last + rowSize], src[packed..packed + rowSize];
    forall k | 0 <= k < rowSize
      ensures copied[k] == packedRow[k]
    {
      assert buf[Offset(row, k, rowPitch)] == src[Offset(row, k, rowSize)];
    }
  }

  /** Copying into the upload buffer and reading the footprint back are inverse: the texture receives the packed image. */
  method CopyThenRead(dst: array<UInt8>, src: seq<UInt8>, numRows: nat, rowSize: nat, rowPitch: nat)
    returns (texture: seq<UInt8>)
    requires rowSize <= rowPitch
    requires RowStart(numRows, rowSize) <= |src|
    requires FootprintSize(numRows, rowSize, rowPitch) <= dst.Length
    modifies dst
    ensures texture == src[..RowStart(numRows, rowSize)]
  {
    CopyRows(dst, src, numRows, rowSize, rowPitch);
    ReadAfterCopy(dst[..], src, numRows, rowSize, rowPitch);
    texture := ReadRows(dst[..], numRows, rowSize, rowPitch);
  }
}
