/** The row copies of the emulated DMA engine. */
module DmaCopy {
  import opened Bytes

  const FAKE_SMEM_START := 0x1000_0000
  const TWO_32 := 0x1_0000_0000

  /** struct r1_dma_descriptor: two 32-bit offsets, two signed 16-bit strides, two 16-bit counts */
  datatype Descriptor = Descriptor(sourceOffset: nat, destinationPhysical: nat, sourceStride: int, destinationStride: int,
                                   lineBytes: nat, rows: nat) {
    predicate Valid() {
      && sourceOffset < TWO_32 && destinationPhysical < TWO_32 && lineBytes < 0x1_0000 && rows < 0x1_0000
      && -0x8000 <= sourceStride < 0x8000 && -0x8000 <= destinationStride < 0x8000
    }
  }

  /** Where row k is read and written. */
  function Source(d: Descriptor, k: nat): int { d.sourceOffset + k * d.sourceStride }

  /** The subtraction wraps around in 32 bits. */
  function Destination(d: Descriptor, k: nat): int {
    (d.destinationPhysical - FAKE_SMEM_START) % TWO_32 + k * d.destinationStride
  }

  predicate InRange(d: Descriptor, k: nat, sourceLength: nat, destinationLength: nat) {
    && 0 <= Source(d, k) && 0 <= Destination(d, k)
    && Source(d, k) + d.lineBytes <= sourceLength && Destination(d, k) + d.lineBytes <= destinationLength
  }

  /** The first n rows are all in range. */
  ghost predicate AllInRange(d: Descriptor, n: nat, sourceLength: nat, destinationLength: nat) {
    forall k | 0 <= k < n :: InRange(d, k, sourceLength, destinationLength)
  }

  /** The target after the first n rows, one after the other. */
  ghost function Copied(d: Descriptor, n: nat, source: seq<byte>, target: seq<byte>): (r: seq<byte>)
    requires AllInRange(d, n, |source|, |target|)
    ensures |r| == |target|
  {
    if n == 0 then target
    else
      assert InRange(d, n - 1, |source|, |target|);
      Overwrite(Copied(d, n - 1, source, target), Destination(d, n - 1), source[Source(d, n - 1)..Source(d, n - 1) + d.lineBytes])
  }

  /**
   copy_dma_rows: it stops before the first row that is out of range, having copied the rows before
   it, and succeeds when there is no such row. A mapping that is not there is `None`.
   */
  method CopyDmaRows(d: Descriptor, source: Option<array<byte>>, target: Option<array<byte>>) returns (ok: bool,
                     ghost copied: nat)
    requires d.Valid() && (source.Some? && target.Some? ==> source.value != target.value)
    modifies if target.Some? then {target.value} else {}
    ensures source.None? || target.None? || d.lineBytes == 0 || d.rows == 0 ==>
              !ok && copied == 0 && (target.Some? ==> target.value[..] == old(target.value[..]))
    ensures source.Some? && target.Some? && d.lineBytes > 0 && d.rows > 0 ==>
              && copied <= d.rows
              && AllInRange(d, copied, source.value.Length, target.value.Length)
              && target.value[..] == Copied(d, copied, source.value[..], old(target.value[..]))
              && (ok <==> copied == d.rows)
              && (copied < d.rows ==> !InRange(d, copied, source.value.Length, target.value.Length))
  {
    hide Overwrite;
    hide Source;
    hide Destination;
    hide Copied;
    hide InRange;
    hide AllInRange;
    copied := 0;
    if source.None? || target.None? || d.lineBytes == 0 || d.rows == 0 {
      return false, 0;
    }
    var from, to, dma, frame := d.sourceOffset, (d.destinationPhysical - FAKE_SMEM_START) % TWO_32, source.value, target.value;
    FirstRow(d);
    CopiedNothing(d, dma[..], frame[..]);
    for row := 0 to d.rows
      invariant copied == row && from == Source(d, row) && to == Destination(d, row)
      invariant AllInRange(d, row, dma.Length, frame.Length)
      invariant frame[..] == Copied(d, row, dma[..], old(frame[..]))
    {
      RangeIs(d, row, dma.Length, frame.Length);
      if from < 0 || to < 0 || from + d.lineBytes > dma.Length || to + d.lineBytes > frame.Length {
        return false, copied;
      }
      CopyRow(dma, from, frame, to, d.lineBytes);
      CopiedMore(d, row, dma[..], old(frame[..]));
      NextRow(d, row);
      from := from + d.sourceStride;
      to := to + d.destinationStride;
      copied := copied + 1;
    }
    return true, copied;
  }

  /** memcpy between the two mappings */
  method CopyRow(source: array<byte>, from: nat, target: array<byte>, to: nat, count: nat)
    requires source != target && from + count <= source.Length && to + count <= target.Length
    modifies target
    ensures target[..] == Overwrite(old(target[..]), to, source[from..from + count])
  {
    forall k | 0 <= k < count {
      target[to + k] := source[from + k];
    }
  }

  lemma FirstRow(d: Descriptor)
    ensures Source(d, 0) == d.sourceOffset
    ensures Destination(d, 0) == (d.destinationPhysical - FAKE_SMEM_START) % TWO_32
  {
    assert 0 * d.sourceStride == 0 && 0 * d.destinationStride == 0;
  }

  lemma RangeIs(d: Descriptor, k: nat, sourceLength: nat, destinationLength: nat)
    ensures InRange(d, k, sourceLength, destinationLength) <==>
              && 0 <= Source(d, k) && 0 <= Destination(d, k)
              && Source(d, k) + d.lineBytes <= sourceLength && Destination(d, k) + d.lineBytes <= destinationLength
  {
  }

  lemma {:induction false} CopiedNothing(d: Descriptor, source: seq<byte>, target: seq<byte>)
    ensures AllInRange(d, 0, |source|, |target|) && Copied(d, 0, source, target) == target
  {
  }

  lemma CopiedMore(d: Descriptor, n: nat, source: seq<byte>, target: seq<byte>)
    requires AllInRange(d, n, |source|, |target|) && InRange(d, n, |source|, |target|)
    ensures AllInRange(d, n + 1, |source|, |target|)
    ensures 0 <= Source(d, n) <= Source(d, n) + d.lineBytes <= |source| && 0 <= Destination(d, n)
    ensures Copied(d, n + 1, source, target) ==
      Overwrite(Copied(d, n, source, target), Destination(d, n), source[Source(d, n)..Source(d, n) + d.lineBytes])
  {
    hide Overwrite;
    hide Source;
    hide Destination;
  }

  lemma NextRow(d: Descriptor, row: nat)
    ensures Source(d, row + 1) == Source(d, row) + d.sourceStride
    ensures Destination(d, row + 1) == Destination(d, row) + d.destinationStride
  {
    assert (row + 1) * d.sourceStride == row * d.sourceStride + d.sourceStride;
    assert (row + 1) * d.destinationStride == row * d.destinationStride + d.destinationStride;
  }

  lemma MultiplesApart(k: int, m: int, s: int)
    requires k < m
    ensures s >= 0 ==> m * s - k * s >= s
    ensures s <= 0 ==> m * s - k * s <= s
  {
    assert m * s - k * s == (m - k) * s;
    if s >= 0 {
      assert (m - k - 1) * s >= 0;
    } else {
      assert (m - k - 1) * s <= 0;
    }
    assert (m - k) * s == (m - k - 1) * s + s;
  }

  /** Rows that are at least a line apart do not overlap. */
  lemma RowsApart(d: Descriptor, k: nat, m: nat)
    requires k != m && (d.destinationStride >= d.lineBytes || -d.destinationStride >= d.lineBytes)
    ensures Destination(d, k) + d.lineBytes <= Destination(d, m) || Destination(d, m) + d.lineBytes <= Destination(d, k)
  {
    if k < m {
      MultiplesApart(k, m, d.destinationStride);
    } else {
      MultiplesApart(m, k, d.destinationStride);
    }
  }

  predicate InRow(d: Descriptor, k: nat, i: int) {
    Destination(d, k) <= i < Destination(d, k) + d.lineBytes
  }

  lemma LastRow(d: Descriptor, n: nat, source: seq<byte>, target: seq<byte>, i: nat)
    requires n > 0 && AllInRange(d, n, |source|, |target|) && i < |target|
    requires InRange(d, n - 1, |source|, |target|)
    ensures Copied(d, n, source, target)[i] ==
              if InRow(d, n - 1, i) then source[Source(d, n - 1) + i - Destination(d, n - 1)]
              else Copied(d, n - 1, source, target)[i]
  {
    var k := n - 1;
    var bytes := source[Source(d, k)..Source(d, k) + d.lineBytes];
    hide Overwrite;
  }

  /** When the rows do not overlap the copy is the rectangle: each byte of a row comes from that row ... */
  lemma {:induction false} CopiedInRow(d: Descriptor, n: nat, source: seq<byte>, target: seq<byte>, k: nat, i: nat)
    requires AllInRange(d, n, |source|, |target|) && k < n && InRange(d, k, |source|, |target|)
    requires InRow(d, k, i) && i < |target|
    requires d.destinationStride >= d.lineBytes || -d.destinationStride >= d.lineBytes
    ensures Copied(d, n, source, target)[i] == source[Source(d, k) + i - Destination(d, k)]
  {
    hide Copied;
    hide Source;
    hide Destination;
    assert InRange(d, n - 1, |source|, |target|);
    LastRow(d, n, source, target, i);
    if k < n - 1 {
      RowsApart(d, k, n - 1);
      CopiedInRow(d, n - 1, source, target, k, i);
    }
  }

  /** ... and what is in no row is as before, whatever the strides. */
  lemma {:induction false} CopiedOutside(d: Descriptor, n: nat, source: seq<byte>, target: seq<byte>, i: nat)
    requires AllInRange(d, n, |source|, |target|) && i < |target| && forall k: nat | k < n :: !InRow(d, k, i)
    ensures Copied(d, n, source, target)[i] == target[i]
  {
    if n > 0 {
      assert InRange(d, n - 1, |source|, |target|);
      LastRow(d, n, source, target, i);
      CopiedOutside(d, n - 1, source, target, i);
    }
  }
}
