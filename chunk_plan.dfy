/**
 * MegaStream.GetChunksPositions: where the MAC chunks of a file start. Chunk sizes ramp up
 * by 128 KiB (128 KiB, 256 KiB, ... 1 MiB) over the first eight chunks and stay at 1 MiB after.
 * The plan lists the start of every chunk but the first that begins strictly inside the file.
 */
module ChunkPlan {

  const RampUnit: nat := 131072
  const SteadyChunk: nat := 1048576

  /** The end of the k-th ramp-up chunk: chunks of 1, 2, ..., k units laid end to end. */
  function RampEnd(k: nat): nat
  {
    if k == 0 then 0 else RampEnd(k - 1) + k * RampUnit
  }

  lemma {:induction false} RampEndClosedForm(k: nat)
    ensures 2 * RampEnd(k) == RampUnit * k * (k + 1)
  {
    if k > 0 {
      RampEndClosedForm(k - 1);
      assert RampUnit * k * (k + 1) == RampUnit * (k - 1) * k + 2 * k * RampUnit;
    }
  }

  /** Boundary i: the start of chunk i + 1 (the first chunk always starts at 0). */
  function BoundaryAt(i: nat): nat
  {
    if i < 8 then RampEnd(i + 1) else RampEnd(8) + (i - 7) * SteadyChunk
  }

  /** Chunk i + 1 is (i + 2) units long during the ramp, 1 MiB afterwards. */
  lemma ChunkSize(i: nat)
    ensures BoundaryAt(i + 1) - BoundaryAt(i) == if i < 7 then (i + 2) * RampUnit else SteadyChunk
    ensures BoundaryAt(0) == RampUnit
  {
  }

  lemma {:induction false} BoundaryIncreasing(i: nat, j: nat)
    requires i < j
    ensures BoundaryAt(i) < BoundaryAt(j)
    decreases j - i
  {
    ChunkSize(i);
    if i + 1 < j {
      BoundaryIncreasing(i + 1, j);
    }
  }

  /** Every boundary is a multiple of 128 KiB (so in particular of the 16-byte AES block). */
  lemma {:induction false} BoundaryAligned(i: nat)
    ensures BoundaryAt(i) % RampUnit == 0
  {
    if i < 8 {
      RampEndAligned(i + 1);
    } else {
      RampEndAligned(8);
      assert BoundaryAt(i) == RampUnit * (RampEnd(8) / RampUnit + (i - 7) * 8);
    }
  }

  lemma {:induction false} RampEndAligned(k: nat)
    ensures RampEnd(k) % RampUnit == 0
  {
    if k > 0 {
      RampEndAligned(k - 1);
      assert RampEnd(k) == RampUnit * (RampEnd(k - 1) / RampUnit + k);
    }
  }

  /** `chunks` lists, in order, exactly the boundaries that lie strictly below `size`. */
  ghost predicate IsPlan(size: int, chunks: seq<nat>)
  {
    (forall i | 0 <= i < |chunks| :: chunks[i] == BoundaryAt(i) && chunks[i] < size)
    && BoundaryAt(|chunks|) >= size
  }

  /** A size has one plan only. */
  lemma PlanUnique(size: int, a: seq<nat>, b: seq<nat>)
    requires IsPlan(size, a) && IsPlan(size, b)
    ensures a == b
  {
    assert |a| == |b| by {
      if |a| < |b| {
        assert false;
      } else if |b| < |a| {
        assert false;
      }
    }
  }

  /** A position inside the file is in the plan exactly when it is a chunk boundary. */
  lemma InPlan(size: int, chunks: seq<nat>, pos: nat)
    requires IsPlan(size, chunks)
    ensures pos in chunks <==> pos < size && exists i: nat :: BoundaryAt(i) == pos
  {
    if pos < size && exists i: nat :: BoundaryAt(i) == pos {
      var i: nat :| BoundaryAt(i) == pos;
      if i >= |chunks| {
        if i > |chunks| {
          BoundaryIncreasing(|chunks|, i);
        }
        assert false;
      }
      assert chunks[i] == pos;
    }
  }

  /** Every plan entry is a multiple of 128 KiB and the entries strictly increase. */
  lemma PlanShape(size: int, chunks: seq<nat>)
    requires IsPlan(size, chunks)
    ensures forall i | 0 <= i < |chunks| :: chunks[i] % RampUnit == 0
    ensures forall i, j | 0 <= i < j < |chunks| :: chunks[i] < chunks[j]
  {
    forall i | 0 <= i < |chunks|
      ensures chunks[i] % RampUnit == 0
    {
      BoundaryAligned(i);
    }
    forall i, j | 0 <= i < j < |chunks|
      ensures chunks[i] < chunks[j]
    {
      BoundaryIncreasing(i, j);
    }
  }

  /**
   * GetChunksPositions: the ramp loop adds k units while the new boundary stays below the size,
   * for k = 1 to 8; the steady loop then adds 1 MiB while that stays below the size.
   */
  method GetChunksPositions(size: int) returns (chunks: seq<nat>)
    ensures IsPlan(size, chunks)
    ensures |chunks| == 0 <==> size <= RampUnit
    ensures forall i: nat :: BoundaryAt(i) < size <==> i < |chunks|
  {
    chunks := [];
    var chunkStartPosition: nat := 0;
    var idx: nat := 1;
    while idx <= 8 && chunkStartPosition < size - idx * RampUnit
      invariant 1 <= idx <= 9 && |chunks| == idx - 1
      invariant chunkStartPosition == RampEnd(idx - 1)
      invariant forall i | 0 <= i < |chunks| :: chunks[i] == BoundaryAt(i) && chunks[i] < size
    {
      chunkStartPosition := chunkStartPosition + idx * RampUnit;
      chunks := chunks + [chunkStartPosition];
      idx := idx + 1;
    }
    while chunkStartPosition + SteadyChunk < size
      invariant forall i | 0 <= i < |chunks| :: chunks[i] == BoundaryAt(i) && chunks[i] < size
      invariant |chunks| < 8 ==> chunkStartPosition == RampEnd(|chunks|) && BoundaryAt(|chunks|) >= size
      invariant |chunks| >= 8 ==> chunkStartPosition == BoundaryAt(|chunks| - 1)
      decreases size - chunkStartPosition
    {
      if |chunks| < 8 {
        assert false;
      }
      chunkStartPosition := chunkStartPosition + SteadyChunk;
      chunks := chunks + [chunkStartPosition];
    }
    forall i: nat
      ensures BoundaryAt(i) < size <==> i < |chunks|
    {
      if i > |chunks| {
        BoundaryIncreasing(|chunks|, i);
      }
    }
  }
}
