/**
 * The progress counter of the import: a byte estimate that starts at 0 and,
 * after each chunk, moves by chunksize * ncols * 8 clamped to what is left
 * of the file size.
 */
module Progress {
  import opened Csv

  /** The number of rows per chunk when the caller gives none. */
  const DefaultChunkSize: nat := 10000

  /** The heuristic number of bytes per cell. */
  const BytesPerCell: nat := 8

  function Min(a: int, b: int): int
  {
    if a <= b then a else b
  }

  /** The unclamped estimate for one chunk: the chunk size, not the chunk's actual length. */
  function Estimate(chunkSize: nat, ncols: nat): nat
  {
    chunkSize * ncols * BytesPerCell
  }

  /**
   * The amount added to the counter `n` after a chunk with `ncols` columns.
   * From any counter within [0, fileSize] it keeps the counter within that range,
   * it adds nothing once the counter has reached the file size, and it never
   * adds more than the estimate.
   */
  function Step(chunkSize: nat, ncols: nat, fileSize: nat, n: int): (d: int)
    ensures 0 <= n <= fileSize ==> 0 <= d && n + d <= fileSize
    ensures n == fileSize ==> d == 0
    ensures d <= Estimate(chunkSize, ncols)
  {
    Min(Estimate(chunkSize, ncols), fileSize - n)
  }

  /** The counter after the chunks `chunks` were written, starting from 0. */
  function Counter(chunkSize: nat, chunks: seq<Chunk>, fileSize: nat): (n: int)
    ensures 0 <= n <= fileSize
  {
    if |chunks| == 0 then 0
    else
      var before := Counter(chunkSize, chunks[..|chunks| - 1], fileSize);
      before + Step(chunkSize, |chunks[|chunks| - 1].columns|, fileSize, before)
  }

  /** The unclamped total of the estimates of all chunks. */
  function Budget(chunkSize: nat, chunks: seq<Chunk>): nat
  {
    if |chunks| == 0 then 0
    else Budget(chunkSize, chunks[..|chunks| - 1]) + Estimate(chunkSize, |chunks[|chunks| - 1].columns|)
  }

  /** The counter is the sum of the estimates, capped once at the file size. */
  lemma {:induction false} CounterClosedForm(chunkSize: nat, chunks: seq<Chunk>, fileSize: nat)
    ensures Counter(chunkSize, chunks, fileSize) == Min(fileSize, Budget(chunkSize, chunks))
  {
    if |chunks| > 0 {
      CounterClosedForm(chunkSize, chunks[..|chunks| - 1], fileSize);
    }
  }

  /** The counter never decreases as more chunks are written. */
  lemma {:induction false} CounterMonotone(chunkSize: nat, chunks: seq<Chunk>, fileSize: nat, k: nat)
    requires k <= |chunks|
    ensures Counter(chunkSize, chunks[..k], fileSize) <= Counter(chunkSize, chunks, fileSize)
  {
    if k < |chunks| {
      var last := |chunks| - 1;
      assert chunks[..last][..k] == chunks[..k];
      CounterMonotone(chunkSize, chunks[..last], fileSize, k);
    } else {
      assert chunks[..k] == chunks;
    }
  }

  /**
   * The counter depends on the chunks' column counts only: a short last chunk
   * moves it exactly as far as a full one.
   */
  lemma {:induction false} CounterIgnoresRows(chunkSize: nat, a: seq<Chunk>, b: seq<Chunk>, fileSize: nat)
    requires |a| == |b|
    requires forall i :: 0 <= i < |a| ==> |a[i].columns| == |b[i].columns|
    ensures Counter(chunkSize, a, fileSize) == Counter(chunkSize, b, fileSize)
  {
    if |a| > 0 {
      CounterIgnoresRows(chunkSize, a[..|a| - 1], b[..|b| - 1], fileSize);
    }
  }
}
