/**
 * What the CSV reader hands to the importer. Parsing and dtype inference are
 * library code; the model takes their results as given values.
 */
module Csv {
  import opened Wrappers

  /** One data row: its field values, aligned with the chunk's columns. */
  type Row = seq<string>

  /** A batch of consecutive data rows, with the header's column names. */
  datatype Chunk = Chunk(columns: seq<string>, rows: seq<Row>)

  /** A column of the schema sample, with the name of its inferred dtype ("int64", "object", ...). */
  datatype Column = Column(name: string, dtype: string)

  /**
   * A chunked reader: it yields `chunks` in file order and then either stops or,
   * when `raises` holds, raises (a malformed row, a decoding error, a rejected
   * chunk size) instead of stopping.
   */
  datatype Reader = Reader(chunks: seq<Chunk>, raises: bool)

  /**
   * What reading the file with one separator produces: the schema sample of the
   * first rows (None when that read raises) and the chunked reader.
   */
  datatype Parsed = Parsed(sample: Option<seq<Column>>, reader: Reader)

  /** All rows of `chunks`, in file order. */
  function Concat(chunks: seq<Chunk>): seq<Row>
  {
    if |chunks| == 0 then [] else Concat(chunks[..|chunks| - 1]) + chunks[|chunks| - 1].rows
  }

  /** The sum of the chunks' lengths. */
  function TotalRows(chunks: seq<Chunk>): nat
  {
    if |chunks| == 0 then 0 else TotalRows(chunks[..|chunks| - 1]) + |chunks[|chunks| - 1].rows|
  }

  /** The rows of the chunks number exactly the sum of the chunks' lengths. */
  lemma {:induction false} ConcatLength(chunks: seq<Chunk>)
    ensures |Concat(chunks)| == TotalRows(chunks)
  {
    if |chunks| > 0 {
      ConcatLength(chunks[..|chunks| - 1]);
    }
  }

  /** Taking more chunks only adds rows at the end: earlier rows are never lost or reordered. */
  lemma {:induction false} ConcatPrefix(chunks: seq<Chunk>, k: nat)
    requires k <= |chunks|
    ensures Concat(chunks[..k]) <= Concat(chunks)
  {
    if k < |chunks| {
      var last := |chunks| - 1;
      assert chunks[..last][..k] == chunks[..k];
      ConcatPrefix(chunks[..last], k);
    } else {
      assert chunks[..k] == chunks;
    }
  }
}
