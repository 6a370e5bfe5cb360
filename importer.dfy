/**
 * The import as a whole: sniff the separator, connect, sample the schema, drop the
 * table, load the chunks, count the rows, create the indexes, and close the
 * connection on every path. Every error but the indexing one ends the import.
 */
module Importer {
  import opened Wrappers
  import opened Csv
  import opened Delimiter
  import opened Sqlite
  import opened Loading
  import opened Indexing
  import opened Progress

  /**
   * The input file. `size` is its byte size; `header` its first line (None when
   * opening or reading it raises); `parse(sep)` what the CSV reader produces when
   * the file is read with separator `sep`.
   */
  datatype Source =
    | Missing
    | Present(size: nat, header: Option<string>, parse: char -> Parsed)

  /** Where an import that raised stopped. */
  datatype Stage = ReadHeader | Connect | ReadSample | WriteChunks | CountRows

  /**
   * How the import ended: the row count reported and whether indexing raised (and
   * was swallowed); the missing-file report; or the report of any other error.
   */
  datatype Outcome =
    | Imported(rowCount: nat, indexFailed: bool)
    | FileNotFound
    | Failed(stage: Stage)

  /** The outcome, the database file afterwards, whether a connection was opened, and the commits made. */
  datatype RunResult = RunResult(outcome: Outcome, after: DbState, connected: bool, commits: nat)

  /**
   * The part of the import that runs on an open connection to a file holding `file`.
   * It never reports a missing file; it fails at the sample read exactly when the
   * sample cannot be parsed, and then leaves the file as it was without a commit;
   * otherwise the drop has been committed.
   */
  function Session(file: DbState, t: string, parsed: Parsed): (r: RunResult)
    ensures r.connected && r.outcome != FileNotFound
    ensures r.outcome.Failed? ==> r.outcome.stage in {ReadSample, WriteChunks, CountRows}
    ensures r.outcome == Failed(ReadSample) <==> parsed.sample.None?
    ensures parsed.sample.None? ==> r.after == file && r.commits == 0
    ensures parsed.sample.Some? ==> r.commits >= 1
  {
    match parsed.sample
    case None => RunResult(Failed(ReadSample), file, true, 0)
    case Some(sample) =>
      var loaded := Load(Dropped(file, t), t, parsed.reader.chunks);
      var commits := 1 + loaded.written;
      if loaded.failed || parsed.reader.raises then RunResult(Failed(WriteChunks), loaded.state, true, commits)
      else match RowCount(loaded.state, t)
        case None => RunResult(Failed(CountRows), loaded.state, true, commits)
        case Some(n) =>
          var ix := IndexAll(loaded.state, t, Candidates(sample));
          RunResult(Imported(n, ix.failed), ix.state, true, commits + if ix.failed then 0 else 1)
  }

  /**
   * The whole import of `src` into table `t` of a database file holding `file`. A
   * missing file is reported as such and as nothing else; a connection is opened
   * exactly when the file exists, its header can be read and the database opens;
   * without one the database is untouched and nothing is committed.
   */
  function Run(file: DbState, src: Source, dbOpens: bool, t: string): (r: RunResult)
    ensures r.outcome == FileNotFound <==> src.Missing?
    ensures r.connected <==> src.Present? && src.header.Some? && dbOpens
    ensures !r.connected ==> r.after == file && r.commits == 0
  {
    match src
    case Missing => RunResult(FileNotFound, file, false, 0)
    case Present(_, header, parse) =>
      if header.None? then RunResult(Failed(ReadHeader), file, false, 0)
      else if !dbOpens then RunResult(Failed(Connect), file, false, 0)
      else Session(file, t, parse(Separator(header.value)))
  }

  /** A session changes table `t` and the indexes on it, and nothing else. */
  lemma SessionStaysInside(file: DbState, t: string, parsed: Parsed)
    ensures SameOutside(Session(file, t, parsed).after, file, t)
  {
    if parsed.sample.Some? {
      var dropped := Dropped(file, t);
      DroppedIdempotent(file, t);
      var loaded := Load(dropped, t, parsed.reader.chunks);
      LoadStaysInside(dropped, t, parsed.reader.chunks);
      IndexAllStaysInside(loaded.state, t, Candidates(parsed.sample.value));
    }
  }

  /**
   * Importing the same input twice leaves the same database and reports the same
   * outcome as importing it once: the table is replaced, never duplicated.
   */
  lemma RunIdempotent(file: DbState, src: Source, dbOpens: bool, t: string)
    ensures Run(Run(file, src, dbOpens, t).after, src, dbOpens, t) == Run(file, src, dbOpens, t)
  {
    if src.Present? && src.header.Some? && dbOpens {
      SessionStaysInside(file, t, src.parse(Separator(src.header.value)));
    }
  }

  /**
   * An import that reports a row count has written every chunk: all chunks carry
   * the first chunk's columns, the table holds all their rows in file order, and
   * the count is the sum of the chunks' lengths.
   */
  lemma SessionImportedHoldsAllRows(file: DbState, t: string, parsed: Parsed)
    requires Session(file, t, parsed).outcome.Imported?
    ensures var chunks := parsed.reader.chunks;
      var r := Session(file, t, parsed);
      && |chunks| > 0
      && !parsed.reader.raises
      && (forall j :: 0 <= j < |chunks| ==> chunks[j].columns == chunks[0].columns)
      && Fold(t) in r.after.tables
      && r.after.tables[Fold(t)] == Table(chunks[0].columns, Concat(chunks))
      && r.outcome.rowCount == TotalRows(chunks)
      && r.commits == |chunks| + (if r.outcome.indexFailed then 1 else 2)
  {
    var chunks := parsed.reader.chunks;
    var dropped := Dropped(file, t);
    DroppedIdempotent(file, t);
    LoadCommitsPrefix(dropped, t, chunks);
    var loaded := Load(dropped, t, chunks);
    assert chunks[..|chunks|] == chunks;
    assert Fold(t) !in dropped.tables;
    ConcatLength(chunks);
  }

  /**
   * An import whose chunk loop raised keeps what it committed: the table is absent
   * when no chunk was written and otherwise holds exactly the rows of the chunks
   * written before the error, one commit after the drop and one per such chunk.
   */
  lemma SessionFailedKeepsPrefix(file: DbState, t: string, parsed: Parsed)
    requires Session(file, t, parsed).outcome == Failed(WriteChunks)
    ensures var chunks := parsed.reader.chunks;
      var r := Session(file, t, parsed);
      var k := r.commits - 1;
      && 0 <= k <= |chunks|
      && (k == 0 ==> Fold(t) !in r.after.tables)
      && (k > 0 ==> Fold(t) in r.after.tables && r.after.tables[Fold(t)] == Table(chunks[0].columns, Concat(chunks[..k])))
  {
    var dropped := Dropped(file, t);
    DroppedIdempotent(file, t);
    LoadCommitsPrefix(dropped, t, parsed.reader.chunks);
    assert Fold(t) !in dropped.tables;
  }

  /**
   * A reader that yields no chunk leaves the table dropped and never recreated,
   * and the row count query then raises.
   */
  lemma SessionNoChunks(file: DbState, t: string, parsed: Parsed)
    requires parsed.sample.Some?
    requires parsed.reader.chunks == []
    ensures Session(file, t, parsed).outcome == Failed(if parsed.reader.raises then WriteChunks else CountRows)
    ensures Session(file, t, parsed).after == Dropped(file, t)
  {
  }

  /**
   * After an import that reports a row count, every index on table `t` is the named
   * index of a candidate column (one of the first three sampled columns of an
   * indexable dtype) on that column; when indexing did not raise, an index of each
   * candidate's name exists and no table has that name.
   */
  lemma SessionIndexes(file: DbState, t: string, parsed: Parsed)
    requires Session(file, t, parsed).outcome.Imported?
    ensures var r := Session(file, t, parsed);
      var candidates := Candidates(parsed.sample.value);
      && (forall n :: n in r.after.indexes && r.after.indexes[n].table == Fold(t) ==>
            var ix := r.after.indexes[n];
            ix.column in Names(candidates) && n == Fold(IndexName(t, ix.column)))
      && (!r.outcome.indexFailed ==> forall c :: c in candidates ==>
            Fold(IndexName(t, c.name)) in r.after.indexes && Fold(IndexName(t, c.name)) !in r.after.tables)
  {
    var chunks := parsed.reader.chunks;
    var dropped := Dropped(file, t);
    DroppedIdempotent(file, t);
    LoadCommitsPrefix(dropped, t, chunks);
    var loaded := Load(dropped, t, chunks);
    assert loaded.state.indexes == dropped.indexes;
    assert forall n :: n in dropped.indexes ==> dropped.indexes[n].table != Fold(t);
  }

  /**
   * Indexing succeeds when the sampled columns are columns of every chunk (the
   * sample and the chunks are read from the same header) and no table of the
   * database already carries a candidate's index name.
   */
  lemma SessionIndexesSucceed(file: DbState, t: string, parsed: Parsed)
    requires Session(file, t, parsed).outcome.Imported?
    requires forall c, ch :: c in parsed.sample.value && ch in parsed.reader.chunks ==> c.name in ch.columns
    requires forall c :: c in Candidates(parsed.sample.value) ==> Fold(IndexName(t, c.name)) !in file.tables
    ensures !Session(file, t, parsed).outcome.indexFailed
  {
    var chunks := parsed.reader.chunks;
    var sample := parsed.sample.value;
    var dropped := Dropped(file, t);
    DroppedIdempotent(file, t);
    LoadCommitsPrefix(dropped, t, chunks);
    var loaded := Load(dropped, t, chunks);
    var candidates := Candidates(sample);
    var key := Fold(t);
    assert key !in dropped.tables;
    var table := Table(chunks[0].columns, Concat(chunks[..|chunks|]));
    assert loaded.state.tables == dropped.tables[key := table];
    forall c | c in candidates
      ensures HasColumn(loaded.state.tables[key], c.name) && Fold(IndexName(t, c.name)) !in loaded.state.tables
    {
      var i :| 0 <= i < |Take(sample, MaxIndexedColumns)| && Take(sample, MaxIndexedColumns)[i] == c;
      assert c in sample;
      assert c.name in chunks[0].columns;
      IndexNameNotTable(t, c.name);
    }
    IndexAllSucceeds(loaded.state, t, candidates);
  }

  /**
   * The statements of the import on an open connection, in the order
   * import_with_progress issues them; the
   * caller closes the connection afterwards, whatever happens here.
   */
  method ImportOnConnection(conn: Connection, t: string, parsed: Parsed, chunkSize: nat, fileSize: nat)
    returns (outcome: Outcome)
    requires conn.isOpen
    modifies conn
    ensures conn.isOpen
    ensures outcome == Session(old(conn.State()), t, parsed).outcome
    ensures conn.State() == Session(old(conn.State()), t, parsed).after
    ensures conn.commits == old(conn.commits) + Session(old(conn.State()), t, parsed).commits
  {
    if parsed.sample.None? {
      return Failed(ReadSample);
    }
    conn.DropTableIfExists(t);
    conn.Commit();
    var written, failed, progress := LoadChunks(conn, t, parsed.reader.chunks, chunkSize, fileSize);
    if failed || parsed.reader.raises {
      return Failed(WriteChunks);
    }
    var count := conn.CountRows(t);
    if count.None? {
      return Failed(CountRows);
    }
    var indexFailed := CreateIndexes(conn, t, Candidates(parsed.sample.value));
    outcome := Imported(count.value, indexFailed);
  }

  /**
   * import_with_progress: the outcome and the database file are those `Run` gives;
   * a connection is opened exactly when the file exists, its header can be read and
   * the database opens, and an opened connection is closed on every path.
   */
  method ImportWithProgress(file: DbState, src: Source, dbOpens: bool, t: string, chunkSize: nat := DefaultChunkSize)
    returns (outcome: Outcome, conn: Connection?)
    ensures outcome == Run(file, src, dbOpens, t).outcome
    ensures conn == null <==> !Run(file, src, dbOpens, t).connected
    ensures conn == null ==> Run(file, src, dbOpens, t).after == file
    ensures conn != null ==> fresh(conn) && !conn.isOpen
    ensures conn != null ==> conn.State() == Run(file, src, dbOpens, t).after
    ensures conn != null ==> conn.commits == Run(file, src, dbOpens, t).commits
  {
    conn := null;
    match src {
      case Missing =>
        outcome := FileNotFound;
      case Present(size, header, parse) =>
        if header.None? {
          outcome := Failed(ReadHeader);
        } else {
          var sep := Separator(header.value);
          if !dbOpens {
            outcome := Failed(Connect);
          } else {
            conn := new Connection(file);
            outcome := ImportOnConnection(conn, t, parse(sep), chunkSize, size);
            conn.Close();
          }
        }
    }
  }
}
