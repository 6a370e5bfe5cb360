/**
 * The chunk loop of the import: the first chunk replaces the table, every later
 * chunk is appended, and after each chunk the progress counter moves and the
 * connection commits.
 */
module Loading {
  import opened Wrappers
  import opened Csv
  import opened Sqlite
  import opened Progress

  /** The write mode of the chunk at position `i`. */
  function Mode(i: nat): (m: IfExists)
    ensures m == Replace <==> i == 0
  {
    if i == 0 then Replace else Append
  }

  /** The database after the loop, how many chunks were written, and whether a write raised. */
  datatype Loaded = Loaded(state: DbState, written: nat, failed: bool)

  /** One turn of the loop: write chunk `i` unless an earlier write has raised. */
  function Next(prev: Loaded, t: string, chunk: Chunk, i: nat): Loaded
  {
    if prev.failed then prev
    else match Written(prev.state, t, chunk, Mode(i))
      case None => Loaded(prev.state, i, true)
      case Some(next) => Loaded(next, i + 1, false)
  }

  /**
   * Writing `chunks` one after the other from `s`, stopping at the first write
   * that raises. Only a write that raises stops the loop early.
   */
  function Load(s: DbState, t: string, chunks: seq<Chunk>): (r: Loaded)
    ensures r.written <= |chunks|
    ensures r.failed <==> r.written < |chunks|
  {
    if |chunks| == 0 then Loaded(s, 0, false)
    else Next(Load(s, t, chunks[..|chunks| - 1]), t, chunks[|chunks| - 1], |chunks| - 1)
  }

  /** Once a write has raised, later chunks change nothing. */
  lemma {:induction false} LoadFailureSticks(s: DbState, t: string, chunks: seq<Chunk>, k: nat)
    requires k <= |chunks|
    requires Load(s, t, chunks[..k]).failed
    ensures Load(s, t, chunks) == Load(s, t, chunks[..k])
  {
    if k < |chunks| {
      var last := |chunks| - 1;
      assert chunks[..last][..k] == chunks[..k];
      LoadFailureSticks(s, t, chunks[..last], k);
    } else {
      assert chunks[..k] == chunks;
    }
  }

  /**
   * What a load from a database without table `t` leaves behind: the chunks that
   * were written all carry the first chunk's columns, the table holds exactly their
   * rows in file order (and is still absent when no chunk was written), no other
   * table or index changed, and a write raised only on a chunk whose columns differ
   * from the first chunk's.
   */
  ghost predicate CommittedPrefix(s: DbState, t: string, chunks: seq<Chunk>, r: Loaded)
    requires r.written <= |chunks|
  {
    && (forall j :: 0 <= j < r.written ==> chunks[j].columns == chunks[0].columns)
    && (r.failed ==> 0 < r.written < |chunks| && chunks[r.written].columns != chunks[0].columns)
    && (r.written == 0 ==> r.state == s)
    && (r.written > 0 ==>
          r.state == DbState(s.tables[Fold(t) := Table(chunks[0].columns, Concat(chunks[..r.written]))], s.indexes))
  }

  /** The first chunk replaces the freshly dropped table. */
  lemma LoadFirst(s: DbState, t: string, chunks: seq<Chunk>)
    requires Dropped(s, t) == s
    requires |chunks| == 1
    ensures CommittedPrefix(s, t, chunks, Load(s, t, chunks))
  {
    assert chunks[..0] == [];
    assert Load(s, t, chunks[..0]) == Loaded(s, 0, false);
    assert IndexesOff(s.indexes, Fold(t)) == s.indexes;
    var table := Table(chunks[0].columns, chunks[0].rows);
    assert Written(s, t, chunks[0], Mode(0)) == Some(DbState(s.tables[Fold(t) := table], s.indexes));
    assert Load(s, t, chunks) == Loaded(DbState(s.tables[Fold(t) := table], s.indexes), 1, false);
    assert chunks[..1] == chunks;
    assert Concat(chunks) == Concat(chunks[..0]) + chunks[0].rows;
    assert Concat(chunks[..1]) == chunks[0].rows;
  }

  /** Appending to the table the earlier chunks built: it grows when the columns agree and raises otherwise. */
  lemma AppendToBuilt(s: DbState, t: string, columns: seq<string>, rows: seq<Row>, chunk: Chunk)
    requires Fold(t) !in s.tables
    ensures Written(DbState(s.tables[Fold(t) := Table(columns, rows)], s.indexes), t, chunk, Append)
      == if chunk.columns == columns
         then Some(DbState(s.tables[Fold(t) := Table(columns, rows + chunk.rows)], s.indexes))
         else None
  {
    var built := DbState(s.tables[Fold(t) := Table(columns, rows)], s.indexes);
    assert built.tables[Fold(t) := Table(columns, rows + chunk.rows)] == s.tables[Fold(t) := Table(columns, rows + chunk.rows)];
  }

  /** Once a write has raised, what was committed stays the committed prefix. */
  lemma LoadNextAfterFailure(s: DbState, t: string, chunks: seq<Chunk>)
    requires |chunks| > 1
    requires Load(s, t, chunks[..|chunks| - 1]).failed
    requires CommittedPrefix(s, t, chunks[..|chunks| - 1], Load(s, t, chunks[..|chunks| - 1]))
    ensures CommittedPrefix(s, t, chunks, Load(s, t, chunks))
  {
    var pre := chunks[..|chunks| - 1];
    var prev := Load(s, t, pre);
    assert Load(s, t, chunks) == prev;
    var w := prev.written;
    assert pre[0] == chunks[0];
    assert pre[w] == chunks[w];
    assert pre[..w] == chunks[..w];
    forall j | 0 <= j < w
      ensures chunks[j].columns == chunks[0].columns
    {
      assert pre[j] == chunks[j];
    }
  }

  /** After a clean prefix, the next chunk is appended when its columns agree and raises otherwise. */
  lemma LoadNextAppend(s: DbState, t: string, pre: seq<Chunk>, chunk: Chunk, prev: Loaded)
    requires Fold(t) !in s.tables
    requires |pre| > 0
    requires prev.written == |pre| && !prev.failed
    requires CommittedPrefix(s, t, pre, prev)
    ensures CommittedPrefix(s, t, pre + [chunk], Next(prev, t, chunk, |pre|))
  {
    var k := |pre|;
    var chunks := pre + [chunk];
    var c0 := pre[0].columns;
    assert pre[..k] == pre;
    AppendToBuilt(s, t, c0, Concat(pre), chunk);
    assert chunks[..k] == pre;
    assert forall j :: 0 <= j < k ==> chunks[j] == pre[j];
    if chunk.columns == c0 {
      assert chunks[..k + 1] == chunks;
      assert Concat(chunks) == Concat(pre) + chunk.rows;
    }
  }

  /** Loading into a database where table `t` has just been dropped commits a prefix of the chunks. */
  lemma {:induction false} LoadCommitsPrefix(s: DbState, t: string, chunks: seq<Chunk>)
    requires Dropped(s, t) == s
    ensures CommittedPrefix(s, t, chunks, Load(s, t, chunks))
  {
    if |chunks| == 1 {
      LoadFirst(s, t, chunks);
    } else if |chunks| > 1 {
      LoadCommitsPrefix(s, t, chunks[..|chunks| - 1]);
      if Load(s, t, chunks[..|chunks| - 1]).failed {
        LoadNextAfterFailure(s, t, chunks);
      } else {
        assert Fold(t) !in Dropped(s, t).tables;
        var k := |chunks| - 1;
        assert chunks[..k] + [chunks[k]] == chunks;
        LoadNextAppend(s, t, chunks[..k], chunks[k], Load(s, t, chunks[..k]));
      }
    }
  }

  /** When every chunk has the first chunk's columns, no write raises and the table holds every row. */
  lemma LoadAllRows(s: DbState, t: string, chunks: seq<Chunk>)
    requires Dropped(s, t) == s
    requires |chunks| > 0
    requires forall j :: 0 <= j < |chunks| ==> chunks[j].columns == chunks[0].columns
    ensures Load(s, t, chunks)
      == Loaded(DbState(s.tables[Fold(t) := Table(chunks[0].columns, Concat(chunks))], s.indexes), |chunks|, false)
  {
    LoadCommitsPrefix(s, t, chunks);
    assert chunks[..|chunks|] == chunks;
  }

  /** A load changes table `t` and the indexes on it, and nothing else. */
  lemma {:induction false} LoadStaysInside(s: DbState, t: string, chunks: seq<Chunk>)
    ensures SameOutside(Load(s, t, chunks).state, s, t)
  {
    if |chunks| > 0 {
      var k := |chunks| - 1;
      var prev := Load(s, t, chunks[..k]);
      LoadStaysInside(s, t, chunks[..k]);
      if !prev.failed && Written(prev.state, t, chunks[k], Mode(k)).Some? {
        WrittenStaysInside(prev.state, t, chunks[k], Mode(k));
      }
    }
  }

  /**
   * The loop of the import over an open connection. The database ends as `Load`
   * says, one commit follows each chunk written, and the progress counter ends at
   * the value the written chunks give it, within [0, fileSize].
   */
  method LoadChunks(conn: Connection, t: string, chunks: seq<Chunk>, chunkSize: nat, fileSize: nat)
    returns (written: nat, failed: bool, progress: int)
    requires conn.isOpen
    modifies conn
    ensures conn.isOpen
    ensures Load(old(conn.State()), t, chunks) == Loaded(conn.State(), written, failed)
    ensures conn.commits == old(conn.commits) + written
    ensures progress == Counter(chunkSize, chunks[..written], fileSize)
    ensures 0 <= progress <= fileSize
  {
    ghost var s0 := conn.State();
    written, failed, progress := 0, false, 0;
    while written < |chunks|
      invariant written <= |chunks|
      invariant conn.isOpen
      invariant Load(s0, t, chunks[..written]) == Loaded(conn.State(), written, false)
      invariant conn.commits == old(conn.commits) + written
      invariant progress == Counter(chunkSize, chunks[..written], fileSize)
      invariant 0 <= progress <= fileSize
    {
      var i := written;
      assert chunks[..i + 1][..i] == chunks[..i];
      var ok := conn.ToSql(t, chunks[i], Mode(i));
      if !ok {
        failed := true;
        LoadFailureSticks(s0, t, chunks, i + 1);
        return;
      }
      progress := progress + Step(chunkSize, |chunks[i].columns|, fileSize, progress);
      conn.Commit();
      written := i + 1;
    }
    assert chunks[..written] == chunks;
  }
}
