/**
 * Post-load indexing: among the first three sampled columns, those whose dtype is
 * int64, float64 or datetime64[ns] get an index named idx_<table>_<column>.
 * A statement that raises ends the indexing without failing the import.
 */
module Indexing {
  import opened Wrappers
  import opened Csv
  import opened Sqlite

  /** Only this many leading columns are considered. */
  const MaxIndexedColumns: nat := 3

  /** The dtype names that make a column worth an index. */
  const IndexableDtypes: seq<string> := ["int64", "float64", "datetime64[ns]"]

  predicate Indexable(c: Column)
  {
    c.dtype in IndexableDtypes
  }

  /** The leading `k` columns, or all of them when there are fewer (Python's `cols[:k]`). */
  function Take(cols: seq<Column>, k: nat): (r: seq<Column>)
    ensures |r| == if |cols| <= k then |cols| else k
    ensures forall i :: 0 <= i < |r| ==> r[i] == cols[i]
  {
    if |cols| <= k then cols else cols[..k]
  }

  /** `a` is `b` with some elements left out: its elements occur in `b` in the same order. */
  predicate Subsequence(a: seq<Column>, b: seq<Column>)
  {
    if a == [] then true
    else if b == [] then false
    else (a[0] == b[0] && Subsequence(a[1..], b[1..])) || Subsequence(a, b[1..])
  }

  /** The indexable columns of `cols`, kept in their order. */
  function Indexables(cols: seq<Column>): (r: seq<Column>)
    ensures |r| <= |cols|
    ensures forall c :: c in r <==> c in cols && Indexable(c)
  {
    if |cols| == 0 then []
    else
      var rest := Indexables(cols[1..]);
      if Indexable(cols[0]) then [cols[0]] + rest else rest
  }

  /** The indexable columns are a subsequence of the input: the input's order is kept. */
  lemma {:induction false} IndexablesSubsequence(cols: seq<Column>)
    ensures Subsequence(Indexables(cols), cols)
  {
    if |cols| > 0 {
      IndexablesSubsequence(cols[1..]);
    }
  }

  /** Filtering a concatenation filters each part: order and repetitions are kept. */
  lemma {:induction false} IndexablesAppend(a: seq<Column>, b: seq<Column>)
    ensures Indexables(a + b) == Indexables(a) + Indexables(b)
  {
    if |a| > 0 {
      assert (a + b)[1..] == a[1..] + b;
      IndexablesAppend(a[1..], b);
    } else {
      assert a + b == b;
    }
  }

  /**
   * The columns that get an index, in file order: a column is a candidate exactly
   * when it is one of the first three sampled columns and its dtype is indexable.
   */
  function Candidates(sample: seq<Column>): (r: seq<Column>)
    ensures |r| <= MaxIndexedColumns
    ensures Subsequence(r, Take(sample, MaxIndexedColumns))
    ensures forall c :: c in r <==>
      (exists i :: 0 <= i < MaxIndexedColumns && i < |sample| && sample[i] == c) && Indexable(c)
  {
    var lead := Take(sample, MaxIndexedColumns);
    assert forall c :: c in lead <==> exists i :: 0 <= i < MaxIndexedColumns && i < |sample| && sample[i] == c by {
      forall c | c in lead
        ensures exists i :: 0 <= i < MaxIndexedColumns && i < |sample| && sample[i] == c
      {
        var i :| 0 <= i < |lead| && lead[i] == c;
        assert sample[i] == c;
      }
      forall c | exists i :: 0 <= i < MaxIndexedColumns && i < |sample| && sample[i] == c
        ensures c in lead
      {
        var i :| 0 <= i < MaxIndexedColumns && i < |sample| && sample[i] == c;
        assert lead[i] == c;
      }
    }
    IndexablesSubsequence(lead);
    Indexables(lead)
  }

  /** The name of the index on column `col` of table `t`: "idx_", the table, "_", the column. */
  function IndexName(t: string, col: string): (r: string)
    ensures |r| == |t| + |col| + 5
    ensures r[..4] == "idx_" && r[4..4 + |t|] == t && r[4 + |t|] == '_' && r[5 + |t|..] == col
  {
    "idx_" + t + "_" + col
  }

  /** Within one table, columns that differ up to case get index names that differ up to case. */
  lemma IndexNameInjective(t: string, a: string, b: string)
    requires Fold(IndexName(t, a)) == Fold(IndexName(t, b))
    ensures Fold(a) == Fold(b)
  {
  }

  /** Across tables the names can coincide: column "b_c" of table "a" and column "c" of table "a_b". */
  lemma IndexNameAcrossTables()
    ensures IndexName("a", "b_c") == IndexName("a_b", "c")
  {
  }

  /** No index name is the name of its own table, whatever the case. */
  lemma IndexNameNotTable(t: string, col: string)
    ensures Fold(IndexName(t, col)) != Fold(t)
  {
  }

  /** The names of `cols`, in order. */
  function Names(cols: seq<Column>): (r: seq<string>)
    ensures |r| == |cols|
    ensures forall i :: 0 <= i < |cols| ==> r[i] == cols[i].name
  {
    seq(|cols|, i requires 0 <= i < |cols| => cols[i].name)
  }

  /** The database after the index statements, and whether one of them raised. */
  datatype Indexed = Indexed(state: DbState, failed: bool)

  /**
   * Running CREATE INDEX IF NOT EXISTS for each of `cols` in order from `s`,
   * stopping at the first statement that raises. The tables never change, no
   * existing index changes, every new index is the named index of one of `cols`
   * on that column of `t`, and when nothing raised every column's index name is
   * taken by an index (that index may be another table's: see IndexNameAcrossTables)
   * and by no table.
   */
  function IndexAll(s: DbState, t: string, cols: seq<Column>): (r: Indexed)
    ensures r.state.tables == s.tables
    ensures forall n :: n in s.indexes ==> n in r.state.indexes && r.state.indexes[n] == s.indexes[n]
    ensures forall n :: n in r.state.indexes && n !in s.indexes ==>
      var ix := r.state.indexes[n];
      ix.table == Fold(t) && ix.column in Names(cols) && n == Fold(IndexName(t, ix.column))
    ensures !r.failed ==> forall c :: c in cols ==>
      Fold(IndexName(t, c.name)) in r.state.indexes && Fold(IndexName(t, c.name)) !in r.state.tables
  {
    if |cols| == 0 then Indexed(s, false)
    else
      var prev := IndexAll(s, t, cols[..|cols| - 1]);
      var c := cols[|cols| - 1];
      if prev.failed then prev
      else
        assert Names(cols) == Names(cols[..|cols| - 1]) + [c.name];
        IndexOne(prev.state, t, c.name)
  }

  /** One CREATE INDEX IF NOT EXISTS statement for column `col` of `t`, and whether it raised. */
  function IndexOne(s: DbState, t: string, col: string): (r: Indexed)
    ensures r.state.tables == s.tables
    ensures forall n :: n in s.indexes ==> n in r.state.indexes && r.state.indexes[n] == s.indexes[n]
    ensures forall n :: n in r.state.indexes && n !in s.indexes ==>
      n == Fold(IndexName(t, col)) && r.state.indexes[n] == IndexOn(Fold(t), col)
    ensures !r.failed ==> Fold(IndexName(t, col)) in r.state.indexes && Fold(IndexName(t, col)) !in r.state.tables
  {
    match WithIndex(s, IndexName(t, col), t, col)
    case None => Indexed(s, true)
    case Some(next) => Indexed(next, false)
  }

  /** Running the index statements a second time changes nothing. */
  lemma {:induction false} IndexAllTwice(s: DbState, t: string, cols: seq<Column>)
    requires !IndexAll(s, t, cols).failed
    ensures IndexAll(IndexAll(s, t, cols).state, t, cols) == IndexAll(s, t, cols)
  {
    var done := IndexAll(s, t, cols).state;
    if |cols| > 0 {
      var pre := cols[..|cols| - 1];
      var prev := IndexAll(s, t, pre);
      IndexAllKeeps(done, t, pre);
    }
  }

  /** From a database that already has every index name of `cols`, the statements change nothing. */
  lemma {:induction false} IndexAllKeeps(s: DbState, t: string, cols: seq<Column>)
    requires Fold(t) in s.tables
    requires forall c :: c in cols ==>
      Fold(IndexName(t, c.name)) in s.indexes && Fold(IndexName(t, c.name)) !in s.tables
    ensures IndexAll(s, t, cols) == Indexed(s, false)
  {
    if |cols| > 0 {
      IndexAllKeeps(s, t, cols[..|cols| - 1]);
    }
  }

  /**
   * On an existing table whose columns include every column of `cols`, and when no
   * table carries one of their index names, no statement raises.
   */
  lemma {:induction false} IndexAllSucceeds(s: DbState, t: string, cols: seq<Column>)
    requires Fold(t) in s.tables
    requires forall c :: c in cols ==>
      HasColumn(s.tables[Fold(t)], c.name) && Fold(IndexName(t, c.name)) !in s.tables
    ensures !IndexAll(s, t, cols).failed
  {
    if |cols| > 0 {
      IndexAllSucceeds(s, t, cols[..|cols| - 1]);
    }
  }

  /** Index statements change table `t`'s indexes only (a consequence of the contract of `IndexAll`). */
  lemma IndexAllStaysInside(s: DbState, t: string, cols: seq<Column>)
    ensures SameOutside(IndexAll(s, t, cols).state, s, t)
  {
  }

  /**
   * The indexing block of the import: one statement per column in order, a commit
   * when none raised, and `failed` when one raised (the error is swallowed).
   */
  method CreateIndexes(conn: Connection, t: string, cols: seq<Column>) returns (failed: bool)
    requires conn.isOpen
    modifies conn
    ensures conn.isOpen
    ensures IndexAll(old(conn.State()), t, cols) == Indexed(conn.State(), failed)
    ensures conn.commits == old(conn.commits) + (if failed then 0 else 1)
  {
    ghost var s0 := conn.State();
    var i := 0;
    while i < |cols|
      invariant i <= |cols|
      invariant conn.isOpen && conn.commits == old(conn.commits)
      invariant IndexAll(s0, t, cols[..i]) == Indexed(conn.State(), false)
    {
      assert cols[..i + 1][..i] == cols[..i];
      var ok := conn.CreateIndexIfNotExists(IndexName(t, cols[i].name), t, cols[i].name);
      if !ok {
        IndexFailureSticks(s0, t, cols, i + 1);
        return true;
      }
      i := i + 1;
    }
    assert cols[..i] == cols;
    conn.Commit();
    failed := false;
  }

  /** Once a statement has raised, later columns change nothing. */
  lemma {:induction false} IndexFailureSticks(s: DbState, t: string, cols: seq<Column>, k: nat)
    requires k <= |cols|
    requires IndexAll(s, t, cols[..k]).failed
    ensures IndexAll(s, t, cols) == IndexAll(s, t, cols[..k])
  {
    if k < |cols| {
      var last := |cols| - 1;
      assert cols[..last][..k] == cols[..k];
      IndexFailureSticks(s, t, cols[..last], k);
      assert IndexAll(s, t, cols[..last]).failed;
      assert IndexAll(s, t, cols) == IndexAll(s, t, cols[..last]);
    } else {
      assert cols[..k] == cols;
    }
  }
}
