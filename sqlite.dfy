/**
 * The destination database, as the importer sees it through its connection:
 * named tables of rows and named single-column indexes. SQLite identifies table,
 * index and column names up to ASCII case, so the maps are keyed by names folded
 * to lower case. SQL text, types and storage are not modelled.
 */
module Sqlite {
  import opened Wrappers
  import opened Csv

  /** ASCII upper-case letters folded to lower case; every other character is kept. */
  function FoldChar(c: char): char
  {
    if 'A' <= c <= 'Z' then (c as int - 'A' as int + 'a' as int) as char else c
  }

  /** A name as SQLite compares it: equal folds mean the same table, index or column. */
  function Fold(name: string): (r: string)
    ensures |r| == |name|
    ensures forall i :: 0 <= i < |name| ==> r[i] == FoldChar(name[i])
  {
    seq(|name|, i requires 0 <= i < |name| => FoldChar(name[i]))
  }

  /** The table has a column whose name is `col` up to case. */
  predicate HasColumn(table: Table, col: string)
  {
    exists c :: c in table.columns && Fold(c) == Fold(col)
  }

  /** A table: the column names it was created with and its rows in insertion order. */
  datatype Table = Table(columns: seq<string>, rows: seq<Row>)

  /** What an index is built on: the folded name of its table, and its column. */
  datatype IndexOn = IndexOn(table: string, column: string)

  /** The contents of the database file: tables and indexes keyed by their folded names. */
  datatype DbState = DbState(tables: map<string, Table>, indexes: map<string, IndexOn>)

  /** The `if_exists` argument of the chunk writer. */
  datatype IfExists = Replace | Append

  /** The indexes that are not built on the table keyed `key`. */
  function IndexesOff(ix: map<string, IndexOn>, key: string): map<string, IndexOn>
  {
    map n | n in ix && ix[n].table != key :: ix[n]
  }

  /**
   * DROP TABLE IF EXISTS t: the table named `t` up to case goes, and with it every
   * index built on it.
   */
  function Dropped(s: DbState, t: string): DbState
  {
    DbState(s.tables - {Fold(t)}, IndexesOff(s.indexes, Fold(t)))
  }

  /** `a` and `b` agree on every table but `t` and on every index not built on `t`. */
  predicate SameOutside(a: DbState, b: DbState, t: string)
  {
    Dropped(a, t) == Dropped(b, t)
  }

  /**
   * Writing a chunk to table `t`. Replace drops any table `t` (and its indexes) and
   * creates it with the chunk's columns and rows. Append creates the table when it
   * is absent, adds the rows after the existing ones when the columns agree, and is
   * refused (None) otherwise.
   */
  function Written(s: DbState, t: string, chunk: Chunk, mode: IfExists): Option<DbState>
  {
    var key := Fold(t);
    match mode
    case Replace =>
      Some(DbState(s.tables[key := Table(chunk.columns, chunk.rows)], IndexesOff(s.indexes, key)))
    case Append =>
      if key !in s.tables then Some(s.(tables := s.tables[key := Table(chunk.columns, chunk.rows)]))
      else if s.tables[key].columns != chunk.columns then None
      else Some(s.(tables := s.tables[key := Table(chunk.columns, s.tables[key].rows + chunk.rows)]))
  }

  /** SELECT COUNT(*) FROM t: None when the table does not exist (the query raises). */
  function RowCount(s: DbState, t: string): Option<nat>
  {
    if Fold(t) in s.tables then Some(|s.tables[Fold(t)].rows|) else None
  }

  /**
   * CREATE INDEX IF NOT EXISTS name ON t(col), in the order the engine checks:
   * the table must exist, a table called `name` makes it raise, an index already
   * called `name` makes it a no-op, and the column must exist. All names are
   * compared up to case. None is the statement raising.
   */
  function WithIndex(s: DbState, name: string, t: string, col: string): Option<DbState>
  {
    var key := Fold(t);
    if key !in s.tables then None
    else if Fold(name) in s.tables then None
    else if Fold(name) in s.indexes then Some(s)
    else if !HasColumn(s.tables[key], col) then None
    else Some(s.(indexes := s.indexes[Fold(name) := IndexOn(key, col)]))
  }

  /** Dropping a table twice is dropping it once. */
  lemma DroppedIdempotent(s: DbState, t: string)
    ensures Dropped(Dropped(s, t), t) == Dropped(s, t)
  {
  }

  /** A chunk write changes table `t` and the indexes on it, and nothing else. */
  lemma WrittenStaysInside(s: DbState, t: string, chunk: Chunk, mode: IfExists)
    requires Written(s, t, chunk, mode).Some?
    ensures SameOutside(Written(s, t, chunk, mode).value, s, t)
  {
  }

  /** Creating an index on table `t` changes nothing outside `t`. */
  lemma WithIndexStaysInside(s: DbState, name: string, t: string, col: string)
    requires WithIndex(s, name, t, col).Some?
    ensures SameOutside(WithIndex(s, name, t, col).value, s, t)
  {
  }

  /**
   * A connection to the database file. Every statement acts on the file directly;
   * `commits` counts the calls to commit.
   */
  class Connection {
    var tables: map<string, Table>
    var indexes: map<string, IndexOn>
    var isOpen: bool
    var commits: nat

    /** The contents of the database file. */
    function State(): DbState
      reads this
    {
      DbState(tables, indexes)
    }

    /** sqlite3.connect: an open connection to a file holding `file`. */
    constructor (file: DbState)
      ensures State() == file && isOpen && commits == 0
    {
      tables, indexes := file.tables, file.indexes;
      isOpen, commits := true, 0;
    }

    method DropTableIfExists(t: string)
      requires isOpen
      modifies this
      ensures isOpen && commits == old(commits)
      ensures State() == Dropped(old(State()), t)
    {
      var key := Fold(t);
      tables := tables - {key};
      indexes := IndexesOff(indexes, key);
    }

    /** DataFrame.to_sql(t, conn, if_exists=mode): false when the write raises; nothing is written then. */
    method ToSql(t: string, chunk: Chunk, mode: IfExists) returns (ok: bool)
      requires isOpen
      modifies this
      ensures isOpen && commits == old(commits)
      ensures ok <==> Written(old(State()), t, chunk, mode).Some?
      ensures ok ==> State() == Written(old(State()), t, chunk, mode).value
      ensures !ok ==> State() == old(State())
    {
      var key := Fold(t);
      ok := true;
      if mode == Replace {
        tables := tables[key := Table(chunk.columns, chunk.rows)];
        indexes := IndexesOff(indexes, key);
      } else if key !in tables {
        tables := tables[key := Table(chunk.columns, chunk.rows)];
      } else if tables[key].columns != chunk.columns {
        ok := false;
      } else {
        tables := tables[key := Table(chunk.columns, tables[key].rows + chunk.rows)];
      }
    }

    method Commit()
      requires isOpen
      modifies this
      ensures isOpen && commits == old(commits) + 1
      ensures State() == old(State())
    {
      commits := commits + 1;
    }

    /** SELECT COUNT(*) FROM t: None when there is no table `t` (up to case), its number of rows otherwise. */
    method CountRows(t: string) returns (count: Option<nat>)
      requires isOpen
      ensures count.Some? <==> Fold(t) in tables
      ensures count.Some? ==> count.value == |tables[Fold(t)].rows|
    {
      var key := Fold(t);
      if key in tables {
        count := Some(|tables[key].rows|);
      } else {
        count := None;
      }
    }

    /** CREATE INDEX IF NOT EXISTS name ON t(col): false when the statement raises. */
    method CreateIndexIfNotExists(name: string, t: string, col: string) returns (ok: bool)
      requires isOpen
      modifies this
      ensures isOpen && commits == old(commits)
      ensures ok <==> WithIndex(old(State()), name, t, col).Some?
      ensures ok ==> State() == WithIndex(old(State()), name, t, col).value
      ensures !ok ==> State() == old(State())
    {
      var key, folded := Fold(t), Fold(name);
      if key !in tables || folded in tables {
        ok := false;
      } else if folded in indexes {
        ok := true;
      } else {
        ok := exists c | c in tables[key].columns :: Fold(c) == Fold(col);
        if ok {
          indexes := indexes[folded := IndexOn(key, col)];
        }
      }
    }

    /** Closing leaves the file as it is. */
    method Close()
      modifies this
      ensures !isOpen && commits == old(commits)
      ensures State() == old(State())
    {
      isOpen := false;
    }
  }
}
