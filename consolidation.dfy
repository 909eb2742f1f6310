/** Combining the per-file tables into one validation sheet (lines 118-138):
    every table's rows are stacked in the order the tables were read, under one
    header built from the union of their columns by the same ordering rule as a
    per-file table; a cell a table does not have is left empty. */
module Consolidation {
  import opened Values
  import opened Schema

  /** The sheet handed to the workbook writer: the header row and the body rows. */
  datatype Sheet = Sheet(header: seq<string>, body: seq<seq<Value>>)

  /** The names in a column list, as a set. */
  function Names(columns: seq<string>): (names: set<string>)
    ensures forall c :: c in names <==> c in columns
  {
    set i | 0 <= i < |columns| :: columns[i]
  }

  /** `all_columns` after every table's columns were added (line 127). */
  function AllColumns(sources: seq<Table>): (cols: set<string>)
    ensures forall c :: c in cols <==> exists k :: 0 <= k < |sources| && c in sources[k].columns
  {
    if sources == [] then {}
    else
      var prefix := sources[..|sources| - 1];
      var cols := AllColumns(prefix) + Names(sources[|sources| - 1].columns);
      assert forall k :: 0 <= k < |prefix| ==> prefix[k] == sources[k];
      cols
  }

  /** After `concat` and `reindex`, the cell of column `c` in a row that came from
      table `t`: the row's value when the table has that column and the row a
      value for it, otherwise NaN, which the workbook stores as an empty cell. */
  function CellOf(t: Table, row: Row, c: string): Value {
    if c in t.columns && c in row then row[c] else Empty
  }

  /** The rows of one table laid out under `header`. */
  function Reindex(t: Table, header: seq<string>): (body: seq<seq<Value>>)
    ensures |body| == |t.rows|
    ensures forall i :: 0 <= i < |body| ==> |body[i]| == |header|
    ensures forall i, j :: 0 <= i < |body| && 0 <= j < |header| ==> body[i][j] == CellOf(t, t.rows[i], header[j])
  {
    seq(|t.rows|, i requires 0 <= i < |t.rows| =>
      seq(|header|, j requires 0 <= j < |header| => CellOf(t, t.rows[i], header[j])))
  }

  /** Number of rows over all tables. */
  function TotalRows(sources: seq<Table>): nat {
    if sources == [] then 0 else TotalRows(sources[..|sources| - 1]) + |sources[|sources| - 1].rows|
  }

  /** `pd.concat(combined_data, ignore_index=True)` laid out under `header`. */
  function Stack(sources: seq<Table>, header: seq<string>): (body: seq<seq<Value>>)
    ensures |body| == TotalRows(sources)
    ensures forall i :: 0 <= i < |body| ==> |body[i]| == |header|
  {
    if sources == [] then []
    else Stack(sources[..|sources| - 1], header) + Reindex(sources[|sources| - 1], header)
  }

  /** The combined sheet (lines 130-138): with no table at all, a sheet with
      neither columns nor rows. */
  function Combined(sources: seq<Table>): (sheet: Sheet)
    ensures |sheet.body| == TotalRows(sources)
    ensures forall i :: 0 <= i < |sheet.body| ==> |sheet.body[i]| == |sheet.header|
    ensures sources == [] ==> sheet.header == []
    ensures sources != [] ==> forall c :: c in sheet.header <==>
      c in Fixed || exists k :: 0 <= k < |sources| && c in sources[k].columns
  {
    if sources == [] then Sheet([], [])
    else
      var header := FinalColumns(AllColumns(sources));
      Sheet(header, Stack(sources, header))
  }

  lemma TotalRowsAppend(a: seq<Table>, b: seq<Table>)
    ensures TotalRows(a + b) == TotalRows(a) + TotalRows(b)
    decreases |b|
  {
    if b == [] {
      assert a + b == a;
    } else {
      var last := b[|b| - 1];
      assert (a + b)[..|a + b| - 1] == a + b[..|b| - 1];
      TotalRowsAppend(a, b[..|b| - 1]);
    }
  }

  /** The body lists the rows of the first table, then those of the second, and so
      on, each table's rows in their own order. */
  lemma {:induction false} StackAt(sources: seq<Table>, header: seq<string>, k: nat, i: nat)
    requires k < |sources| && i < |sources[k].rows|
    ensures TotalRows(sources[..k]) + i < TotalRows(sources)
    ensures Stack(sources, header)[TotalRows(sources[..k]) + i] == Reindex(sources[k], header)[i]
    decreases |sources|
  {
    var n := |sources| - 1;
    var prefix := sources[..n];
    if k == n {
      assert sources[..k] == prefix;
    } else {
      assert prefix[..k] == sources[..k];
      StackAt(prefix, header, k, i);
    }
  }

  /** Every value of every table reaches the sheet: the row that came from row
      `i` of table `k` holds, under each of the table's columns, the value the
      row had for it. */
  lemma ValueKept(sources: seq<Table>, k: nat, i: nat, c: string)
    requires k < |sources| && i < |sources[k].rows|
    requires c in sources[k].columns && c in sources[k].rows[i]
    ensures var sheet := Combined(sources);
      && c in sheet.header
      && TotalRows(sources[..k]) + i < |sheet.body|
      && sheet.body[TotalRows(sources[..k]) + i][Rank(sheet.header, c)] == sources[k].rows[i][c]
  {
    var sheet := Combined(sources);
    StackAt(sources, sheet.header, k, i);
  }

  /** A cell whose column the row's table does not have is empty. */
  lemma ForeignColumnEmpty(sources: seq<Table>, k: nat, i: nat, j: nat)
    requires k < |sources| && i < |sources[k].rows|
    requires var header := Combined(sources).header; j < |header| && header[j] !in sources[k].columns
    ensures var sheet := Combined(sources);
      && TotalRows(sources[..k]) + i < |sheet.body|
      && sheet.body[TotalRows(sources[..k]) + i][j] == Empty
  {
    var sheet := Combined(sources);
    StackAt(sources, sheet.header, k, i);
  }

  /** The header depends only on which tables were read, not on the order in
      which the directory walk met them. */
  lemma HeaderIgnoresSourceOrder(sources: seq<Table>, permuted: seq<Table>)
    requires multiset(sources) == multiset(permuted)
    ensures Combined(sources).header == Combined(permuted).header
  {
    forall c
      ensures c in AllColumns(sources) <==> c in AllColumns(permuted)
    {
      if c in AllColumns(sources) {
        var k :| 0 <= k < |sources| && c in sources[k].columns;
        assert sources[k] in multiset(permuted);
      }
      if c in AllColumns(permuted) {
        var k :| 0 <= k < |permuted| && c in permuted[k].columns;
        assert permuted[k] in multiset(sources);
      }
    }
    assert AllColumns(sources) == AllColumns(permuted);
    if sources == [] {
      assert |permuted| == |multiset(permuted)| == 0;
    } else {
      assert |permuted| == |multiset(permuted)| > 0;
    }
  }

  /** Taking the same table out of two orderings of the same tables leaves two
      orderings of the same tables. */
  lemma RemoveMatching(sources: seq<Table>, permuted: seq<Table>, j: nat)
    requires multiset(sources) == multiset(permuted) && sources != []
    requires j < |permuted| && permuted[j] == sources[|sources| - 1]
    ensures multiset(sources[..|sources| - 1]) == multiset(permuted[..j] + permuted[j + 1..])
  {
    var n := |sources| - 1;
    var last := sources[n];
    assert sources == sources[..n] + [last];
    assert permuted == permuted[..j] + [last] + permuted[j + 1..];
    assert multiset(permuted) == multiset(permuted[..j]) + multiset{last} + multiset(permuted[j + 1..]);
    assert multiset(sources[..n]) == multiset(sources) - multiset{last};
    assert multiset(permuted[..j] + permuted[j + 1..]) == multiset(permuted) - multiset{last};
  }

  lemma TotalRowsRemove(tables: seq<Table>, j: nat)
    requires j < |tables|
    ensures TotalRows(tables) == TotalRows(tables[..j] + tables[j + 1..]) + |tables[j].rows|
  {
    assert tables == (tables[..j] + [tables[j]]) + tables[j + 1..];
    TotalRowsAppend(tables[..j] + [tables[j]], tables[j + 1..]);
    assert (tables[..j] + [tables[j]])[..j] == tables[..j];
    TotalRowsAppend(tables[..j], tables[j + 1..]);
  }

  /** The number of rows depends only on which tables were read. */
  lemma {:induction false} RowCountIgnoresSourceOrder(sources: seq<Table>, permuted: seq<Table>)
    requires multiset(sources) == multiset(permuted)
    ensures TotalRows(sources) == TotalRows(permuted)
    decreases |sources|
  {
    if sources == [] {
      assert |permuted| == |multiset(permuted)| == 0;
    } else {
      var n := |sources| - 1;
      assert sources[n] in multiset(permuted) by {
        assert sources == sources[..n] + [sources[n]];
        assert sources[n] in multiset(sources);
      }
      var j :| 0 <= j < |permuted| && permuted[j] == sources[n];
      RemoveMatching(sources, permuted, j);
      RowCountIgnoresSourceOrder(sources[..n], permuted[..j] + permuted[j + 1..]);
      TotalRowsRemove(permuted, j);
    }
  }

  /** Lines 119-138: gather the tables and their columns, then build the sheet. */
  method CombineTables(sources: seq<Table>) returns (sheet: Sheet)
    ensures sheet == Combined(sources)
  {
    var combinedData: seq<Table> := [];
    var allColumns: set<string> := {};
    for k := 0 to |sources|
      invariant combinedData == sources[..k]
      invariant allColumns == AllColumns(sources[..k])
    {
      allColumns := allColumns + Names(sources[k].columns);
      combinedData := combinedData + [sources[k]];
      assert sources[..k + 1][..k] == sources[..k];
    }
    assert sources[..|sources|] == sources;
    if combinedData != [] {
      var finalColumns := FinalColumns(allColumns);
      sheet := Sheet(finalColumns, Stack(combinedData, finalColumns));
    } else {
      sheet := Sheet([], []);
    }
  }
}
