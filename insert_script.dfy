/**
 * The script assembler: GenerateInsertScript turns a loaded table into one
 * `INSERT INTO [t] (...) VALUES (...);` line per row.
 */
module InsertScript {
  import opened Optional
  import opened SqlStrings
  import opened SqlValue

  /** A DataColumn: its name and its DataType. */
  datatype Column = Column(name: string, kind: ColumnType)

  /** A DataRow: one cell per column, in column order. */
  type Row = seq<Cell>

  /** A filled DataTable: its columns and its rows, in the order they were loaded. */
  datatype DataTable = DataTable(columns: seq<Column>, rows: seq<Row>)

  /** A row that has one cell per column, each fitting its column's type. */
  predicate RowFits(columns: seq<Column>, row: Row) {
    |row| == |columns| && forall k :: 0 <= k < |row| ==> Conforms(row[k], columns[k].kind)
  }

  /** The shape every DataTable has: each of its rows fits its columns. */
  predicate WellFormed(t: DataTable) {
    forall i :: 0 <= i < |t.rows| ==> RowFits(t.columns, t.rows[i])
  }

  /** The column names, each between brackets, in column order. */
  function BracketedNames(columns: seq<Column>): (names: seq<string>)
    ensures |names| == |columns|
  {
    seq(|columns|, k requires 0 <= k < |columns| => "[" + columns[k].name + "]")
  }

  /** The literal of every cell of `row`, formatted by its column's type, in column order. */
  function FormattedValues(columns: seq<Column>, row: Row): (values: seq<string>)
    requires RowFits(columns, row)
    ensures |values| == |columns|
  {
    seq(|columns|, k requires 0 <= k < |columns| => FormatSqlValue(row[k], columns[k].kind))
  }

  /** Everything before the values: the same for every row of a table. */
  function StatementHeader(tableName: string, columns: seq<Column>): string {
    "INSERT INTO [" + tableName + "] (" + Join(", ", BracketedNames(columns)) + ") VALUES ("
  }

  /** The text of the statement for one row, without its line terminator. */
  function InsertStatement(tableName: string, columns: seq<Column>, row: Row): string
    requires RowFits(columns, row)
  {
    StatementHeader(tableName, columns) + Join(", ", FormattedValues(columns, row)) + ");"
  }

  /** The statements of all rows, in row order. */
  function Statements(tableName: string, t: DataTable): (statements: seq<string>)
    requires WellFormed(t)
    ensures |statements| == |t.rows|
  {
    seq(|t.rows|, i requires 0 <= i < |t.rows| => InsertStatement(tableName, t.columns, t.rows[i]))
  }

  /** Each line followed by the line terminator, as `StringBuilder.AppendLine` writes them. */
  function Terminated(lines: seq<string>): string
    decreases |lines|
  {
    if lines == [] then "" else lines[0] + "\n" + Terminated(lines[1..])
  }

  /** The script the generator produces for a table. */
  function Script(tableName: string, t: DataTable): string
    requires WellFormed(t)
  {
    Terminated(Statements(tableName, t))
  }

  /** Appending one line to the builder extends the terminated text by that line. */
  lemma {:induction false} TerminatedSnoc(lines: seq<string>, line: string)
    ensures Terminated(lines + [line]) == Terminated(lines) + line + "\n"
    decreases |lines|
  {
    if lines == [] {
      assert [line][1..] == [];
    } else {
      assert (lines + [line])[1..] == lines[1..] + [line];
      TerminatedSnoc(lines[1..], line);
    }
  }

  /**
   * GenerateInsertScript: a missing table or one without rows gives the
   * empty text; otherwise, for every row in order, the bracketed column
   * names and the formatted cells are collected column by column and one
   * terminated INSERT line is appended.
   */
  method GenerateInsertScript(table: Option<DataTable>, tableName: string) returns (script: string)
    requires table.Some? ==> WellFormed(table.value)
    ensures table.None? ==> script == ""
    ensures table.Some? ==> script == Script(tableName, table.value)
  {
    if table.None? || |table.value.rows| == 0 {
      return "";
    }
    var t := table.value;
    ghost var statements := Statements(tableName, t);
    var sb := "";
    var i := 0;
    while i < |t.rows|
      invariant 0 <= i <= |t.rows|
      invariant sb == Terminated(statements[..i])
    {
      var row := t.rows[i];
      ghost var names, literals := BracketedNames(t.columns), FormattedValues(t.columns, row);
      var columnNames: seq<string> := [];
      var values: seq<string> := [];
      var k := 0;
      while k < |t.columns|
        invariant 0 <= k <= |t.columns|
        invariant |columnNames| == k && |values| == k
        invariant forall j :: 0 <= j < k ==> columnNames[j] == names[j]
        invariant forall j :: 0 <= j < k ==> values[j] == literals[j]
      {
        columnNames := columnNames + ["[" + t.columns[k].name + "]"];
        values := values + [FormatSqlValue(row[k], t.columns[k].kind)];
        k := k + 1;
      }
      assert columnNames == names;
      assert values == literals;
      var line := "INSERT INTO [" + tableName + "] (" + Join(", ", columnNames) +
                  ") VALUES (" + Join(", ", values) + ");";
      assert line == statements[i];
      AppendLineStep(statements, i, sb);
      sb := sb + line + "\n";
      i := i + 1;
    }
    assert statements[..i] == statements;
    script := sb;
  }

  /** Appending statement i to the first i terminated statements gives the first i + 1. */
  lemma AppendLineStep(statements: seq<string>, i: nat, sb: string)
    requires i < |statements| && sb == Terminated(statements[..i])
    ensures sb + statements[i] + "\n" == Terminated(statements[..i + 1])
  {
    TerminatedSnoc(statements[..i], statements[i]);
    assert statements[..i + 1] == statements[..i] + [statements[i]];
  }

  /** A table without rows gives the empty script, and only such a table does. */
  lemma ScriptEmpty(tableName: string, t: DataTable)
    requires WellFormed(t)
    ensures Script(tableName, t) == "" <==> |t.rows| == 0
  {
  }

  /** The offset of the first line break in `s`, or `|s|` when there is none. */
  function LineEnd(s: string): (i: nat)
    ensures i <= |s| && '\n' !in s[..i] && (i < |s| ==> s[i] == '\n')
  {
    if s == [] || s[0] == '\n' then 0
    else
      var j := 1 + LineEnd(s[1..]);
      assert s[..j] == [s[0]] + s[1..][..j - 1];
      j
  }

  /** The lines of a text, each without its terminator; a trailing terminator ends the last line. */
  function Lines(s: string): seq<string>
    decreases |s|
  {
    if s == [] then []
    else
      var i := LineEnd(s);
      [s[..i]] + if i < |s| then Lines(s[i + 1..]) else []
  }

  lemma {:induction false} LineEndBefore(a: string, b: string)
    requires '\n' !in a
    ensures LineEnd(a + "\n" + b) == |a|
    decreases |a|
  {
    if a != [] {
      assert (a + "\n" + b)[1..] == a[1..] + "\n" + b;
      assert a[0] in a;
      LineEndBefore(a[1..], b);
    }
  }

  /** Reading the lines of terminated single-line texts gives those texts back. */
  lemma {:induction false} LinesOfTerminated(lines: seq<string>)
    requires forall i :: 0 <= i < |lines| ==> '\n' !in lines[i]
    ensures Lines(Terminated(lines)) == lines
    decreases |lines|
  {
    if lines != [] {
      var s := Terminated(lines);
      LineEndBefore(lines[0], Terminated(lines[1..]));
      assert s[..|lines[0]|] == lines[0];
      assert s[|lines[0]| + 1..] == Terminated(lines[1..]);
      LinesOfTerminated(lines[1..]);
      assert lines == [lines[0]] + lines[1..];
    }
  }

  /** No identifier or text value of the table holds a line break. */
  predicate SingleLineTable(tableName: string, t: DataTable) {
    '\n' !in tableName &&
    (forall k :: 0 <= k < |t.columns| ==> '\n' !in t.columns[k].name) &&
    (forall i, k :: 0 <= i < |t.rows| && 0 <= k < |t.rows[i]| ==> SingleLine(t.rows[i][k]))
  }

  lemma StatementSingleLine(tableName: string, columns: seq<Column>, row: Row)
    requires RowFits(columns, row)
    requires '\n' !in tableName
    requires forall k :: 0 <= k < |columns| ==> '\n' !in columns[k].name
    requires forall k :: 0 <= k < |row| ==> SingleLine(row[k])
    ensures '\n' !in InsertStatement(tableName, columns, row)
  {
    var names, values := BracketedNames(columns), FormattedValues(columns, row);
    forall k | 0 <= k < |names|
      ensures '\n' !in names[k]
    {
      assert names[k] == "[" + columns[k].name + "]";
    }
    forall k | 0 <= k < |values|
      ensures '\n' !in values[k]
    {
      FormatSingleLine(row[k], columns[k].kind);
    }
    JoinAvoids(", ", names, '\n');
    JoinAvoids(", ", values, '\n');
  }

  /**
   * When no identifier or text value holds a line break, the script of a
   * table with n rows consists of exactly n lines, and line i is the
   * statement for row i.
   */
  lemma ScriptLines(tableName: string, t: DataTable)
    requires WellFormed(t) && SingleLineTable(tableName, t)
    ensures |Lines(Script(tableName, t))| == |t.rows|
    ensures forall i :: 0 <= i < |t.rows| ==>
      Lines(Script(tableName, t))[i] == InsertStatement(tableName, t.columns, t.rows[i])
  {
    var statements := Statements(tableName, t);
    forall i | 0 <= i < |statements|
      ensures '\n' !in statements[i]
    {
      StatementSingleLine(tableName, t.columns, t.rows[i]);
    }
    LinesOfTerminated(statements);
  }
}
