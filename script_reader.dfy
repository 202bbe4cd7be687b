/**
 * A reader for the scripts the generator writes, given the table name and
 * the columns. It is the generator's inverse: reading a generated script
 * gives back the table's rows, up to the sub-millisecond part of DateTime
 * values that the "fff" field drops.
 */
module ScriptReader {
  import opened Optional
  import opened DecimalText
  import opened SqlStrings
  import opened SqlValue
  import opened InsertScript

  predicate StartsWith(t: string, prefix: string) {
    |prefix| <= |t| && t[..|prefix|] == prefix
  }

  /** The number of decimal digits at the start of `s`. */
  function DigitRun(s: string): (n: nat)
    ensures n <= |s| && AllDigits(s[..n]) && (n < |s| ==> !IsDigit(s[n]))
  {
    if s == [] || !IsDigit(s[0]) then 0
    else
      var n := 1 + DigitRun(s[1..]);
      assert s[..n] == [s[0]] + s[1..][..n - 1];
      n
  }

  /** The offset of the first `,` or `)` in `s`, or `|s|`. */
  function DelimiterAt(s: string): (n: nat)
    ensures n <= |s|
  {
    if s == [] || s[0] == ',' || s[0] == ')' then 0 else 1 + DelimiterAt(s[1..])
  }

  /** An optional minus sign and a run of digits. */
  function ReadInteger(t: string): (r: Option<(Cell, string)>)
    ensures r.Some? ==> |r.value.1| < |t|
  {
    var negative := |t| > 0 && t[0] == '-';
    var body := if negative then t[1..] else t;
    var n := DigitRun(body);
    if n == 0 then None
    else
      var magnitude: int := DigitsValue(body[..n]);
      Some((I(if negative then -magnitude else magnitude), body[n..]))
  }

  /** A quoted `yyyy-MM-dd HH:mm:ss.fff`; the ticks below the millisecond read as zero. */
  function ReadDateTime(t: string): (r: Option<(Cell, string)>)
    ensures r.Some? ==> |r.value.1| < |t|
  {
    if |t| >= 25 && t[0] == '\'' && t[24] == '\'' &&
       t[5] == '-' && t[8] == '-' && t[11] == ' ' && t[14] == ':' && t[17] == ':' && t[20] == '.' &&
       AllDigits(t[1..5]) && AllDigits(t[6..8]) && AllDigits(t[9..11]) && AllDigits(t[12..14]) &&
       AllDigits(t[15..17]) && AllDigits(t[18..20]) && AllDigits(t[21..24])
    then
      var d := DateTimeValue(
        DigitsValue(t[1..5]), DigitsValue(t[6..8]), DigitsValue(t[9..11]),
        DigitsValue(t[12..14]), DigitsValue(t[15..17]), DigitsValue(t[18..20]),
        DigitsValue(t[21..24]) * 10_000);
      Some((DT(d), t[25..]))
    else None
  }

  /** Reads one literal of a column of type `kind` at the start of `t`. */
  function ReadLiteral(t: string, kind: ColumnType): (r: Option<(Cell, string)>)
    ensures r.Some? ==> |r.value.1| < |t|
  {
    if StartsWith(t, "NULL") then Some((Null, t[4..]))
    else
      match kind
      case Text =>
        (match ReadStringLiteral(t)
         case None => None
         case Some((s, rest)) => Some((Str(s), rest)))
      case Char =>
        (match ReadStringLiteral(t)
         case None => None
         case Some((s, rest)) => if |s| == 1 then Some((Ch(s[0]), rest)) else None)
      case DateTime => ReadDateTime(t)
      case Bool =>
        if |t| > 0 && t[0] == '1' then Some((B(true), t[1..]))
        else if |t| > 0 && t[0] == '0' then Some((B(false), t[1..]))
        else None
      case Floating =>
        var n := DelimiterAt(t);
        if n == 0 then None else Some((Num(t[..n]), t[n..]))
      case Other => ReadInteger(t)
  }

  /** Reads the literals of a row, separated by `, `, one per column in column order. */
  function ReadValues(t: string, columns: seq<Column>): (r: Option<(Row, string)>)
    ensures r.Some? ==> |r.value.1| <= |t|
    decreases |columns|
  {
    if columns == [] then Some(([], t))
    else
      match ReadLiteral(t, columns[0].kind)
      case None => None
      case Some((v, rest)) =>
        if |columns| == 1 then Some(([v], rest))
        else if !StartsWith(rest, ", ") then None
        else
          match ReadValues(rest[2..], columns[1..])
          case None => None
          case Some((vs, rest')) => Some(([v] + vs, rest'))
  }

  /** Reads one terminated INSERT line whose header must be the table's. */
  function ReadStatement(t: string, tableName: string, columns: seq<Column>): (r: Option<(Row, string)>)
    ensures r.Some? ==> |r.value.1| < |t|
  {
    var header := StatementHeader(tableName, columns);
    if !StartsWith(t, header) then None
    else
      match ReadValues(t[|header|..], columns)
      case None => None
      case Some((row, rest)) => if StartsWith(rest, ");\n") then Some((row, rest[3..])) else None
  }

  /** Reads every line of a script; None when some line is not a statement for the table. */
  function ReadScript(t: string, tableName: string, columns: seq<Column>): Option<seq<Row>>
    decreases |t|
  {
    if t == [] then Some([])
    else
      match ReadStatement(t, tableName, columns)
      case None => None
      case Some((row, rest)) =>
        match ReadScript(rest, tableName, columns)
        case None => None
        case Some(rows) => Some([row] + rows)
  }

  /** What a cell reads back as: a DateTime loses its ticks below the millisecond. */
  function Canonical(v: Cell): Cell {
    match v
    case DT(d) => DT(d.(ticks := d.ticks / 10_000 * 10_000))
    case _ => v
  }

  function CanonicalRow(row: Row): (r: Row)
    ensures |r| == |row|
  {
    seq(|row|, k requires 0 <= k < |row| => Canonical(row[k]))
  }

  /** What may follow a literal inside a statement: the next separator or the closing parenthesis. */
  predicate Delimited(rest: string) {
    |rest| > 0 && (rest[0] == ',' || rest[0] == ')')
  }

  lemma PrefixSlice(r: string, rest: string, a: nat, b: nat)
    requires a <= b <= |r|
    ensures (r + rest)[a..b] == r[a..b]
  {
  }

  lemma {:induction false} DigitRunConcat(d: string, rest: string)
    requires AllDigits(d) && (rest == [] || !IsDigit(rest[0]))
    ensures DigitRun(d + rest) == |d|
    decreases |d|
  {
    if d == [] {
      assert d + rest == rest;
    } else {
      assert (d + rest)[1..] == d[1..] + rest;
      DigitRunConcat(d[1..], rest);
    }
  }

  lemma {:induction false} DelimiterAtConcat(s: string, rest: string)
    requires ',' !in s && ')' !in s && Delimited(rest)
    ensures DelimiterAt(s + rest) == |s|
    decreases |s|
  {
    if s == [] {
      assert s + rest == rest;
    } else {
      assert s[0] in s;
      assert (s + rest)[1..] == s[1..] + rest;
      DelimiterAtConcat(s[1..], rest);
    }
  }

  /** A non-null literal followed by a delimiter never reads as NULL. */
  lemma NotNullPrefix(v: Cell, kind: ColumnType, rest: string)
    requires Conforms(v, kind) && !v.Null? && Delimited(rest)
    ensures !StartsWith(FormatSqlValue(v, kind) + rest, "NULL")
  {
    var r := FormatSqlValue(v, kind);
    NotNullStart(v, kind);
    var t := r + rest;
    assert t[0] == r[0];
    assert |r| > 1 ==> t[1] == r[1];
  }

  /** A non-null literal does not start with `N`, except "NaN", whose second letter is `a`. */
  lemma NotNullStart(v: Cell, kind: ColumnType)
    requires Conforms(v, kind) && !v.Null?
    ensures var r := FormatSqlValue(v, kind); r[0] != 'N' || (|r| > 1 && r[1] == 'a')
  {
    match v
    case Num(shown) =>
      if shown != "NaN" && shown != "Infinity" && shown != "-Infinity" {
        assert IsNumberChar(shown[0]);
      }
    case I(n) =>
      IntStart(n);
    case _ =>
  }

  lemma IntStart(n: int)
    ensures IntText(n)[0] == '-' || IsDigit(IntText(n)[0])
  {
    var r := IntText(n);
    if r[0] != '-' {
      assert IsDigit(r[0]);
    }
  }

  lemma ReadIntegerFormatted(n: int, rest: string)
    requires Delimited(rest)
    ensures ReadInteger(IntText(n) + rest) == Some((I(n), rest))
  {
    IntTextRoundTrip(n);
    var m: nat := if n < 0 then -n else n;
    var digits := NatText(m);
    NatTextValue(m);
    var t := IntText(n) + rest;
    var body := digits + rest;
    if n < 0 {
      assert t == "-" + body;
      assert t[1..] == body;
    } else {
      assert t == body;
    }
    DigitRunConcat(digits, rest);
    assert body[..|digits|] == digits;
    assert body[|digits|..] == rest;
  }

  lemma ReadDateTimeFormatted(d: DateTimeValue, rest: string)
    requires InRange(d)
    ensures ReadDateTime(FormatSqlValue(DT(d), DateTime) + rest) == Some((Canonical(DT(d)), rest))
  {
    var r := FormatSqlValue(DT(d), DateTime);
    FormatDateTime(d);
    PrefixSlice(r, rest, 1, 5);
    PrefixSlice(r, rest, 6, 8);
    PrefixSlice(r, rest, 9, 11);
    PrefixSlice(r, rest, 12, 14);
    PrefixSlice(r, rest, 15, 17);
    PrefixSlice(r, rest, 18, 20);
    PrefixSlice(r, rest, 21, 24);
    assert (r + rest)[25..] == rest;
  }

  lemma ReadNumberFormatted(shown: string, rest: string)
    requires IsNumberText(shown) && Delimited(rest)
    ensures ReadLiteral(shown + rest, Floating) == Some((Num(shown), rest))
  {
    NotNullPrefix(Num(shown), Floating, rest);
    DelimiterAtConcat(shown, rest);
    assert (shown + rest)[..|shown|] == shown;
  }

  /**
   * Every literal the formatter writes, followed by a separator or the
   * closing parenthesis, reads back as its cell and consumes no more.
   */
  lemma ReadFormatted(v: Cell, kind: ColumnType, rest: string)
    requires Conforms(v, kind) && Delimited(rest)
    ensures ReadLiteral(FormatSqlValue(v, kind) + rest, kind) == Some((Canonical(v), rest))
  {
    var t := FormatSqlValue(v, kind) + rest;
    match v
    case Null =>
      assert t[..4] == "NULL";
      assert t[4..] == rest;
    case Str(s) =>
      NotNullPrefix(v, kind, rest);
      FormatText(s, rest);
    case Ch(c) =>
      NotNullPrefix(v, kind, rest);
      FormatChar(c, rest);
    case DT(d) =>
      NotNullPrefix(v, kind, rest);
      ReadDateTimeFormatted(d, rest);
    case B(b) =>
      NotNullPrefix(v, kind, rest);
      assert t[1..] == rest;
    case Num(shown) =>
      ReadNumberFormatted(shown, rest);
    case I(n) =>
      NotNullPrefix(v, kind, rest);
      ReadIntegerFormatted(n, rest);
  }

  lemma FormattedValuesTail(columns: seq<Column>, row: Row)
    requires RowFits(columns, row) && |columns| > 0
    ensures RowFits(columns[1..], row[1..])
    ensures FormattedValues(columns, row)[1..] == FormattedValues(columns[1..], row[1..])
    ensures CanonicalRow(row) == [Canonical(row[0])] + CanonicalRow(row[1..])
  {
  }

  /** The joined literals of a row, before the closing parenthesis, read back as the row. */
  lemma {:induction false} ReadValuesFormatted(columns: seq<Column>, row: Row, rest: string)
    requires RowFits(columns, row) && |rest| > 0 && rest[0] == ')'
    ensures ReadValues(Join(", ", FormattedValues(columns, row)) + rest, columns)
            == Some((CanonicalRow(row), rest))
    decreases |columns|
  {
    var values := FormattedValues(columns, row);
    if |columns| == 0 {
      assert Join(", ", values) + rest == rest;
    } else if |columns| == 1 {
      ReadFormatted(row[0], columns[0].kind, rest);
      assert CanonicalRow(row) == [Canonical(row[0])];
    } else {
      FormattedValuesTail(columns, row);
      ReadValuesFormatted(columns[1..], row[1..], rest);
      ReadValuesStep(columns, row, rest);
    }
  }

  /** One step of reading a row: its first literal, the separator, then the rest of the row. */
  lemma ReadValuesStep(columns: seq<Column>, row: Row, rest: string)
    requires RowFits(columns, row) && |columns| > 1 && |rest| > 0 && rest[0] == ')'
    requires RowFits(columns[1..], row[1..])
    requires ReadValues(Join(", ", FormattedValues(columns[1..], row[1..])) + rest, columns[1..])
             == Some((CanonicalRow(row[1..]), rest))
    ensures ReadValues(Join(", ", FormattedValues(columns, row)) + rest, columns)
            == Some((CanonicalRow(row), rest))
  {
    var values := FormattedValues(columns, row);
    FormattedValuesTail(columns, row);
    var tail := Join(", ", values[1..]);
    assert Join(", ", values) + rest == values[0] + (", " + (tail + rest));
    ReadFormatted(row[0], columns[0].kind, ", " + (tail + rest));
    ReadValuesCons(columns, values[0], tail + rest, Canonical(row[0]), CanonicalRow(row[1..]), rest);
  }

  lemma ReadValuesCons(columns: seq<Column>, first: string, more: string, c: Cell, cells: Row, rest: string)
    requires |columns| > 1
    requires ReadLiteral(first + (", " + more), columns[0].kind) == Some((c, ", " + more))
    requires ReadValues(more, columns[1..]) == Some((cells, rest))
    ensures ReadValues(first + (", " + more), columns) == Some(([c] + cells, rest))
  {
    assert (", " + more)[..2] == ", ";
    assert (", " + more)[2..] == more;
  }

  /** One generated line, followed by anything, reads back as its row. */
  lemma ReadStatementFormatted(tableName: string, columns: seq<Column>, row: Row, rest: string)
    requires RowFits(columns, row)
    ensures ReadStatement(InsertStatement(tableName, columns, row) + "\n" + rest, tableName, columns)
            == Some((CanonicalRow(row), rest))
  {
    var header := StatementHeader(tableName, columns);
    var values := Join(", ", FormattedValues(columns, row));
    var t := InsertStatement(tableName, columns, row) + "\n" + rest;
    var closing := ");\n" + rest;
    assert t == header + (values + closing);
    assert t[..|header|] == header;
    assert t[|header|..] == values + closing;
    ReadValuesFormatted(columns, row, closing);
    assert closing[..3] == ");\n";
    assert closing[3..] == rest;
  }

  /** The rows as they read back: each cell canonical, in the original order. */
  function CanonicalRows(rows: seq<Row>): (r: seq<Row>)
    ensures |r| == |rows| && forall i :: 0 <= i < |rows| ==> r[i] == CanonicalRow(rows[i])
  {
    seq(|rows|, i requires 0 <= i < |rows| => CanonicalRow(rows[i]))
  }

  /** The table without its first row. */
  function Tail(t: DataTable): (u: DataTable)
    requires WellFormed(t) && |t.rows| > 0
    ensures WellFormed(u) && u.columns == t.columns && u.rows == t.rows[1..]
  {
    DataTable(t.columns, t.rows[1..])
  }

  lemma ScriptStep(tableName: string, t: DataTable)
    requires WellFormed(t) && |t.rows| > 0
    ensures Script(tableName, t)
            == InsertStatement(tableName, t.columns, t.rows[0]) + "\n" + Script(tableName, Tail(t))
  {
    assert Statements(tableName, t)[1..] == Statements(tableName, Tail(t));
  }

  lemma ReadScriptStep(tableName: string, t: DataTable)
    requires WellFormed(t) && |t.rows| > 0
    requires ReadScript(Script(tableName, Tail(t)), tableName, t.columns) == Some(CanonicalRows(t.rows[1..]))
    ensures ReadScript(Script(tableName, t), tableName, t.columns) == Some(CanonicalRows(t.rows))
  {
    ScriptStep(tableName, t);
    ReadStatementFormatted(tableName, t.columns, t.rows[0], Script(tableName, Tail(t)));
    assert CanonicalRows(t.rows) == [CanonicalRow(t.rows[0])] + CanonicalRows(t.rows[1..]);
  }

  /**
   * Reading a generated script with its table's name and columns gives back
   * every row, in the original order, each cell as it was (DateTime values
   * to the millisecond). So the script holds one statement per row, all with
   * the same column list, and the k-th literal of line i is cell k of row i.
   */
  lemma {:induction false} ScriptRoundTrip(tableName: string, t: DataTable)
    requires WellFormed(t)
    ensures ReadScript(Script(tableName, t), tableName, t.columns) == Some(CanonicalRows(t.rows))
    decreases |t.rows|
  {
    if |t.rows| > 0 {
      ScriptRoundTrip(tableName, Tail(t));
      ReadScriptStep(tableName, t);
    }
  }
}
