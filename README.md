# SQL INSERT script generator — verified model

This project models the core of SqlInsertScriptGenerator, a small C# tool
that dumps database tables into SQL INSERT scripts. It covers the two
routines in `Program.cs` that do the work:

- **FormatSqlValue** turns one cell into SQL literal text. The column's
  declared CLR type decides how. The type checks run in a fixed order:
  1. DBNull gives `NULL`.
  2. A string or char is put in single quotes, with each `'` doubled.
  3. A DateTime becomes a quoted `yyyy-MM-dd HH:mm:ss.fff` in the invariant culture.
  4. A bool becomes `1` or `0`.
  5. A decimal, float or double is converted to a double and printed in the invariant culture.
  6. Anything else uses `ToString()`.
- **GenerateInsertScript** makes the script for one table:
  - A missing table, or one with no rows, gives the empty string.
  - Otherwise it walks the rows in order. For each row it collects the bracketed column names and the formatted cells, column by column.
  - Each row then gets one line, `INSERT INTO [t] (...) VALUES (...);`, added with `AppendLine`.

Modules, one per concern:

- `Optional` (optional.dfy): the Option datatype.
- `DecimalText` (decimal_text.dfy): integer rendering and zero-padded digit fields, plus the digit reader that undoes them.
- `SqlStrings` (sql_strings.dfy):
  - quote doubling (`Replace("'", "''")`);
  - a reader for SQL string literals;
  - `string.Join`.
- `SqlValue` (sql_value.dfy): column types, cells, and `FormatSqlValue` with its per-type properties.
- `InsertScript` (insert_script.dfy): the table, the pure specification of the script, the imperative `GenerateInsertScript` (nested loops and a growing string, as in the source), and the line structure of the result.
- `ScriptReader` (script_reader.dfy): a reader for generated scripts. Reading a generated script with its table's name and columns gives back every row. This is the generator's inverse.

How the source is represented:

- A DataTable is a datatype with a column sequence and a row sequence. `WellFormed` holds when every row has one cell per column and every non-null cell has its column's type. ADO.NET's DataTable and DataColumn enforce this. Because of it, the source's casts `(DateTime)value` and `(bool)value` cannot fail.
- A `null` table is `None`.
- `AppendLine`'s line terminator is `"\n"`.
- A DateTime keeps its sub-second part in 100 ns ticks. The `fff` field shows those ticks truncated to milliseconds. So a script reads back with the DateTime cells cut to milliseconds (`ScriptReader.Canonical`).
- Identifiers are not escaped. A `]` in a table or column name is copied as is, so identifiers are not injection-safe. The script reader therefore checks each line against the table's expected header text; it does not parse the names.

Two behaviours a reader might expect of such a dumper are not in `Program.cs`, so the model does not have them:

- No TRUNCATE preamble and no batch-separator lines are written. `Settings.TruncateBeforeInsert` is never read.
- GUID and binary values get no special literal. They fall into the `ToString()` branch.

## Model

| member | source | states |
|---|---|---|
| SqlValue.FormatSqlValue | Program.cs:87-105 | the result is `NULL` exactly for a DBNull cell; it is never empty; it starts with a quote exactly for a non-null string, char or DateTime value |
| SqlValue.FormatNull | Program.cs:89-90 | a DBNull cell gives `NULL` for every column type: the null test comes before any type test |
| SqlValue.FormatText | Program.cs:92-93 | a string becomes its quote-doubled text between quotes; the length is `\|v\| + 2 + quotes(v)`; the literal holds `2·quotes(v) + 2` quotes; reading it back gives `v` and stops right after the closing quote |
| SqlValue.FormatChar | Program.cs:92-93 | a char becomes the one-character string literal (`''''` for a quote), and it reads back as that character |
| SqlStrings.Escape | Program.cs:93 | quote doubling adds exactly one character per quote |
| SqlStrings.EscapeQuoteCount | Program.cs:93 | quote doubling exactly doubles the number of quotes |
| SqlStrings.EscapeKeepsOtherCharacters | Program.cs:93 | quote doubling keeps the number of occurrences of every character other than the quote |
| SqlStrings.ReadEscapedBody | Program.cs:93 | an escaped body plus its closing quote reads back as the original text, whatever follows (if it does not start with a quote) |
| SqlStrings.QuotedLiteralRoundTrip | Program.cs:93 | round trip from a quoted literal back to its text: no value can end its literal early |
| SqlValue.FormatDateTime | Program.cs:95-96 | a DateTime literal is always 25 characters, with quotes at both ends and `-`, `-`, ` `, `:`, `:`, `.` at fixed offsets; each field is zero-padded digits that read back as the field; milliseconds are the ticks truncated |
| DecimalText.ZeroPadFixed | Program.cs:96 | a field below 10^w pads to exactly w digits that read back as the field |
| SqlValue.FormatBool | Program.cs:98-99 | a bool gives unquoted `1` exactly when true and `0` exactly when false |
| SqlValue.FormatFloating | Program.cs:101-102 | a floating or decimal value is written unquoted, as its invariant rendering |
| SqlValue.FormatInteger | Program.cs:104 | an integer is written unquoted in canonical decimal, with `-` exactly when negative, and reads back as itself |
| DecimalText.IntTextRoundTrip | Program.cs:104 | integer rendering is canonical (no leading zero, no `-0`), signed exactly when negative, and inverted by the digit reader |
| DecimalText.IntTextInjective | Program.cs:104 | distinct integers render to distinct texts |
| DecimalText.NatTextValue | Program.cs:104 | the decimal digits of a natural number read back as that number |
| DecimalText.NatTextLeadingDigit | Program.cs:104 | a rendering has a leading zero only when it is the number zero |
| SqlValue.FormatSingleLine | Program.cs:87-105 | a literal holds a line break only if the cell's own text does |
| InsertScript.GenerateInsertScript | Program.cs:62-85 | for a null table the result is empty; otherwise it equals `Script`, the pure specification: the statements of all rows in order, each followed by a line terminator |
| InsertScript.TerminatedSnoc | Program.cs:81 | `AppendLine` of one more statement extends the script by that statement and a terminator |
| InsertScript.AppendLineStep | Program.cs:81 | appending row i's statement to the script of the first i rows gives the script of the first i + 1 rows |
| InsertScript.ScriptEmpty | Program.cs:64 | the script is empty exactly when the table has no rows |
| InsertScript.LinesOfTerminated | Program.cs:81 | reading the lines of terminated single-line texts gives those texts back |
| InsertScript.StatementSingleLine | Program.cs:70-81 | a statement holds no line break when no identifier and no text cell holds one |
| InsertScript.ScriptLines | Program.cs:68-84 | when no name or text value holds a line break, an n-row table gives exactly n lines, and line i is the statement for row i |
| SqlValue.Conforms | Program.cs:77-78 | a cell fits a column when it is DBNull or holds a value of the column's CLR type (with DateTime fields in range), as a DataColumn enforces |
| InsertScript.WellFormed | Program.cs:68-79 | every row has one cell per column, in column order, and each cell fits its column |
| DecimalText.IntText | Program.cs:104 | `ToString()` of an integral value: a `-` for negatives, then the shortest decimal digits; always an optional sign followed by digits |
| DecimalText.ZeroPad | Program.cs:96 | a custom-format numeric field: the decimal digits padded on the left with zeros to at least `w` digits; all digits |
| SqlValue.DateTimeText | Program.cs:96 | `yyyy-MM-dd HH:mm:ss.fff`: the date part, a space, the time part |
| SqlValue.DatePart | Program.cs:96 | `yyyy-MM-dd`: year padded to 4 digits, month and day to 2, joined by `-` |
| SqlValue.TimePart | Program.cs:96 | `HH:mm:ss.fff`: hour, minute, second padded to 2, then `.` and the ticks cut to milliseconds padded to 3 |
| SqlValue.DateTimeLiteral | Program.cs:96 | the DateTime text between single quotes |
| SqlStrings.QuotedLiteral | Program.cs:93 | the escaped text between single quotes: `\|s\| + 2 + quotes(s)` characters, a quote at each end |
| SqlStrings.Join | Program.cs:81 | `string.Join`: the items in order with the separator between neighbours; the empty list gives "" |
| InsertScript.BracketedNames | Program.cs:73-75 | one `[name]` per column, in column order |
| InsertScript.FormattedValues | Program.cs:73-78 | one literal per column, in column order, the k-th being `FormatSqlValue(row[k], type_k)` |
| InsertScript.StatementHeader | Program.cs:81 | `INSERT INTO [t] (` + the bracketed names joined by `, ` + `) VALUES (`; it does not depend on the row, so every line has the same column list |
| InsertScript.InsertStatement | Program.cs:81 | the header, the row's literals joined by `, `, then `);` |
| InsertScript.Statements | Program.cs:68-82 | one statement per row, in row order |
| InsertScript.Terminated | Program.cs:81 | each line followed by the `AppendLine` terminator, in order |
| InsertScript.Script | Program.cs:62-85 | the terminated statements of all rows: the pure specification of the generated script |
| ScriptReader.ReadFormatted | Program.cs:87-105 | every literal followed by `,` or `)` reads back as its cell (DateTime cut to milliseconds) and consumes nothing more |
| ScriptReader.ReadValuesFormatted | Program.cs:71-81 | the comma-joined literals of a row read back as the row, one cell per column in column order |
| ScriptReader.ReadStatementFormatted | Program.cs:81 | one generated line, with the table's header and the row's values, reads back as its row |
| ScriptReader.ScriptRoundTrip | Program.cs:62-85 | reading the whole script with the table's name and columns gives back every row in the original order: one statement per row, the same column list on every line, and value k of line i is cell k of row i |

## Left out

- `Main` (Program.cs:14-47) is left out: reading the settings file, JSON deserialisation, creating the directory, writing files, and console input and output are all I/O.
- `LoadTable` (Program.cs:49-60) is left out: it is database access through `SqlConnection` and `SqlDataAdapter`. The table is an input of the model.
- `Settings.cs` holds configuration only. Its `TruncateBeforeInsert` flag is never read, so no TRUNCATE output is modelled.
- SqlValue.FormatFloating: `Convert.ToDouble` and the shortest round-trip rendering of a double are floating point, which is not modelled. A floating cell carries the text that rendering gives, and only that text's character set is constrained (digits, sign, point, exponent, or `NaN`/`Infinity`).
- SqlValue.FormatSqlValue: for the last branch, only integral values are modelled. `ToString()` of other CLR types (Guid, byte[], TimeSpan, ...) is not. The integer's negative sign is taken to be `-`; .NET takes it from the current culture.
- SqlValue.FormatDateTime: calendar validity (e.g. 30 February) is not checked. Fields are only bounded by their ranges.
- SqlValue.FormatSqlValue: a cell that does not have its column's type cannot occur in a DataTable, so it is excluded by `Conforms` rather than modelled as the cast failure it would cause.
- Strings are modelled as sequences of Unicode characters, while .NET strings are UTF-16 code units. A lone surrogate cannot be represented, and the lengths in SqlValue.FormatText count characters, not `String.Length`. Quote doubling itself is unaffected, since `'` is a single code unit.
- Identifier escaping: the source does not double `]` in names, and the model makes no safety claim for identifiers.
