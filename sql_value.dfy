/**
 * The value formatter: one cell of a result set plus its column's declared
 * CLR type, turned into the text of a SQL literal.
 */
module SqlValue {
  import opened DecimalText
  import opened SqlStrings
  import opened Optional

  /**
   * The column types the formatter tells apart: System.String, System.Char,
   * System.DateTime, System.Boolean, the three floating/decimal types
   * (Decimal, Single, Double), and every other type, of which the model
   * covers the integral ones.
   */
  datatype ColumnType = Text | Char | DateTime | Bool | Floating | Other

  /**
   * A DateTime broken into its fields. `ticks` is the part of the second
   * below whole seconds, in units of 100 ns, as .NET keeps it.
   */
  datatype DateTimeValue = DateTimeValue(
    year: nat, month: nat, day: nat,
    hour: nat, minute: nat, second: nat,
    ticks: nat)

  /** The field ranges of System.DateTime (calendar validity is not checked). */
  predicate InRange(d: DateTimeValue) {
    1 <= d.year <= 9999 && 1 <= d.month <= 12 && 1 <= d.day <= 31 &&
    d.hour < 24 && d.minute < 60 && d.second < 60 && d.ticks < 10_000_000
  }

  /**
   * The characters .NET's invariant-culture rendering of a double can use:
   * "NaN", "Infinity", "-Infinity", or digits with sign, point and exponent.
   */
  predicate IsNumberText(s: string) {
    s == "NaN" || s == "Infinity" || s == "-Infinity" ||
    (|s| > 0 && forall i :: 0 <= i < |s| ==> IsNumberChar(s[i]))
  }

  predicate IsNumberChar(c: char) {
    IsDigit(c) || c == '+' || c == '-' || c == '.' || c == 'E'
  }

  /**
   * A cell: DBNull, or a value of one of the modelled CLR types. A floating
   * or decimal value is carried as the text `Convert.ToDouble(value)
   * .ToString(CultureInfo.InvariantCulture)` gives for it.
   */
  datatype Cell =
    | Null
    | Str(s: string)
    | Ch(c: char)
    | DT(d: DateTimeValue)
    | B(b: bool)
    | Num(shown: string)
    | I(n: int)

  /**
   * A non-null cell holds a value of its column's type, as a DataColumn
   * enforces; DBNull fits every column.
   */
  predicate Conforms(v: Cell, t: ColumnType) {
    match v
    case Null => true
    case Str(_) => t == Text
    case Ch(_) => t == Char
    case DT(d) => t == DateTime && InRange(d)
    case B(_) => t == Bool
    case Num(shown) => t == Floating && IsNumberText(shown)
    case I(_) => t == Other
  }

  /** `ToString()` of a text-typed value. */
  function TextOf(v: Cell): string
    requires v.Str? || v.Ch?
  {
    if v.Str? then v.s else [v.c]
  }

  /** `ToString("yyyy-MM-dd HH:mm:ss.fff", CultureInfo.InvariantCulture)`. */
  function DateTimeText(d: DateTimeValue): string {
    DatePart(d) + " " + TimePart(d)
  }

  /** The `yyyy-MM-dd` part. */
  function DatePart(d: DateTimeValue): string {
    ZeroPad(d.year, 4) + "-" + ZeroPad(d.month, 2) + "-" + ZeroPad(d.day, 2)
  }

  /** The `HH:mm:ss.fff` part; "fff" truncates the sub-second ticks to milliseconds. */
  function TimePart(d: DateTimeValue): string {
    ZeroPad(d.hour, 2) + ":" + ZeroPad(d.minute, 2) + ":" + ZeroPad(d.second, 2) + "." +
    ZeroPad(d.ticks / 10_000, 3)
  }

  /**
   * FormatSqlValue. The type checks run in this order: DBNull, text, DateTime,
   * bool, floating, and otherwise the value's own `ToString()`.
   * Only a NULL cell gives `NULL`, and a literal is quoted exactly when the
   * cell is a non-null text, char or DateTime value.
   */
  function FormatSqlValue(v: Cell, t: ColumnType): (r: string)
    requires Conforms(v, t)
    ensures r == "NULL" <==> v.Null?
    ensures |r| > 0 && (r[0] == '\'' <==> !v.Null? && (t == Text || t == Char || t == DateTime))
  {
    if v.Null? then "NULL"
    else if t == Text || t == Char then QuotedLiteral(TextOf(v))
    else if t == DateTime then DateTimeLiteral(v.d)
    else if t == Bool then (if v.b then "1" else "0")
    else if t == Floating then v.shown
    else IntText(v.n)
  }

  /** NULL wins over every type test, for every column type. */
  lemma FormatNull(t: ColumnType)
    ensures FormatSqlValue(Null, t) == "NULL"
  {
  }

  /**
   * A string value is written as its quote-doubled text between quotes: two
   * characters longer than the value plus one per embedded quote, with
   * twice its quotes plus the two delimiters, and it reads back as the value.
   */
  lemma FormatText(s: string, rest: string)
    requires rest == [] || rest[0] != '\''
    ensures FormatSqlValue(Str(s), Text) == QuotedLiteral(s)
    ensures |FormatSqlValue(Str(s), Text)| == |s| + 2 + QuoteCount(s)
    ensures QuoteCount(FormatSqlValue(Str(s), Text)) == 2 * QuoteCount(s) + 2
    ensures ReadStringLiteral(FormatSqlValue(Str(s), Text) + rest) == Some((s, rest))
  {
    LiteralFacts(s, rest);
  }

  /** A char value is written as the one-character string it converts to. */
  lemma FormatChar(c: char, rest: string)
    requires rest == [] || rest[0] != '\''
    ensures FormatSqlValue(Ch(c), Char) == (if c == '\'' then "''''" else ['\'', c, '\''])
    ensures ReadStringLiteral(FormatSqlValue(Ch(c), Char) + rest) == Some(([c], rest))
  {
    LiteralFacts([c], rest);
    assert Escape([c]) == (if c == '\'' then "''" else [c]) + Escape([]);
  }

  lemma LiteralFacts(s: string, rest: string)
    requires rest == [] || rest[0] != '\''
    ensures |QuotedLiteral(s)| == |s| + 2 + QuoteCount(s)
    ensures QuoteCount(QuotedLiteral(s)) == 2 * QuoteCount(s) + 2
    ensures ReadStringLiteral(QuotedLiteral(s) + rest) == Some((s, rest))
  {
    QuotedLiteralRoundTrip(s, rest);
    EscapeQuoteCount(s);
    QuoteCountConcat("'", Escape(s));
    QuoteCountConcat("'" + Escape(s), "'");
  }

  /** A fixed-width digit field inside a text sits at the offset after what precedes it. */
  predicate FieldAt(r: string, at: nat, w: nat, value: nat) {
    at + w <= |r| && AllDigits(r[at..at + w]) && DigitsValue(r[at..at + w]) == value
  }

  lemma DatePartLayout(d: DateTimeValue)
    requires InRange(d)
    ensures var p := DatePart(d);
      |p| == 10 && p[4] == '-' && p[7] == '-' &&
      p[0..4] == ZeroPad(d.year, 4) && p[5..7] == ZeroPad(d.month, 2) && p[8..10] == ZeroPad(d.day, 2)
  {
    ZeroPadFixed(d.year, 4);
    ZeroPadFixed(d.month, 2);
    ZeroPadFixed(d.day, 2);
    Layout3(ZeroPad(d.year, 4), '-', ZeroPad(d.month, 2), '-', ZeroPad(d.day, 2));
  }

  lemma TimePartLayout(d: DateTimeValue)
    requires InRange(d)
    ensures var p := TimePart(d);
      |p| == 12 && p[2] == ':' && p[5] == ':' && p[8] == '.' &&
      p[0..2] == ZeroPad(d.hour, 2) && p[3..5] == ZeroPad(d.minute, 2) &&
      p[6..8] == ZeroPad(d.second, 2) && p[9..12] == ZeroPad(d.ticks / 10_000, 3)
  {
    ZeroPadFixed(d.hour, 2);
    ZeroPadFixed(d.minute, 2);
    ZeroPadFixed(d.second, 2);
    ZeroPadFixed(d.ticks / 10_000, 3);
    var hms := ZeroPad(d.hour, 2) + ":" + ZeroPad(d.minute, 2) + ":" + ZeroPad(d.second, 2);
    Layout3(ZeroPad(d.hour, 2), ':', ZeroPad(d.minute, 2), ':', ZeroPad(d.second, 2));
    Layout2(hms, '.', ZeroPad(d.ticks / 10_000, 3));
    assert TimePart(d) == hms + "." + ZeroPad(d.ticks / 10_000, 3);
  }

  /** Where the pieces of `a + [x] + b + [y] + c` sit. */
  lemma Layout3(a: string, x: char, b: string, y: char, c: string)
    ensures var p := a + [x] + b + [y] + c;
      |p| == |a| + |b| + |c| + 2 && p[|a|] == x && p[|a| + 1 + |b|] == y &&
      p[0..|a|] == a && p[|a| + 1..|a| + 1 + |b|] == b && p[|a| + |b| + 2..] == c
  {
    var p := a + [x] + b + [y] + c;
    assert p == a + ([x] + b + [y] + c);
    assert p == (a + [x] + b) + ([y] + c);
  }

  /** Where the pieces of `a + [x] + b` sit. */
  lemma Layout2(a: string, x: char, b: string)
    ensures var p := a + [x] + b;
      |p| == |a| + |b| + 1 && p[|a|] == x && p[0..|a|] == a && p[|a| + 1..] == b
  {
  }

  /**
   * A DateTime is written as a quoted `yyyy-MM-dd HH:mm:ss.fff`: always 25
   * characters with the separators at fixed places, whatever the host's
   * culture, and every field zero-padded to its width so that it reads back
   * as that field; the milliseconds are the sub-second ticks truncated.
   */
  lemma FormatDateTime(d: DateTimeValue)
    requires InRange(d)
    ensures var r := FormatSqlValue(DT(d), DateTime);
      |r| == 25 && r[0] == '\'' && r[24] == '\'' &&
      r[5] == '-' && r[8] == '-' && r[11] == ' ' &&
      r[14] == ':' && r[17] == ':' && r[20] == '.' &&
      FieldAt(r, 1, 4, d.year) && FieldAt(r, 6, 2, d.month) && FieldAt(r, 9, 2, d.day) &&
      FieldAt(r, 12, 2, d.hour) && FieldAt(r, 15, 2, d.minute) && FieldAt(r, 18, 2, d.second) &&
      FieldAt(r, 21, 3, d.ticks / 10_000)
  {
    var r := FormatSqlValue(DT(d), DateTime);
    assert r == DateTimeLiteral(d);
    DateTimeLiteralFields(d);
  }

  /** The quoted DateTime text, the literal of a DateTime cell. */
  function DateTimeLiteral(d: DateTimeValue): string {
    "'" + DateTimeText(d) + "'"
  }

  lemma DateTimeLiteralFields(d: DateTimeValue)
    requires InRange(d)
    ensures var r := DateTimeLiteral(d);
      |r| == 25 && r[0] == '\'' && r[24] == '\'' &&
      r[5] == '-' && r[8] == '-' && r[11] == ' ' &&
      r[14] == ':' && r[17] == ':' && r[20] == '.' &&
      FieldAt(r, 1, 4, d.year) && FieldAt(r, 6, 2, d.month) && FieldAt(r, 9, 2, d.day) &&
      FieldAt(r, 12, 2, d.hour) && FieldAt(r, 15, 2, d.minute) && FieldAt(r, 18, 2, d.second) &&
      FieldAt(r, 21, 3, d.ticks / 10_000)
  {
    DatePartLayout(d);
    TimePartLayout(d);
    LiteralFields(DateTimeLiteral(d), DatePart(d), TimePart(d), d);
  }

  /** The field offsets of a quoted date part and time part, stated over the texts alone. */
  lemma LiteralFields(r: string, date: string, time: string, d: DateTimeValue)
    requires InRange(d) && r == "'" + date + " " + time + "'"
    requires |date| == 10 && date[4] == '-' && date[7] == '-'
    requires date[0..4] == ZeroPad(d.year, 4) && date[5..7] == ZeroPad(d.month, 2) &&
             date[8..10] == ZeroPad(d.day, 2)
    requires |time| == 12 && time[2] == ':' && time[5] == ':' && time[8] == '.'
    requires time[0..2] == ZeroPad(d.hour, 2) && time[3..5] == ZeroPad(d.minute, 2) &&
             time[6..8] == ZeroPad(d.second, 2) && time[9..12] == ZeroPad(d.ticks / 10_000, 3)
    ensures |r| == 25 && r[0] == '\'' && r[24] == '\'' &&
      r[5] == '-' && r[8] == '-' && r[11] == ' ' &&
      r[14] == ':' && r[17] == ':' && r[20] == '.' &&
      FieldAt(r, 1, 4, d.year) && FieldAt(r, 6, 2, d.month) && FieldAt(r, 9, 2, d.day) &&
      FieldAt(r, 12, 2, d.hour) && FieldAt(r, 15, 2, d.minute) && FieldAt(r, 18, 2, d.second) &&
      FieldAt(r, 21, 3, d.ticks / 10_000)
  {
    QuotedLayout(date, time);
    InnerField(r, 1, date, 0, 4, d.year);
    InnerField(r, 1, date, 5, 2, d.month);
    InnerField(r, 1, date, 8, 2, d.day);
    InnerField(r, 12, time, 0, 2, d.hour);
    InnerField(r, 12, time, 3, 2, d.minute);
    InnerField(r, 12, time, 6, 2, d.second);
    InnerField(r, 12, time, 9, 3, d.ticks / 10_000);
  }

  lemma QuotedLayout(date: string, time: string)
    requires |date| == 10 && |time| == 12
    ensures var r := "'" + date + " " + time + "'";
      |r| == 25 && r[0] == '\'' && r[11] == ' ' && r[24] == '\'' &&
      r[1..11] == date && r[12..24] == time
  {
  }

  /** A zero-padded field inside a part is a field of the whole at the shifted offset. */
  lemma InnerField(r: string, at: nat, part: string, offset: nat, w: nat, value: nat)
    requires 1 <= w && value < Pow10(w)
    requires at + |part| <= |r| && r[at..at + |part|] == part
    requires offset + w <= |part| && part[offset..offset + w] == ZeroPad(value, w)
    ensures FieldAt(r, at + offset, w, value)
  {
    ZeroPadFixed(value, w);
    var whole, inner := r[at + offset..at + offset + w], part[offset..offset + w];
    forall i | 0 <= i < w
      ensures whole[i] == inner[i]
    {
      assert r[at + offset + i] == r[at..at + |part|][offset + i];
    }
    assert whole == inner;
  }

  /** A cell whose own text holds no line break. */
  predicate SingleLine(v: Cell) {
    (v.Str? ==> '\n' !in v.s) && (v.Ch? ==> v.c != '\n')
  }

  lemma DigitsSingleLine(s: string)
    requires AllDigits(s)
    ensures '\n' !in s
  {
  }

  lemma PaddedSingleLine(n: nat, w: nat)
    requires 1 <= w && n < Pow10(w)
    ensures '\n' !in ZeroPad(n, w)
  {
    ZeroPadFixed(n, w);
    DigitsSingleLine(ZeroPad(n, w));
  }

  lemma DateTimeSingleLine(d: DateTimeValue)
    requires InRange(d)
    ensures '\n' !in DateTimeText(d)
  {
    PaddedSingleLine(d.year, 4);
    PaddedSingleLine(d.month, 2);
    PaddedSingleLine(d.day, 2);
    PaddedSingleLine(d.hour, 2);
    PaddedSingleLine(d.minute, 2);
    PaddedSingleLine(d.second, 2);
    PaddedSingleLine(d.ticks / 10_000, 3);
  }

  /** Only a line break inside a text value can put one into a literal. */
  lemma FormatSingleLine(v: Cell, t: ColumnType)
    requires Conforms(v, t) && SingleLine(v)
    ensures '\n' !in FormatSqlValue(v, t)
  {
    match v
    case Str(s) =>
      EscapedSingleLine(s);
      assert FormatSqlValue(v, t) == QuotedLiteral(s);
    case Ch(c) =>
      EscapedSingleLine([c]);
      assert FormatSqlValue(v, t) == QuotedLiteral([c]);
    case DT(d) =>
      DateTimeSingleLine(d);
      assert FormatSqlValue(v, t) == DateTimeLiteral(d);
    case I(n) =>
      IntSingleLine(n);
    case _ =>
  }

  lemma EscapedSingleLine(s: string)
    requires '\n' !in s
    ensures '\n' !in Escape(s)
  {
    EscapeKeepsOtherCharacters(s, '\n');
    assert multiset(s)['\n'] == 0;
  }

  lemma IntSingleLine(n: int)
    ensures '\n' !in IntText(n)
  {
    var r := IntText(n);
    var digits := if r[0] == '-' then r[1..] else r;
    DigitsSingleLine(digits);
    assert r == if r[0] == '-' then [r[0]] + digits else digits;
  }

  /** A bool is written unquoted, `1` for true and `0` for false. */
  lemma FormatBool(b: bool)
    ensures FormatSqlValue(B(b), Bool) == "1" <==> b
    ensures FormatSqlValue(B(b), Bool) == "0" <==> !b
  {
  }

  /** A floating or decimal value is written unquoted, as its invariant text. */
  lemma FormatFloating(shown: string)
    requires IsNumberText(shown)
    ensures FormatSqlValue(Num(shown), Floating) == shown
  {
  }

  /**
   * An integer is written unquoted in canonical decimal, with a leading `-`
   * exactly when it is negative, and reads back as the same integer.
   */
  lemma FormatInteger(n: int)
    ensures var r := FormatSqlValue(I(n), Other);
      IsCanonicalIntText(r) && IntValue(r) == n && (r[0] == '-' <==> n < 0)
  {
    IntTextRoundTrip(n);
  }
}
