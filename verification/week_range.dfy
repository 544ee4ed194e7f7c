/** The "Week #" expansion of `src/explode_week_range.py`: a field such as
    "1-3, 5, TBD" becomes the values 1, 2, 3, 5, "TBD", and each table row is
    repeated once per value. */
module WeekRange {
  import opened Basics
  import opened Whitespace
  import opened Splitting
  import opened IntParse

  /** A table cell: an integer, a text, or anything else pandas may hold
      there (the NaN of an empty CSV cell, a float). */
  datatype Cell = Int(n: int) | Text(s: string) | Missing

  /** The column the script rewrites. */
  const WeekColumn: string := "Week #"

  /** `list(range(a, b + 1))`: a, a+1, ..., b, and nothing when a > b. */
  function Range(a: int, b: int): (r: seq<Cell>)
    ensures |r| == if a <= b then b - a + 1 else 0
    ensures forall i :: 0 <= i < |r| ==> r[i] == Int(a + i)
    decreases b - a
  {
    if a > b then [] else [Int(a)] + Range(a + 1, b)
  }

  /** One comma-separated part of the field: a dash range, a single number,
      or, when `int()` refuses a piece, the stripped part as text. */
  function ExplodePart(part: string): (r: seq<Cell>)
    ensures r == [Text(Strip(part))] || forall i :: 0 <= i < |r| ==> r[i].Int? && r[i].n >= 0
  {
    var p := Strip(part);
    if '-' in p then
      var pieces := Split(p, '-');
      if |pieces| == 2 && ParseInt(pieces[0]).Some? && ParseInt(pieces[1]).Some? then
        assert '-' !in pieces[0] && '-' !in pieces[1];
        Range(ParseInt(pieces[0]).value, ParseInt(pieces[1]).value)
      else [Text(p)]
    else
      match ParseInt(p)
      case Some(n) => [Int(n)]
      case None => [Text(p)]
  }

  /** A part without a dash yields exactly one value. */
  lemma PartWithoutDash(part: string)
    requires '-' !in Strip(part)
    ensures |ExplodePart(part)| == 1
  {
  }

  /** The parts' expansions, concatenated in order. */
  function ExplodeParts(parts: seq<string>): seq<Cell> {
    if |parts| == 0 then [] else ExplodePart(parts[0]) + ExplodeParts(parts[1..])
  }

  /** `explode_row`: the field split on commas, each part expanded. */
  function ExplodeField(week: string): (r: seq<Cell>)
  {
    ExplodeParts(Split(week, ','))
  }

  lemma {:induction false} ExplodePartsAppend(a: seq<string>, b: seq<string>)
    ensures ExplodeParts(a + b) == ExplodeParts(a) + ExplodeParts(b)
    decreases |a|
  {
    if |a| == 0 {
      assert a + b == b;
    } else {
      assert (a + b)[1..] == a[1..] + b;
      ExplodePartsAppend(a[1..], b);
    }
  }

  /** The values a week field can expand to: non-negative integers (no
      piece handed to `int()` ever holds a minus sign) and texts. */
  predicate IsWeekValue(c: Cell) {
    (c.Int? && c.n >= 0) || c.Text?
  }

  lemma ExplodePartValues(part: string)
    ensures forall i :: 0 <= i < |ExplodePart(part)| ==> IsWeekValue(ExplodePart(part)[i])
  {
  }

  /** Every value of an expansion is a week value. */
  lemma {:induction false} ExplodePartsValues(parts: seq<string>)
    ensures forall i :: 0 <= i < |ExplodeParts(parts)| ==> IsWeekValue(ExplodeParts(parts)[i])
    decreases |parts|
  {
    if |parts| > 0 {
      ExplodePartsValues(parts[1..]);
      ExplodePartValues(parts[0]);
      var h := ExplodePart(parts[0]);
      var t := ExplodeParts(parts[1..]);
      assert ExplodeParts(parts) == h + t;
    }
  }

  /** The expansion of a field is the concatenation, in comma order, of the
      expansions of the text before and after any one comma. */
  lemma FieldConcat(a: string, b: string)
    ensures ExplodeField(a + "," + b) == ExplodeField(a) + ExplodeField(b)
  {
    SplitConcat(a, b, ',');
    ExplodePartsAppend(Split(a, ','), Split(b, ','));
  }

  /** A field without commas is a single part. */
  lemma FieldSinglePart(week: string)
    requires ',' !in week
    ensures ExplodeField(week) == ExplodePart(week)
  {
    SplitJoin([week], ',');
    assert ExplodeParts([week])[..] == ExplodePart(week) + [];
  }

  /** A stripped part with one dash whose two pieces `int()` accepts is a
      range. */
  lemma DashedPart(part: string, left: string, right: string)
    requires '-' in Strip(part) && Split(Strip(part), '-') == [left, right]
    requires ParseInt(left).Some? && ParseInt(right).Some?
    ensures ExplodePart(part) == Range(ParseInt(left).value, ParseInt(right).value)
  {
  }

  /** The two pieces of `x + "-" + y` after stripping, for dash-free `x` and
      `y`: `x` without its leading and `y` without its trailing whitespace. */
  lemma DashedPieces(x: string, y: string)
    requires '-' !in x && '-' !in y
    ensures '-' in Strip(x + "-" + y)
    ensures Split(Strip(x + "-" + y), '-') == [TrimStart(x), TrimEnd(y)]
  {
    var left, right := TrimStart(x), TrimEnd(y);
    var m := left + "-" + right;
    assert Strip(x + "-" + y) == m by {
      StripDashed(x, y, '-');
    }
    assert m[|left|] == '-';
    TrimsKeepOut(x, '-');
    TrimsKeepOut(y, '-');
    assert Split(m, '-') == [left, right] by {
      SplitJoin([left, right], '-');
      assert Join([left, right], '-') == m;
    }
  }

  /** Trimming whitespace adds no character: one absent from `s` is
      absent from both trimmed forms. */
  lemma TrimsKeepOut(s: string, c: char)
    requires c !in s
    ensures c !in TrimStart(s) && c !in TrimEnd(s)
  {
    assert s == s[..LeadingSpaces(s)] + TrimStart(s);
    assert s == TrimEnd(s) + s[|s| - TrailingSpaces(s)..];
  }

  /** A part `x + "-" + y` whose two pieces `int()` accepts expands to the
      range between their values, whatever whitespace, signs, leading zeros
      or underscores they carry; when the first value exceeds the second it
      expands to nothing. The pieces are `x` without its leading and `y`
      without its trailing whitespace; when `int()` accepts `x` and `y`
      themselves, their values are the ones used. */
  lemma PartRange(x: string, y: string)
    requires '-' !in x && '-' !in y
    requires ParseInt(TrimStart(x)).Some? && ParseInt(TrimEnd(y)).Some?
    ensures ExplodePart(x + "-" + y) == Range(ParseInt(TrimStart(x)).value, ParseInt(TrimEnd(y)).value)
    ensures ParseInt(TrimStart(x)).value > ParseInt(TrimEnd(y)).value ==> ExplodePart(x + "-" + y) == []
    ensures ParseInt(x).Some? && ParseInt(y).Some? ==>
      ExplodePart(x + "-" + y) == Range(ParseInt(x).value, ParseInt(y).value)
  {
    DashedPieces(x, y);
    DashedPart(x + "-" + y, TrimStart(x), TrimEnd(y));
    if ParseInt(x).Some? && ParseInt(y).Some? {
      ParseTrimmed(x);
      ParseTrimmed(y);
    }
  }

  /** A part `x + "-" + y` one of whose two pieces `int()` refuses, such as
      "5-", "Week 1-2" or "1-2a", is kept as its stripped text. */
  lemma PartRangeRefused(x: string, y: string)
    requires '-' !in x && '-' !in y
    requires ParseInt(TrimStart(x)) == None || ParseInt(TrimEnd(y)) == None
    ensures ExplodePart(x + "-" + y) == [Text(Strip(x + "-" + y))]
  {
    DashedPieces(x, y);
  }

  /** A dash-free part that `int()` accepts expands to exactly its value,
      whatever whitespace, sign, leading zeros or underscores it carries.
      The text handed to `int()` is the stripped part; when `int()` accepts
      the part itself, its value is the one used. */
  lemma PartSingle(x: string)
    requires '-' !in x && ParseInt(Strip(x)).Some?
    ensures ExplodePart(x) == [Int(ParseInt(Strip(x)).value)]
    ensures ParseInt(x).Some? ==> ExplodePart(x) == [Int(ParseInt(x).value)]
  {
    TrimsKeepOut(x, '-');
    TrimsKeepOut(TrimStart(x), '-');
    ParseStripped(x);
  }

  /** A dash-free part whose stripped text `int()` refuses, such as "1a",
      "W3", "1.5" or "1 2", is kept as that text. */
  lemma PartRefused(x: string)
    requires '-' !in x && ParseInt(Strip(x)) == None
    ensures ExplodePart(x) == [Text(Strip(x))]
  {
    TrimsKeepOut(x, '-');
    TrimsKeepOut(TrimStart(x), '-');
  }

  /** The normalisation leaves no information separator in a field: every
      whitespace character it keeps is a plain space, so on a normalised
      field `int()` and `strip()` agree on what counts as whitespace. */
  lemma NormalizedHasNoSeparators(week: string)
    ensures NoSeparators(Normalize(week))
  {
    NormalizeShape(week);
  }

  /** A dash-free numeral longer than the digit limit of `int()` is kept
      as its stripped text. */
  lemma PartTooLong(part: string)
    requires '-' !in Strip(part)
    requires IsNumeral(Strip(part)) && DigitCount(Strip(part)) > MaxStrDigits
    ensures ExplodePart(part) == [Text(Strip(part))]
  {
    StripIdempotent(part);
    TooManyDigits(Strip(part));
  }

  /** Any character of a piece is a character of the joined text. */
  lemma {:induction false} PieceInJoin(parts: seq<string>, sep: char, i: nat, c: char)
    requires i < |parts| && c in parts[i]
    ensures c in Join(parts, sep)
    decreases |parts|
  {
    if |parts| > 1 && i > 0 {
      PieceInJoin(parts[1..], sep, i - 1, c);
    }
  }

  /** A part with no digit at all is kept as its stripped text: words, an
      empty part (from a trailing comma), a lone dash. */
  lemma PartWithoutDigits(part: string)
    requires forall i :: 0 <= i < |part| ==> !IsDigit(part[i])
    ensures ExplodePart(part) == [Text(Strip(part))]
  {
    var p := Strip(part);
    if '-' in p {
      var pieces := Split(p, '-');
      if ParseInt(pieces[0]).Some? {
        var i :| 0 <= i < |pieces[0]| && IsDigit(pieces[0][i]);
        PieceInJoin(pieces, '-', 0, pieces[0][i]);
        assert false;
      }
    }
  }

  /** A part with two or more dashes is kept as its stripped text. */
  lemma PartManyDashes(part: string)
    requires Occurrences(Strip(part), '-') >= 2
    ensures ExplodePart(part) == [Text(Strip(part))]
  {
    assert '-' in Strip(part) by {
      if '-' !in Strip(part) { NoOccurrences(Strip(part), '-'); }
    }
  }

  lemma {:induction false} NoOccurrences(s: string, c: char)
    requires c !in s
    ensures Occurrences(s, c) == 0
    decreases |s|
  {
    if |s| > 0 {
      NoOccurrences(s[1..], c);
    }
  }

  /** A part that starts with a dash, such as "-5", is kept as its text. */
  lemma PartLeadingDash(part: string)
    requires |Strip(part)| > 0 && Strip(part)[0] == '-'
    ensures ExplodePart(part) == [Text(Strip(part))]
  {
    var p := Strip(part);
    assert p == [p[0]] + p[1..];
    assert Split(p, '-')[0] == "";
    assert TrimStart("") == "" && TrimEnd("") == "";
    assert ParseInt("") == None;
  }

  /** An empty field, as left by a missing entry, is one empty text. */
  lemma EmptyFieldExample()
    ensures ExplodeField("") == [Text("")]
  {
    PartWithoutDigits("");
    FieldSinglePart("");
  }

  /** A trailing comma adds an empty text after the values before it. */
  lemma TrailingComma(week: string)
    ensures ExplodeField(week + ",") == ExplodeField(week) + [Text("")]
  {
    EmptyFieldExample();
    FieldConcat(week, "");
    assert week + "," + "" == week + ",";
  }

  /** A lone number is that number. */
  lemma SingleNumberExample()
    ensures ExplodeField("7") == [Int(7)]
  {
    assert ShowNat(7) == "7";
    ParseShowNat(7);
    PartSingle("7");
    FieldSinglePart("7");
  }

  /** A negative number is not a range and not a number: it stays text. */
  lemma NegativeExample()
    ensures ExplodePart("-5") == [Text("-5")]
  {
    StripPlain("-5");
    PartLeadingDash("-5");
  }

  /** A double range is kept as text. */
  lemma DoubleRangeExample()
    ensures ExplodePart("1-2-3") == [Text("1-2-3")]
  {
    var t := "1-2-3";
    StripPlain(t);
    assert Occurrences(t, '-') == 2;
    PartManyDashes(t);
  }

  /** A table row, by column name. */
  type Row = map<string, Cell>

  /** A DataFrame: its column names and its rows, each row holding exactly
      those columns. */
  datatype Table = Table(columns: set<string>, rows: seq<Row>)

  ghost predicate Rectangular(t: Table) {
    forall i :: 0 <= i < |t.rows| ==> t.rows[i].Keys == t.columns
  }

  /** What makes the script raise: no "Week #" column (`KeyError`), or a week
      cell that is not text, which the `.str` accessor or `split` refuses
      (`AttributeError`). */
  datatype ExplodeError = MissingColumn | NonTextWeek

  predicate HasTextWeek(row: Row) {
    WeekColumn in row && row[WeekColumn].Text?
  }

  /** The copies of one row, one per value in `vals`, each holding its value
      in "Week #" and every other column unchanged. */
  function ExpandRow(row: Row, vals: seq<Cell>): (r: seq<Row>)
    ensures |r| == |vals|
    ensures forall j :: 0 <= j < |r| ==>
      && r[j].Keys == row.Keys + {WeekColumn}
      && r[j][WeekColumn] == vals[j]
      && forall c :: c in row && c != WeekColumn ==> r[j][c] == row[c]
  {
    seq(|vals|, j requires 0 <= j < |vals| => row[WeekColumn := vals[j]])
  }

  /** The loop of `explode_week_range`: every row's copies, rows in order,
      where `values` expands one week field. */
  function ExplodeRows(rows: seq<Row>, values: string -> seq<Cell>): (r: seq<Row>)
    requires forall i :: 0 <= i < |rows| ==> HasTextWeek(rows[i])
  {
    if |rows| == 0 then []
    else
      assert HasTextWeek(rows[0]);
      ExpandRow(rows[0], values(rows[0][WeekColumn].s)) + ExplodeRows(rows[1..], values)
  }

  /** The output is the input's row blocks in input order: exploding two
      consecutive stretches of rows is exploding each and concatenating. */
  lemma {:induction false} ExplodeRowsAppend(a: seq<Row>, b: seq<Row>, values: string -> seq<Cell>)
    requires forall i :: 0 <= i < |a| ==> HasTextWeek(a[i])
    requires forall i :: 0 <= i < |b| ==> HasTextWeek(b[i])
    ensures ExplodeRows(a + b, values) == ExplodeRows(a, values) + ExplodeRows(b, values)
    decreases |a|
  {
    if |a| == 0 {
      assert a + b == b;
    } else {
      assert (a + b)[1..] == a[1..] + b;
      ExplodeRowsAppend(a[1..], b, values);
    }
  }

  /** Every output row keeps the columns of the input and agrees outside
      "Week #" with some input row. */
  lemma {:induction false} ExplodeRowsShape(rows: seq<Row>, columns: set<string>, values: string -> seq<Cell>)
    requires WeekColumn in columns
    requires forall i :: 0 <= i < |rows| ==> HasTextWeek(rows[i]) && rows[i].Keys == columns
    ensures forall j :: 0 <= j < |ExplodeRows(rows, values)| ==>
      && ExplodeRows(rows, values)[j].Keys == columns
      && exists i :: 0 <= i < |rows| && Agrees(ExplodeRows(rows, values)[j], rows[i])
    decreases |rows|
  {
    if |rows| > 0 {
      ExplodeRowsShape(rows[1..], columns, values);
      var h := ExpandRow(rows[0], values(rows[0][WeekColumn].s));
      var t := ExplodeRows(rows[1..], values);
      var r := ExplodeRows(rows, values);
      assert r == h + t;
      forall j | 0 <= j < |r|
        ensures r[j].Keys == columns
        ensures exists i :: 0 <= i < |rows| && Agrees(r[j], rows[i])
      {
        if j < |h| {
          assert r[j] == h[j];
          assert Agrees(r[j], rows[0]);
        } else {
          assert r[j] == t[j - |h|];
          var i :| 0 <= i < |rows[1..]| && Agrees(t[j - |h|], rows[1..][i]);
          assert rows[1..][i] == rows[i + 1];
        }
      }
    }
  }

  /** Two rows agree on every column but "Week #". */
  ghost predicate Agrees(r: Row, s: Row) {
    forall c :: c in s && c != WeekColumn ==> c in r && r[c] == s[c]
  }

  /** The values of one week field after the column's normalisation. */
  function WeekValues(week: string): seq<Cell> {
    ExplodeField(Normalize(week))
  }

  /** `explode_week_range(df)`: normalise the week column, then repeat each
      row once per value of its week field. An empty result has no columns,
      as `pd.DataFrame([])` has none. */
  function ExplodeWeekRange(t: Table): (r: Result<Table, ExplodeError>)
    requires Rectangular(t)
    ensures r == Failure(MissingColumn) <==> WeekColumn !in t.columns
    ensures r == Failure(NonTextWeek) <==>
      WeekColumn in t.columns && exists i :: 0 <= i < |t.rows| && !t.rows[i][WeekColumn].Text?
    ensures r.Success? ==> Rectangular(r.value)
    ensures r.Success? && |r.value.rows| > 0 ==> r.value.columns == t.columns
    ensures r.Success? ==> r.value.rows == ExplodeRows(t.rows, WeekValues)
    ensures r.Success? ==> forall j :: 0 <= j < |r.value.rows| ==>
      exists i :: 0 <= i < |t.rows| && Agrees(r.value.rows[j], t.rows[i])
  {
    if WeekColumn !in t.columns then Failure(MissingColumn)
    else if exists i :: 0 <= i < |t.rows| && !t.rows[i][WeekColumn].Text? then
      Failure(NonTextWeek)
    else
      var out := ExplodeRows(t.rows, WeekValues);
      ExplodeRowsShape(t.rows, t.columns, WeekValues);
      Success(Table(if |out| == 0 then {} else t.columns, out))
  }

  /** Each input row contributes exactly as many output rows as its week
      field has values, holding those values in order, right after the rows
      of the rows before it. */
  lemma ExplodeRowsBlock(rows: seq<Row>, k: nat, values: string -> seq<Cell>)
    requires forall i :: 0 <= i < |rows| ==> HasTextWeek(rows[i])
    requires k < |rows|
    ensures var out := ExplodeRows(rows, values);
      var start := |ExplodeRows(rows[..k], values)|;
      var vals := values(rows[k][WeekColumn].s);
      && start + |vals| <= |out|
      && out[start..start + |vals|] == ExpandRow(rows[k], vals)
  {
    assert rows == rows[..k] + ([rows[k]] + rows[k + 1..]);
    ExplodeRowsAppend(rows[..k], [rows[k]] + rows[k + 1..], values);
    ExplodeRowsAppend([rows[k]], rows[k + 1..], values);
    assert ExplodeRows([rows[k]], values) == ExpandRow(rows[k], values(rows[k][WeekColumn].s)) + [];
  }
}
