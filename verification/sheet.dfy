/**
 * A decoded spreadsheet and what the service reads from it: the header row
 * turned into column names, data rows turned into column-to-value maps, and
 * the emptiness test both passes over the dataset apply.
 */
module Sheet {
  import opened Wrappers
  import opened Text
  import opened Sanitizer

  /**
   * A cell as the reader yields it: null, DBNull, a string, a number, or any
   * other value (a date, a boolean) together with the text its ToString() gives.
   */
  datatype Cell =
    | Null
    | DbNull
    | Str(s: string)
    | Num(n: int)
    | Other(text: string)

  function DigitChar(d: nat): char
    requires d < 10
  {
    "0123456789"[d]
  }

  function NatText(n: nat): string
    decreases n
  {
    (if n < 10 then "" else NatText(n / 10)) + [DigitChar(n % 10)]
  }

  /** The decimal numeral of a number cell, its ToString(). */
  function DecimalText(n: int): string
  {
    if n < 0 then "-" + NatText(-n) else NatText(n)
  }

  /** `cellValue.ToString()`; None for null and DBNull, which the callers test first. */
  function CellText(c: Cell): Option<string>
  {
    match c
    case Null => None
    case DbNull => None
    case Str(s) => Some(s)
    case Num(n) => Some(DecimalText(n))
    case Other(t) => Some(t)
  }

  /**
   * The negation of `cellValue != null && cellValue != DBNull.Value &&
   * !string.IsNullOrWhiteSpace(cellValue.ToString())`.
   */
  predicate IsBlank(c: Cell)
  {
    c.Null? || c.DbNull? || IsNullOrWhiteSpace(CellText(c).value)
  }

  /** `cellValue is DBNull ? null : cellValue`: what a row map keeps of a cell. */
  function Stored(c: Cell): (r: Cell)
    ensures !r.DbNull?
    ensures c.DbNull? ==> r == Null
    ensures !c.DbNull? ==> r == c
  {
    if c.DbNull? then Null else c
  }

  /**
   * What the emptiness test says of each kind of cell: null and DBNull are
   * blank, text is blank exactly when it is all white space, and a number
   * never is.
   */
  lemma BlankCells(c: Cell)
    ensures c.Null? || c.DbNull? ==> IsBlank(c)
    ensures c.Str? ==> (IsBlank(c) <==> IsNullOrWhiteSpace(c.s))
    ensures c.Num? ==> !IsBlank(c)
  {
    if c.Num? {
      var t := DecimalText(c.n);
      var m := if c.n < 0 then -c.n else c.n;
      assert t[|t| - 1] == DigitChar(m % 10);
      assert !IsWhiteSpace(t[|t| - 1]);
    }
  }

  /** `GetValue(i)`: the reader pads a row shorter than the sheet with nulls. */
  function CellAt(row: seq<Cell>, i: nat): Cell
  {
    if i < |row| then row[i] else Null
  }

  /** `reader.GetString(i)` is a cast to string: it yields null or a string, and throws on anything else. */
  predicate IsTextOrNull(c: Cell)
  {
    c.Null? || c.Str?
  }

  /**
   * A header cell that becomes a column: text whose trimmed form is not
   * blank, that is (Text.TrimEmpty) text that is not all white space.
   */
  predicate IsNamed(c: Cell)
  {
    c.Str? && !IsNullOrWhiteSpace(c.s)
  }

  /**
   * The header loop's reading: the texts of the cells that become columns,
   * in order; the first cell that is neither null nor text makes GetString
   * throw.
   */
  function HeaderTexts(header: seq<Cell>): Result<seq<string>, Error>
  {
    if header == [] then Success([])
    else
      var n := |header| - 1;
      match HeaderTexts(header[..n])
      case Failure(e) => Failure(e)
      case Success(texts) =>
        var c := header[n];
        if !IsTextOrNull(c) then Failure(HeaderNotText(n))
        else if IsNamed(c) then Success(texts + [c.s])
        else Success(texts)
  }

  /** Each header text trimmed, then sanitized. */
  function ColumnNames(texts: seq<string>): seq<string>
  {
    seq(|texts|, i requires 0 <= i < |texts| => SanitizeColumnName(Trim(texts[i])))
  }

  /**
   * The header row as the service resolves it: each cell read as a string and
   * trimmed, blank ones skipped, the rest sanitized, in order.
   */
  function ResolveHeader(header: seq<Cell>): Result<seq<string>, Error>
  {
    match HeaderTexts(header)
    case Failure(e) => Failure(e)
    case Success(texts) => Success(ColumnNames(texts))
  }

  /** The positions of the header cells that become columns, in increasing order. */
  function NamedPositions(header: seq<Cell>): (ps: seq<nat>)
    ensures forall k :: 0 <= k < |ps| ==> ps[k] < |header| && IsNamed(header[ps[k]])
    ensures forall k, l :: 0 <= k < l < |ps| ==> ps[k] < ps[l]
    ensures forall p :: 0 <= p < |header| && IsNamed(header[p]) ==> p in ps
  {
    if header == [] then []
    else
      var n := |header| - 1;
      var ps := NamedPositions(header[..n]);
      if IsNamed(header[n]) then ps + [n] else ps
  }

  /** The header fails to resolve exactly when some cell is neither null nor text. */
  lemma {:induction false} HeaderFails(header: seq<Cell>)
    ensures ResolveHeader(header).Failure? <==> exists i :: 0 <= i < |header| && !IsTextOrNull(header[i])
    ensures HeaderTexts(header).Failure? ==> HeaderTexts(header).error.HeaderNotText?
  {
    if header != [] {
      var n := |header| - 1;
      HeaderFails(header[..n]);
      if exists i :: 0 <= i < n && !IsTextOrNull(header[..n][i]) {
        var i :| 0 <= i < n && !IsTextOrNull(header[..n][i]);
        assert header[i] == header[..n][i];
      }
      if exists i :: 0 <= i < |header| && !IsTextOrNull(header[i]) {
        var i :| 0 <= i < |header| && !IsTextOrNull(header[i]);
        if i < n { assert header[..n][i] == header[i]; }
      }
    }
  }

  /** The error names the first cell that is neither null nor text. */
  lemma {:induction false} HeaderFirstError(header: seq<Cell>, i: nat)
    requires i < |header| && !IsTextOrNull(header[i])
    requires forall j :: 0 <= j < i ==> IsTextOrNull(header[j])
    ensures HeaderTexts(header) == Failure(HeaderNotText(i))
  {
    var n := |header| - 1;
    if i < n {
      HeaderFirstError(header[..n], i);
    } else {
      HeaderFails(header[..n]);
    }
  }

  /** One more header cell that is null or text extends the reading by its text when it is named. */
  lemma HeaderTextsStep(header: seq<Cell>, i: nat)
    requires i < |header| && HeaderTexts(header[..i]).Success? && IsTextOrNull(header[i])
    ensures IsNamed(header[i]) ==> HeaderTexts(header[..i + 1]) == Success(HeaderTexts(header[..i]).value + [header[i].s])
    ensures !IsNamed(header[i]) ==> HeaderTexts(header[..i + 1]) == HeaderTexts(header[..i])
  {
    assert header[..i + 1][..i] == header[..i];
  }

  /** A cell that is neither null nor text after a readable prefix is the header's error. */
  lemma HeaderFailsAt(header: seq<Cell>, i: nat)
    requires i < |header| && HeaderTexts(header[..i]).Success? && !IsTextOrNull(header[i])
    ensures ResolveHeader(header) == Failure(HeaderNotText(i))
  {
    HeaderFails(header[..i]);
    assert forall j :: 0 <= j < i ==> header[..i][j] == header[j];
    HeaderFirstError(header, i);
  }

  /** Naming one more text appends its column name. */
  lemma ColumnNamesAppend(texts: seq<string>, t: string)
    ensures ColumnNames(texts + [t]) == ColumnNames(texts) + [SanitizeColumnName(Trim(t))]
  {
    assert forall i :: 0 <= i < |texts| ==> (texts + [t])[i] == texts[i];
  }

  /** The header texts are those of the named cells, in order. */
  lemma {:induction false} HeaderTextsPositions(header: seq<Cell>)
    requires HeaderTexts(header).Success?
    ensures |HeaderTexts(header).value| == |NamedPositions(header)|
    ensures forall k :: 0 <= k < |NamedPositions(header)| ==>
              HeaderTexts(header).value[k] == header[NamedPositions(header)[k]].s
  {
    if header != [] {
      var n := |header| - 1;
      var prefix := header[..n];
      HeaderTextsPositions(prefix);
      var texts0, ps0 := HeaderTexts(prefix).value, NamedPositions(prefix);
      forall k | 0 <= k < |ps0|
        ensures texts0[k] == header[ps0[k]].s
      {
        assert prefix[ps0[k]] == header[ps0[k]];
      }
      if IsNamed(header[n]) {
        var texts, ps := texts0 + [header[n].s], ps0 + [n];
        assert HeaderTexts(header).value == texts && NamedPositions(header) == ps;
        assert texts[|ps0|] == header[ps[|ps0|]].s;
      } else {
        assert HeaderTexts(header).value == texts0 && NamedPositions(header) == ps0;
      }
    }
  }

  /** The columns are the sanitized, trimmed texts of the named cells, in order. */
  lemma ResolveHeaderColumns(header: seq<Cell>)
    requires ResolveHeader(header).Success?
    ensures |ResolveHeader(header).value| == |NamedPositions(header)|
    ensures forall k :: 0 <= k < |NamedPositions(header)| ==>
              ResolveHeader(header).value[k] == SanitizeColumnName(Trim(header[NamedPositions(header)[k]].s))
  {
    HeaderTextsPositions(header);
  }

  /** Every resolved column name is already sanitized, so sanitizing it again changes nothing. */
  lemma ResolvedNamesAreSanitized(header: seq<Cell>)
    requires ResolveHeader(header).Success?
    ensures forall k :: 0 <= k < |ResolveHeader(header).value| ==>
              IsSanitized(ResolveHeader(header).value[k])
              && SanitizeColumnName(ResolveHeader(header).value[k]) == ResolveHeader(header).value[k]
  {
    ResolveHeaderColumns(header);
    var columns, ps := ResolveHeader(header).value, NamedPositions(header);
    forall k | 0 <= k < |columns|
      ensures IsSanitized(columns[k]) && SanitizeColumnName(columns[k]) == columns[k]
    {
      SanitizeRemovesForbidden(Trim(header[ps[k]].s));
      SanitizeFixedPoint(columns[k]);
    }
  }

  /** When every header cell is named, the k-th column comes from the k-th cell. */
  lemma {:induction false} DenseHeaderPositions(header: seq<Cell>)
    requires forall p :: 0 <= p < |header| ==> IsNamed(header[p])
    ensures NamedPositions(header) == seq(|header|, p => p)
  {
    if header != [] {
      var n := |header| - 1;
      DenseHeaderPositions(header[..n]);
    }
  }

  /**
   * A data row as a map: the value at position i is stored under the i-th
   * column name, a later position overwriting an earlier one with the same name.
   */
  function RowMap(columns: seq<string>, row: seq<Cell>): map<string, Cell>
  {
    if columns == [] then map[]
    else
      var n := |columns| - 1;
      RowMap(columns[..n], row)[columns[n] := Stored(CellAt(row, n))]
  }

  /** A row map has one key per distinct column name and never holds DBNull. */
  lemma {:induction false} RowMapShape(columns: seq<string>, row: seq<Cell>)
    ensures RowMap(columns, row).Keys == set c | c in columns
    ensures forall c :: c in RowMap(columns, row) ==> !RowMap(columns, row)[c].DbNull?
  {
    if columns != [] {
      var n := |columns| - 1;
      RowMapShape(columns[..n], row);
      assert columns == columns[..n] + [columns[n]];
    }
  }

  /**
   * The value under the k-th column name is the cell at position k, unless a
   * later column has the same name.
   */
  lemma {:induction false} RowMapAt(columns: seq<string>, row: seq<Cell>, k: nat)
    requires k < |columns|
    requires forall j :: k < j < |columns| ==> columns[j] != columns[k]
    ensures columns[k] in RowMap(columns, row)
    ensures RowMap(columns, row)[columns[k]] == Stored(CellAt(row, k))
  {
    var n := |columns| - 1;
    if k < n {
      RowMapAt(columns[..n], row, k);
    }
  }

  /** A header text that is not blank, has no white space around it and no character the sanitizer rewrites. */
  predicate IsPlainName(s: string)
  {
    s != [] && !IsWhiteSpace(s[0]) && !IsWhiteSpace(s[|s| - 1]) && IsSanitized(s)
  }

  /** A plain name is a named cell and comes through Trim and SanitizeColumnName unchanged. */
  lemma PlainNameKept(s: string)
    requires IsPlainName(s)
    ensures IsNamed(Str(s)) && SanitizeColumnName(Trim(s)) == s
  {
    assert Leading(s) == 0;
    var r := Trim(s);
    assert r == s[..|s|] == s;
    SanitizeFixedPoint(s);
  }

  /** Texts that are all plain names are their own column names. */
  lemma PlainColumnNames(texts: seq<string>)
    requires forall i :: 0 <= i < |texts| ==> IsPlainName(texts[i])
    ensures ColumnNames(texts) == texts
  {
    forall i | 0 <= i < |texts|
      ensures ColumnNames(texts)[i] == texts[i]
    {
      PlainNameKept(texts[i]);
    }
  }

  /** Reading one more header cell, appended at the end. */
  lemma HeaderTextsSnoc(header: seq<Cell>, c: Cell, texts: seq<string>)
    requires HeaderTexts(header) == Success(texts) && IsTextOrNull(c)
    ensures HeaderTexts(header + [c]) == if IsNamed(c) then Success(texts + [c.s]) else Success(texts)
  {
    assert (header + [c])[..|header|] == header;
  }

  lemma PlainColumnNamesPair(a: string, b: string)
    requires IsPlainName(a) && IsPlainName(b)
    ensures ColumnNames([a, b]) == [a, b]
  {
    var texts := [a, b];
    assert texts[0] == a && texts[1] == b;
    PlainColumnNames(texts);
  }

  /** A header of one named cell a reads as the text [a]. */
  lemma HeaderTextsName(a: string)
    requires IsNamed(Str(a))
    ensures HeaderTexts([Str(a)]) == Success([a])
  {
    var h0: seq<Cell>, t0: seq<string> := [], [];
    HeaderTextsSnoc(h0, Str(a), t0);
    assert h0 + [Str(a)] == [Str(a)];
    assert t0 + [a] == [a];
  }

  /** A named cell a and a blank cell read as the text [a]. */
  lemma HeaderTextsNameBlank(a: string)
    requires IsNamed(Str(a))
    ensures HeaderTexts([Str(a), Null]) == Success([a])
  {
    HeaderTextsName(a);
    HeaderTextsSnoc([Str(a)], Null, [a]);
    assert [Str(a)] + [Null] == [Str(a), Null];
  }

  /** Named cells a and b around a blank cell read as the texts [a, b]. */
  lemma HeaderTextsWithGap(a: string, b: string)
    requires IsNamed(Str(a)) && IsNamed(Str(b))
    ensures HeaderTexts([Str(a), Null, Str(b)]) == Success([a, b])
  {
    var front, texts := [Str(a), Null], [a];
    HeaderTextsNameBlank(a);
    HeaderTextsSnoc(front, Str(b), texts);
    assert texts + [b] == [a, b];
    assert front + [Str(b)] == [Str(a), Null, Str(b)];
  }

  /** Plain names a and b around a blank cell resolve to the columns [a, b]. */
  lemma ResolveWithGap(a: string, b: string)
    requires IsPlainName(a) && IsPlainName(b)
    ensures ResolveHeader([Str(a), Null, Str(b)]) == Success([a, b])
  {
    PlainNameKept(a);
    PlainNameKept(b);
    HeaderTextsWithGap(a, b);
    PlainColumnNamesPair(a, b);
  }

  /**
   * A blank header cell in the middle shifts the values under every later
   * column: under b the map holds the cell below the blank header, and the
   * cell below b is never read.
   */
  lemma {:induction false} BlankHeaderShiftsValues(a: string, b: string, x: Cell, y: Cell, z: Cell)
    requires IsPlainName(a) && IsPlainName(b) && a != b
    ensures ResolveHeader([Str(a), Null, Str(b)]) == Success([a, b])
    ensures RowMap([a, b], [x, y, z])[b] == Stored(y)
  {
    ResolveWithGap(a, b);
    SecondColumnValue(a, b, [x, y, z]);
  }

  /** Under the second of two different columns the map holds the row's second cell. */
  lemma SecondColumnValue(a: string, b: string, row: seq<Cell>)
    requires a != b && |row| >= 2
    ensures RowMap([a, b], row)[b] == Stored(row[1])
  {
    RowMapAt([a, b], row, 1);
  }

  /** Every examined position of the row is blank. */
  predicate BlankUpTo(row: seq<Cell>, width: nat)
  {
    forall i :: 0 <= i < width ==> IsBlank(CellAt(row, i))
  }

  /** The first pass's test: every cell of the row is blank. */
  predicate BlankRow(row: seq<Cell>)
  {
    BlankUpTo(row, |row|)
  }

  /** The second pass (and the layout and control-figure reads): the non-blank rows, as maps. */
  function IngestRows(columns: seq<string>, rows: seq<seq<Cell>>): seq<map<string, Cell>>
  {
    if rows == [] then []
    else
      var n := |rows| - 1;
      IngestRows(columns, rows[..n])
      + (if BlankUpTo(rows[n], |columns|) then [] else [RowMap(columns, rows[n])])
  }

  /** With no column no cell is examined, so the second pass keeps no row. */
  lemma {:induction false} NoColumnsKeepNoRows(rows: seq<seq<Cell>>)
    ensures IngestRows([], rows) == []
  {
    if rows != [] {
      NoColumnsKeepNoRows(rows[..|rows| - 1]);
    }
  }

  /** The first pass over the dataset: how many rows have a non-blank cell anywhere. */
  function CountNonBlank(rows: seq<seq<Cell>>): nat
  {
    if rows == [] then 0
    else
      var n := |rows| - 1;
      CountNonBlank(rows[..n]) + (if BlankRow(rows[n]) then 0 else 1)
  }

  /** The count never exceeds the rows, and is zero exactly when every row is blank. */
  lemma {:induction false} CountNonBlankBounds(rows: seq<seq<Cell>>)
    ensures CountNonBlank(rows) <= |rows|
    ensures CountNonBlank(rows) == 0 <==> forall i :: 0 <= i < |rows| ==> BlankRow(rows[i])
  {
    if rows != [] {
      var n := |rows| - 1;
      CountNonBlankBounds(rows[..n]);
      assert forall i :: 0 <= i < n ==> rows[..n][i] == rows[i];
    }
  }

  /** How many rows have a non-blank cell among their first `width` positions. */
  function CountKept(rows: seq<seq<Cell>>, width: nat): nat
  {
    if rows == [] then 0
    else
      var n := |rows| - 1;
      CountKept(rows[..n], width) + (if BlankUpTo(rows[n], width) then 0 else 1)
  }

  /** The positions of the rows with a non-blank cell among their first `width`, in order. */
  function KeptPositions(rows: seq<seq<Cell>>, width: nat): (ps: seq<nat>)
    ensures forall k :: 0 <= k < |ps| ==> ps[k] < |rows| && !BlankUpTo(rows[ps[k]], width)
    ensures forall k, l :: 0 <= k < l < |ps| ==> ps[k] < ps[l]
    ensures forall p :: 0 <= p < |rows| && !BlankUpTo(rows[p], width) ==> p in ps
  {
    if rows == [] then []
    else
      var n := |rows| - 1;
      var ps := KeptPositions(rows[..n], width);
      if BlankUpTo(rows[n], width) then ps else ps + [n]
  }

  /**
   * Ingesting keeps exactly the rows with a non-blank examined cell, in
   * order: the k-th map is built from the k-th such row.
   */
  lemma {:induction false} IngestRowsSpec(columns: seq<string>, rows: seq<seq<Cell>>)
    ensures |IngestRows(columns, rows)| == CountKept(rows, |columns|) == |KeptPositions(rows, |columns|)|
    ensures forall k :: 0 <= k < |KeptPositions(rows, |columns|)| ==>
              IngestRows(columns, rows)[k] == RowMap(columns, rows[KeptPositions(rows, |columns|)[k]])
  {
    if rows != [] {
      var n := |rows| - 1;
      var prefix := rows[..n];
      IngestRowsSpec(columns, prefix);
      var maps0, ps0 := IngestRows(columns, prefix), KeptPositions(prefix, |columns|);
      forall k | 0 <= k < |ps0|
        ensures maps0[k] == RowMap(columns, rows[ps0[k]])
      {
        assert prefix[ps0[k]] == rows[ps0[k]];
      }
      if BlankUpTo(rows[n], |columns|) {
        assert IngestRows(columns, rows) == maps0 && KeptPositions(rows, |columns|) == ps0;
      } else {
        var maps, ps := maps0 + [RowMap(columns, rows[n])], ps0 + [n];
        assert IngestRows(columns, rows) == maps && KeptPositions(rows, |columns|) == ps;
        assert maps[|ps0|] == RowMap(columns, rows[ps[|ps0|]]);
      }
    }
  }

  /** A row that is non-blank in its first `width` positions is non-blank as a whole. */
  lemma KeptRowIsCounted(row: seq<Cell>, width: nat)
    requires !BlankUpTo(row, width)
    ensures !BlankRow(row)
  {
    var i :| 0 <= i < width && !IsBlank(CellAt(row, i));
    assert i < |row|;
  }

  /** The second pass never finds more rows than the first pass counted. */
  lemma {:induction false} SecondPassWithinCount(columns: seq<string>, rows: seq<seq<Cell>>)
    ensures |IngestRows(columns, rows)| <= CountNonBlank(rows)
  {
    IngestRowsSpec(columns, rows);
    KeptWithinCount(rows, |columns|);
  }

  lemma {:induction false} KeptWithinCount(rows: seq<seq<Cell>>, width: nat)
    ensures CountKept(rows, width) <= CountNonBlank(rows)
  {
    if rows != [] {
      var n := |rows| - 1;
      KeptWithinCount(rows[..n], width);
      if !BlankUpTo(rows[n], width) {
        KeptRowIsCounted(rows[n], width);
      }
    }
  }

  /**
   * The two passes agree when no row has a non-blank cell beyond the
   * examined columns.
   */
  lemma {:induction false} PassesAgree(columns: seq<string>, rows: seq<seq<Cell>>)
    requires forall r, i :: r in rows && |columns| <= i < |r| ==> IsBlank(r[i])
    ensures |IngestRows(columns, rows)| == CountNonBlank(rows)
  {
    IngestRowsSpec(columns, rows);
    KeptEqualsCount(rows, |columns|);
  }

  lemma {:induction false} KeptEqualsCount(rows: seq<seq<Cell>>, width: nat)
    requires forall r, i :: r in rows && width <= i < |r| ==> IsBlank(r[i])
    ensures CountKept(rows, width) == CountNonBlank(rows)
  {
    if rows != [] {
      var n := |rows| - 1;
      assert forall r :: r in rows[..n] ==> r in rows;
      KeptEqualsCount(rows[..n], width);
      var r := rows[n];
      assert r in rows;
      if !BlankUpTo(r, width) {
        KeptRowIsCounted(r, width);
      } else {
        assert forall i :: 0 <= i < |r| ==> IsBlank(CellAt(r, i));
      }
    }
  }

  lemma OneRowCount(row: seq<Cell>)
    ensures CountNonBlank([row]) == if BlankRow(row) then 0 else 1
  {
    assert [row][..0] == [];
  }

  /** The header (a, blank) reads as the single column a. */
  lemma {:induction false} ResolveNameThenBlank(a: string)
    requires IsPlainName(a)
    ensures ResolveHeader([Str(a), Null]) == Success([a])
  {
    PlainNameKept(a);
    HeaderTextsNameBlank(a);
    PlainColumnNames([a]);
  }

  /**
   * A value under a blank header cell is counted by the first pass but
   * dropped by the second, so the two passes disagree.
   */
  lemma PassesDisagree(a: string, v: Cell)
    requires IsPlainName(a) && !IsBlank(v)
    ensures ResolveHeader([Str(a), Null]) == Success([a])
    ensures CountNonBlank([[Null, v]]) == 1
    ensures IngestRows([a], [[Null, v]]) == []
  {
    ResolveNameThenBlank(a);
    var row := [Null, v];
    assert !IsBlank(CellAt(row, 1));
    OneRowCount(row);
    assert BlankUpTo(row, 1);
    assert [row][..0] == [];
  }
}
