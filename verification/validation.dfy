/**
 * ValidateDataset's reconciliation: the record-layout columns and the
 * control-figure totals read back from the store, the verdict, and the
 * comparison record it logs.
 */
module Validation {
  import opened Wrappers
  import opened Sanitizer
  import opened Sheet
  import opened Store

  /** One row of control_figure as `(string Column_Name, double Total)`; totals are whole numbers here. */
  datatype ControlFigure = ControlFigure(name: Option<string>, total: int)

  const ColumnCountLabel: string := "Column Count"
  const RowCountLabel: string := "Row Count"
  const SuccessStatus: string := "Success"
  const FailStatus: string := "Fail"
  const SuccessDescription: string := "Dataset matches control figures."
  const FailDescription: string := "Mismatch in column count, row count, or dataset structure."

  /**
   * `FirstOrDefault(x => x.Column_Name == name).Total`: the total of the
   * first figure with that name, and 0 (the default tuple's) when none has it.
   */
  function TotalFor(figures: seq<ControlFigure>, name: string): (r: int)
    ensures (forall k :: 0 <= k < |figures| ==> figures[k].name != Some(name)) ==> r == 0
    ensures forall k ::
              (0 <= k < |figures| && figures[k].name == Some(name)
               && forall j :: 0 <= j < k ==> figures[j].name != Some(name)) ==> r == figures[k].total
  {
    if figures == [] then 0
    else if figures[0].name == Some(name) then figures[0].total
    else
      var r := TotalFor(figures[1..], name);
      assert forall k :: 1 <= k < |figures| ==> figures[1..][k - 1] == figures[k];
      r
  }

  /**
   * The verdict: the dataset's columns equal the sanitized layout columns
   * element by element and in order, their number equals the "Column Count"
   * total, and the row count equals the "Row Count" total.
   */
  predicate Passes(expectedColumns: seq<string>, figures: seq<ControlFigure>, datasetColumns: seq<string>, actualRowCount: int)
  {
    && datasetColumns == expectedColumns
    && |datasetColumns| == TotalFor(figures, ColumnCountLabel)
    && actualRowCount == TotalFor(figures, RowCountLabel)
  }

  /** The compare_results record of one validation. */
  function Compare(expectedColumns: seq<string>, figures: seq<ControlFigure>, datasetColumns: seq<string>, actualRowCount: int)
    : (r: ComparisonResult)
    ensures r.validationStatus == SuccessStatus <==> Passes(expectedColumns, figures, datasetColumns, actualRowCount)
    ensures r.validationStatus == FailStatus <==> !Passes(expectedColumns, figures, datasetColumns, actualRowCount)
    ensures r.description == if r.validationStatus == SuccessStatus then SuccessDescription else FailDescription
    ensures r.expectedColumnCount == TotalFor(figures, ColumnCountLabel) && r.actualColumnCount == |datasetColumns|
    ensures r.expectedRowCount == TotalFor(figures, RowCountLabel) && r.actualRowCount == actualRowCount
  {
    var status := if Passes(expectedColumns, figures, datasetColumns, actualRowCount) then SuccessStatus else FailStatus;
    ComparisonResult(
      TotalFor(figures, ColumnCountLabel), |datasetColumns|,
      TotalFor(figures, RowCountLabel), actualRowCount,
      status,
      if status == SuccessStatus then SuccessDescription else FailDescription)
  }

  /** The Column_Name values read back as strings, in row order; a NULL name stops the read. */
  function LayoutNames(rows: seq<seq<Cell>>): (r: Result<seq<string>, Error>)
    ensures r.Success? <==> forall i :: 0 <= i < |rows| ==> CellText(CellAt(rows[i], 0)).Some?
    ensures r.Success? ==>
              && |r.value| == |rows|
              && forall i :: 0 <= i < |rows| ==> Some(r.value[i]) == CellText(CellAt(rows[i], 0))
    ensures r.Failure? ==> r.error == NullColumnName
  {
    if rows == [] then Success([])
    else
      var name := CellText(CellAt(rows[0], 0));
      if name.None? then Failure(NullColumnName)
      else match LayoutNames(rows[1..])
        case Failure(e) => Failure(e)
        case Success(rest) =>
          assert forall i :: 1 <= i < |rows| ==> rows[1..][i - 1] == rows[i];
          Success([name.value] + rest)
  }

  /**
   * The record-layout names, each sanitized; a NULL name makes
   * SanitizeColumnName throw.
   */
  function LayoutColumns(rows: seq<seq<Cell>>): (r: Result<seq<string>, Error>)
    ensures r.Success? <==> forall i :: 0 <= i < |rows| ==> CellText(CellAt(rows[i], 0)).Some?
    ensures r.Success? ==>
              && |r.value| == |rows|
              && forall i :: 0 <= i < |rows| ==> r.value[i] == SanitizeColumnName(CellText(CellAt(rows[i], 0)).value)
    ensures r.Failure? ==> r.error == NullColumnName
  {
    match LayoutNames(rows)
    case Failure(e) => Failure(e)
    case Success(names) => Success(seq(|names|, i requires 0 <= i < |names| => SanitizeColumnName(names[i])))
  }

  function DigitValue(c: char): nat
    requires '0' <= c <= '9'
  {
    c as int - '0' as int
  }

  predicate IsDigits(s: string)
  {
    s != [] && forall i :: 0 <= i < |s| ==> '0' <= s[i] <= '9'
  }

  function DigitsValue(s: string): nat
    requires IsDigits(s)
  {
    var n := |s| - 1;
    (if n == 0 then 0 else DigitsValue(s[..n]) * 10) + DigitValue(s[n])
  }

  /** A plain decimal integer numeral, as Dapper converts text to a number. */
  function ParseInteger(s: string): Option<int>
  {
    if |s| > 1 && s[0] == '-' && IsDigits(s[1..]) then Some(0 - DigitsValue(s[1..]))
    else if IsDigits(s) then Some(DigitsValue(s))
    else None
  }

  lemma {:induction false} NatTextParses(n: nat)
    ensures IsDigits(NatText(n)) && DigitsValue(NatText(n)) == n
  {
    var s := NatText(n);
    assert "0123456789"[n % 10] == (('0' as int) + n % 10) as char;
    if n >= 10 {
      NatTextParses(n / 10);
      assert s[..|s| - 1] == NatText(n / 10);
    }
  }

  /** A digit string reads as its value. */
  lemma DigitsParse(digits: string)
    requires IsDigits(digits)
    ensures ParseInteger(digits) == Some(DigitsValue(digits))
  {
    assert digits[0] != '-';
  }

  /** A minus sign before a digit string reads as the negated digits. */
  lemma NegativeParses(digits: string)
    requires IsDigits(digits)
    ensures ParseInteger("-" + digits) == Some(0 - DigitsValue(digits))
  {
    var s := "-" + digits;
    assert s[0] == '-' && s[1..] == digits;
  }

  /** A number's decimal text reads back as that number. */
  lemma DecimalTextParses(n: int)
    ensures ParseInteger(DecimalText(n)) == Some(n)
  {
    if n < 0 {
      NatTextParses(-n);
      NegativeParses(NatText(-n));
    } else {
      NatTextParses(n);
      DigitsParse(NatText(n));
    }
  }

  /**
   * A Total read back as a number: a number as it is, NULL as the default 0,
   * text only when it is a decimal integer numeral.
   */
  function TotalValue(c: Cell): Result<int, Error>
  {
    match c
    case Num(n) => Success(n)
    case Null => Success(0)
    case Str(s) => if ParseInteger(s).Some? then Success(ParseInteger(s).value) else Failure(TotalNotNumeric)
    case _ => Failure(TotalNotNumeric)
  }

  /**
   * The round trip of a Total: a number cell, or the decimal text of that
   * number, reads back as the number itself.
   */
  lemma TotalReadsBack(n: int)
    ensures TotalValue(Num(n)) == Success(n)
    ensures TotalValue(Str(DecimalText(n))) == Success(n)
  {
    DecimalTextParses(n);
  }

  /** The control figures read back as (name, total) pairs, in row order. */
  function ReadFigures(rows: seq<seq<Cell>>): (r: Result<seq<ControlFigure>, Error>)
    ensures r.Success? <==> forall i :: 0 <= i < |rows| ==> TotalValue(CellAt(rows[i], 1)).Success?
    ensures r.Success? ==>
              && |r.value| == |rows|
              && forall i :: 0 <= i < |rows| ==>
                   r.value[i] == ControlFigure(CellText(CellAt(rows[i], 0)), TotalValue(CellAt(rows[i], 1)).value)
    ensures r.Failure? ==> r.error == TotalNotNumeric
  {
    if rows == [] then Success([])
    else match TotalValue(CellAt(rows[0], 1))
      case Failure(e) => Failure(e)
      case Success(total) =>
        match ReadFigures(rows[1..])
        case Failure(e) => Failure(e)
        case Success(rest) =>
          assert forall i :: 1 <= i < |rows| ==> rows[1..][i - 1] == rows[i];
          Success([ControlFigure(CellText(CellAt(rows[0], 0)), total)] + rest)
  }

  /** A passing dataset means the layout itself has as many columns as the "Column Count" total. */
  lemma PassingLayoutMatchesColumnCount(expectedColumns: seq<string>, figures: seq<ControlFigure>, datasetColumns: seq<string>, actualRowCount: int)
    requires Passes(expectedColumns, figures, datasetColumns, actualRowCount)
    ensures |expectedColumns| == TotalFor(figures, ColumnCountLabel)
    ensures Compare(expectedColumns, figures, datasetColumns, actualRowCount).expectedColumnCount
            == Compare(expectedColumns, figures, datasetColumns, actualRowCount).actualColumnCount
  {
  }

  /**
   * A missing "Column Count" or "Row Count" figure counts as 0, so only an
   * empty layout and dataset, or an empty dataset, can pass without it.
   */
  lemma MissingFiguresCountAsZero(expectedColumns: seq<string>, figures: seq<ControlFigure>, datasetColumns: seq<string>, actualRowCount: int)
    requires Passes(expectedColumns, figures, datasetColumns, actualRowCount)
    ensures (forall k :: 0 <= k < |figures| ==> figures[k].name != Some(ColumnCountLabel)) ==> datasetColumns == expectedColumns == []
    ensures (forall k :: 0 <= k < |figures| ==> figures[k].name != Some(RowCountLabel)) ==> actualRowCount == 0
  {
  }

  /** The same columns in another order fail. */
  lemma ColumnOrderMatters(figures: seq<ControlFigure>, actualRowCount: int)
    ensures !Passes(["A", "B"], figures, ["B", "A"], actualRowCount)
  {
    assert ["B", "A"][0] != ["A", "B"][0];
  }

  /** Layout ["A", "B"], figures Column Count 2 and Row Count 3: three rows pass and two fail. */
  lemma CompareExamples()
    ensures var figures := [ControlFigure(Some(ColumnCountLabel), 2), ControlFigure(Some(RowCountLabel), 3)];
            && Compare(["A", "B"], figures, ["A", "B"], 3).validationStatus == SuccessStatus
            && Compare(["A", "B"], figures, ["A", "B"], 2)
               == ComparisonResult(2, 2, 3, 2, FailStatus, FailDescription)
  {
    var figures := [ControlFigure(Some(ColumnCountLabel), 2), ControlFigure(Some(RowCountLabel), 3)];
    assert TotalFor(figures, ColumnCountLabel) == 2;
    assert figures[0].name != Some(RowCountLabel);
    assert TotalFor(figures, RowCountLabel) == 3;
  }
}
