/**
 * The two member-file validators of `FileService`: the CSV text validator
 * (`validateMpfcMemberCsv`) and the spreadsheet validator
 * (`validateMpfcMemberExcel`) over the first sheet of an already decoded
 * workbook. Both check the same ordered header and run the same row rule over
 * one growing member-ID set; their data rows are described here by one
 * row-item view so that the acceptance condition is stated and proved once.
 */
module MemberValidation {
  import opened Wrappers
  import opened Text
  import opened Csv
  import opened FieldRules

  /** The exact, ordered, case-sensitive header of a member file. */
  const ExpectedHeader: seq<string> :=
    ["MemberID", "FullName", "Address", "AccountNumber", "Balance", "LastTransactionDate"]

  /** First header position at or after `i` whose name differs from the expected one. */
  function FirstMismatch(names: seq<string>, i: nat): (o: Outcome<ValidationError>)
    requires |names| >= |ExpectedHeader| && i <= |ExpectedHeader|
    ensures o.Pass? <==> forall j :: i <= j < |ExpectedHeader| ==> names[j] == ExpectedHeader[j]
    ensures o.Fail? ==>
              o.error.HeaderMismatch? && i < o.error.position <= |ExpectedHeader|
              && o.error.expected == ExpectedHeader[o.error.position - 1]
              && o.error.actual == names[o.error.position - 1]
              && o.error.actual != o.error.expected
              && forall j :: i <= j < o.error.position - 1 ==> names[j] == ExpectedHeader[j]
    decreases |ExpectedHeader| - i
  {
    if i == |ExpectedHeader| then Pass
    else if ExpectedHeader[i] != names[i] then Fail(HeaderMismatch(i + 1, ExpectedHeader[i], names[i]))
    else FirstMismatch(names, i + 1)
  }

  /**
   * The header check of both validators: the column count first, then the
   * first position (1-based) whose value differs, with expected and actual value.
   */
  function HeaderVerdict(count: int, names: seq<string>): (o: Outcome<ValidationError>)
    requires count == |ExpectedHeader| ==> |names| >= |ExpectedHeader|
    ensures o.Pass? <==> count == |ExpectedHeader| && names[..|ExpectedHeader|] == ExpectedHeader
    ensures o == Fail(HeaderCountMismatch) <==> count != |ExpectedHeader|
    ensures o.Fail? && count == |ExpectedHeader| ==>
              o.error.HeaderMismatch? && 1 <= o.error.position <= |ExpectedHeader|
              && o.error.expected == ExpectedHeader[o.error.position - 1]
              && o.error.actual == names[o.error.position - 1]
              && o.error.actual != o.error.expected
              && forall j :: 0 <= j < o.error.position - 1 ==> names[j] == ExpectedHeader[j]
  {
    if count != |ExpectedHeader| then Fail(HeaderCountMismatch)
    else
      var o := FirstMismatch(names, 0);
      assert o.Pass? <==> names[..|ExpectedHeader|] == ExpectedHeader by {
        if o.Pass? {
          assert forall j :: 0 <= j < |ExpectedHeader| ==> names[..|ExpectedHeader|][j] == ExpectedHeader[j];
        }
        if names[..|ExpectedHeader|] == ExpectedHeader {
          assert forall j :: 0 <= j < |ExpectedHeader| ==> names[j] == names[..|ExpectedHeader|][j];
        }
      }
      o
  }

  /** The header loop of both validators. */
  method CheckHeader(count: int, names: seq<string>) returns (o: Outcome<ValidationError>)
    requires count == |ExpectedHeader| ==> |names| >= |ExpectedHeader|
    ensures o == HeaderVerdict(count, names)
  {
    if count != |ExpectedHeader| {
      return Fail(HeaderCountMismatch);
    }
    var i := 0;
    while i < |ExpectedHeader|
      invariant 0 <= i <= |ExpectedHeader|
      invariant FirstMismatch(names, i) == FirstMismatch(names, 0)
    {
      if ExpectedHeader[i] != names[i] {
        return Fail(HeaderMismatch(i + 1, ExpectedHeader[i], names[i]));
      }
      i := i + 1;
    }
    return Pass;
  }

  /** A header with its first two names swapped fails at position 1, naming both values. */
  lemma SwappedHeaderRejected()
    ensures HeaderVerdict(6, ["FullName", "MemberID", "Address", "AccountNumber", "Balance", "LastTransactionDate"])
         == Fail(HeaderMismatch(1, "MemberID", "FullName"))
  {
  }

  /**
   * One data row as both validators see it: skipped (a blank CSV line, an
   * absent sheet row) or present with its column count and its cells.
   */
  datatype RowItem = Skipped | Present(count: int, cells: seq<string>)

  /** Every present row with the expected column count has exactly that many cells. */
  predicate WellFormed(items: seq<RowItem>) {
    forall r :: 0 <= r < |items| && items[r].Present? && items[r].count == |ExpectedHeader| ==>
      |items[r].cells| == |ExpectedHeader|
  }

  function MemberIdOf(item: RowItem): string {
    if item.Present? && |item.cells| > 0 then item.cells[0] else ""
  }

  /**
   * The data rows from index `r` on, checked in order with the member IDs seen
   * so far; the row rule reads columns 0, 1, 3, 4 and 5 (Address is not checked).
   */
  function RowsVerdict(items: seq<RowItem>, r: nat, seen: set<string>): Outcome<ValidationError>
    requires WellFormed(items)
    decreases |items| - r
  {
    if r >= |items| then Pass
    else match items[r]
      case Skipped => RowsVerdict(items, r + 1, seen)
      case Present(n, c) =>
        if n != |ExpectedHeader| then Fail(ColumnCountMismatch(r))
        else match RowRule(r, c[0], c[1], c[3], c[4], c[5], seen)
          case Err(e) => Fail(e)
          case Ok(s) => RowsVerdict(items, r + 1, s)
  }

  /** A row on its own is acceptable: skipped, or six cells that satisfy every field rule. */
  predicate RowAcceptable(item: RowItem) {
    item.Skipped? ||
    (item.count == |ExpectedHeader| && |item.cells| == |ExpectedHeader|
     && item.cells[0] != "" && item.cells[1] != "" && IsAccountNumber(item.cells[3])
     && IsBalance(item.cells[4]) && IsIsoDate(item.cells[5]))
  }

  /**
   * The declarative acceptance condition of the rows from `from` on: each row
   * acceptable, no member ID already in `seen`, and member IDs pairwise distinct.
   */
  predicate RowsAcceptable(items: seq<RowItem>, from: nat, seen: set<string>) {
    && (forall r :: from <= r < |items| ==> RowAcceptable(items[r]))
    && (forall r :: from <= r < |items| && items[r].Present? ==> MemberIdOf(items[r]) !in seen)
    && (forall q, r :: from <= q < r < |items| && items[q].Present? && items[r].Present? ==>
          MemberIdOf(items[q]) != MemberIdOf(items[r]))
  }

  lemma AcceptableStep(items: seq<RowItem>, from: nat, seen: set<string>)
    requires from < |items|
    ensures RowsAcceptable(items, from, seen) <==>
              && RowAcceptable(items[from])
              && (items[from].Present? ==> MemberIdOf(items[from]) !in seen)
              && RowsAcceptable(items, from + 1,
                                if items[from].Present? then seen + {MemberIdOf(items[from])} else seen)
  {
    var seen' := if items[from].Present? then seen + {MemberIdOf(items[from])} else seen;
    if RowsAcceptable(items, from, seen) {
      forall r | from + 1 <= r < |items| && items[r].Present? ensures MemberIdOf(items[r]) !in seen' {
        if items[from].Present? {
          assert MemberIdOf(items[from]) != MemberIdOf(items[r]);
        }
      }
    }
    if && RowAcceptable(items[from])
       && (items[from].Present? ==> MemberIdOf(items[from]) !in seen)
       && RowsAcceptable(items, from + 1, seen') {
      forall q, r | from <= q < r < |items| && items[q].Present? && items[r].Present?
        ensures MemberIdOf(items[q]) != MemberIdOf(items[r])
      {
        if q == from {
          assert MemberIdOf(items[r]) !in seen';
        }
      }
    }
  }

  /** The rows pass the ordered checks exactly when they meet the declarative condition. */
  lemma {:induction false} RowsVerdictAccepts(items: seq<RowItem>, from: nat, seen: set<string>)
    requires WellFormed(items)
    ensures RowsVerdict(items, from, seen) == Pass <==> RowsAcceptable(items, from, seen)
    decreases |items| - from
  {
    if from < |items| {
      AcceptableStep(items, from, seen);
      match items[from]
      case Skipped =>
        RowsVerdictAccepts(items, from + 1, seen);
      case Present(n, c) =>
        if n == |ExpectedHeader| {
          var res := RowRule(from, c[0], c[1], c[3], c[4], c[5], seen);
          if res.Ok? {
            RowsVerdictAccepts(items, from + 1, res.value);
          }
        }
    }
  }

  /** The row named by a row-level error. */
  function ErrorRow(e: ValidationError): Option<nat> {
    match e
    case ColumnCountMismatch(r) => Some(r)
    case MemberIdRequired(r) => Some(r)
    case FullNameRequired(r) => Some(r)
    case AccountNumberInvalid(r) => Some(r)
    case BalanceNegative(r) => Some(r)
    case BalanceNotNumeric(r) => Some(r)
    case DateInvalid(r) => Some(r)
    case _ => None
  }

  /**
   * A failing row check is a row-level error or a duplicate; a row-level
   * error names a present row that breaks a rule, every row before it being
   * acceptable.
   */
  lemma {:induction false} RowsVerdictFailure(items: seq<RowItem>, from: nat, seen: set<string>, e: ValidationError)
    requires WellFormed(items)
    requires RowsVerdict(items, from, seen) == Fail(e)
    ensures ErrorRow(e).Some? || e.DuplicateMemberId?
    ensures ErrorRow(e).Some? ==>
              var r := ErrorRow(e).value;
              from <= r < |items| && items[r].Present? && !RowAcceptable(items[r])
              && RowsAcceptable(items[..r], from, seen)
    decreases |items| - from
  {
    assert from < |items|;
    match items[from]
    case Skipped =>
      RowsVerdictFailure(items, from + 1, seen, e);
      if ErrorRow(e).Some? {
        AcceptableStep(items[..ErrorRow(e).value], from, seen);
      }
    case Present(n, c) =>
      if n == |ExpectedHeader| {
        var res := RowRule(from, c[0], c[1], c[3], c[4], c[5], seen);
        if res.Ok? {
          RowsVerdictFailure(items, from + 1, res.value, e);
          if ErrorRow(e).Some? {
            AcceptableStep(items[..ErrorRow(e).value], from, seen);
          }
        } else {
          assert RowsAcceptable(items[..from], from, seen);
        }
      } else {
        assert RowsAcceptable(items[..from], from, seen);
      }
  }

  /**
   * A duplicate error is the first failure: it names the non-empty member ID of
   * a six-column row, every row before it is acceptable, and the ID repeats one
   * from the seen set or from an earlier row.
   */
  lemma {:induction false} DuplicateHasWitness(items: seq<RowItem>, from: nat, seen: set<string>, id: string)
    requires WellFormed(items)
    requires RowsVerdict(items, from, seen) == Fail(DuplicateMemberId(id))
    ensures exists r :: from <= r < |items| && items[r].Present? && items[r].count == |ExpectedHeader|
                        && MemberIdOf(items[r]) == id && id != ""
                        && RowsAcceptable(items[..r], from, seen)
                        && (id in seen || exists q :: from <= q < r && items[q].Present? && MemberIdOf(items[q]) == id)
    decreases |items| - from
  {
    assert from < |items|;
    match items[from]
    case Skipped =>
      DuplicateHasWitness(items, from + 1, seen, id);
      var r :| from + 1 <= r < |items| && items[r].Present? && items[r].count == |ExpectedHeader|
               && MemberIdOf(items[r]) == id && id != ""
               && RowsAcceptable(items[..r], from + 1, seen)
               && (id in seen || exists q :: from + 1 <= q < r && items[q].Present? && MemberIdOf(items[q]) == id);
      AcceptableStep(items[..r], from, seen);
      assert RowsAcceptable(items[..r], from, seen);
    case Present(n, c) =>
      assert n == |ExpectedHeader|;
      var res := RowRule(from, c[0], c[1], c[3], c[4], c[5], seen);
      if res.Ok? {
        var seen' := res.value;
        DuplicateHasWitness(items, from + 1, seen', id);
        var r :| from + 1 <= r < |items| && items[r].Present? && items[r].count == |ExpectedHeader|
                 && MemberIdOf(items[r]) == id && id != ""
                 && RowsAcceptable(items[..r], from + 1, seen')
                 && (id in seen' || exists q :: from + 1 <= q < r && items[q].Present? && MemberIdOf(items[q]) == id);
        assert items[..r][from] == items[from];
        AcceptableStep(items[..r], from, seen);
        assert RowsAcceptable(items[..r], from, seen);
        if id !in seen && id == c[0] {
          assert from < r && items[from].Present? && MemberIdOf(items[from]) == id;
        }
      } else {
        assert MemberIdOf(items[from]) == id;
        assert RowsAcceptable(items[..from], from, seen);
      }
  }

  // ---------------------------------------------------------------- CSV

  /** The lines of the CSV text: trimmed as a whole, then split on `\R`. */
  function CsvLines(content: string): seq<string> {
    SplitLines(Trim(content))
  }

  /** A CSV line as a row: blank after trimming is skipped, otherwise the fields of the trimmed line (not trimmed themselves). */
  function CsvItem(line: string): RowItem {
    var t := Trim(line);
    if t == "" then Skipped else Present(|ParseCsv(t)|, ParseCsv(t))
  }

  function CsvItems(lines: seq<string>): (items: seq<RowItem>)
    ensures |items| == |lines| && WellFormed(items)
    ensures forall r :: 0 <= r < |lines| ==> items[r] == CsvItem(lines[r])
  {
    seq(|lines|, i requires 0 <= i < |lines| => CsvItem(lines[i]))
  }

  /** The header cells, each trimmed. */
  function TrimAll(cells: seq<string>): (r: seq<string>)
    ensures |r| == |cells| && forall i :: 0 <= i < |cells| ==> r[i] == Trim(cells[i])
  {
    seq(|cells|, i requires 0 <= i < |cells| => Trim(cells[i]))
  }

  /** The verdict of `validateMpfcMemberCsv` on the decoded text. */
  function CsvVerdict(content: string): Outcome<ValidationError> {
    var lines := CsvLines(content);
    if |lines| < 2 then Fail(TooFewLines)
    else
      var header := TrimAll(ParseCsv(lines[0]));
      match HeaderVerdict(|header|, header)
      case Fail(e) => Fail(e)
      case Pass => RowsVerdict(CsvItems(lines), 1, {})
  }

  /** `validateMpfcMemberCsv`: the loop over the lines with its growing member-ID set. */
  method ValidateMemberCsv(content: string) returns (o: Outcome<ValidationError>)
    ensures o == CsvVerdict(content)
  {
    var lines := SplitLines(Trim(content));
    if |lines| < 2 {
      return Fail(TooFewLines);
    }
    var cells := ParseCsvLine(lines[0]);
    var header := TrimAll(cells);
    o := CheckHeader(|header|, header);
    if o.Fail? {
      return;
    }
    assert CsvVerdict(content) == RowsVerdict(CsvItems(lines), 1, {});
    o := CheckCsvRows(lines);
  }

  /** The data-line loop of `validateMpfcMemberCsv`, after the header has matched. */
  method CheckCsvRows(lines: seq<string>) returns (o: Outcome<ValidationError>)
    ensures o == RowsVerdict(CsvItems(lines), 1, {})
  {
    ghost var items := CsvItems(lines);
    var memberIds: set<string> := {};
    var r := 1;
    while r < |lines|
      invariant 1 <= r
      invariant RowsVerdict(items, r, memberIds) == RowsVerdict(items, 1, {})
    {
      var line := Trim(lines[r]);
      if line == "" {
        r := r + 1;
        continue;
      }
      var cols := ParseCsvLine(line);
      assert items[r] == Present(|cols|, cols);
      if |cols| != |ExpectedHeader| {
        return Fail(ColumnCountMismatch(r));
      }
      var res := RowRule(r, cols[0], cols[1], cols[3], cols[4], cols[5], memberIds);
      if res.Err? {
        return Fail(res.error);
      }
      memberIds := res.value;
      r := r + 1;
    }
    return Pass;
  }

  /**
   * A CSV text is accepted exactly when it has at least two lines, its trimmed
   * header fields are the expected names in order, and its data lines meet the
   * declarative row condition.
   */
  lemma CsvAccepted(content: string)
    ensures var lines := CsvLines(content);
            CsvVerdict(content) == Pass <==>
              |lines| >= 2 && TrimAll(ParseCsv(lines[0])) == ExpectedHeader
              && RowsAcceptable(CsvItems(lines), 1, {})
  {
    var lines := CsvLines(content);
    if |lines| >= 2 {
      RowsVerdictAccepts(CsvItems(lines), 1, {});
    }
  }

  /** In an accepted CSV text no two non-blank data lines carry the same MemberID (they are 6-field lines). */
  lemma CsvAcceptedMemberIdsDistinct(content: string)
    ensures var lines := CsvLines(content);
            CsvVerdict(content) == Pass ==>
              forall q, r :: 1 <= q < r < |lines| && Trim(lines[q]) != "" && Trim(lines[r]) != "" ==>
                |ParseCsv(Trim(lines[q]))| == 6 && |ParseCsv(Trim(lines[r]))| == 6
                && ParseCsv(Trim(lines[q]))[0] != ParseCsv(Trim(lines[r]))[0]
  {
    var lines := CsvLines(content);
    if CsvVerdict(content) == Pass {
      CsvAccepted(content);
      forall q, r | 1 <= q < r < |lines| && Trim(lines[q]) != "" && Trim(lines[r]) != ""
        ensures |ParseCsv(Trim(lines[q]))| == 6 && |ParseCsv(Trim(lines[r]))| == 6
        ensures ParseCsv(Trim(lines[q]))[0] != ParseCsv(Trim(lines[r]))[0]
      {
        AcceptedLinesDiffer(lines, q, r);
      }
    }
  }

  /** Two non-blank data lines of acceptable rows are 6-field lines with different first fields. */
  lemma AcceptedLinesDiffer(lines: seq<string>, q: nat, r: nat)
    requires RowsAcceptable(CsvItems(lines), 1, {})
    requires 1 <= q < r < |lines| && Trim(lines[q]) != "" && Trim(lines[r]) != ""
    ensures |ParseCsv(Trim(lines[q]))| == 6 && |ParseCsv(Trim(lines[r]))| == 6
    ensures ParseCsv(Trim(lines[q]))[0] != ParseCsv(Trim(lines[r]))[0]
  {
    var items := CsvItems(lines);
    assert items[q] == CsvItem(lines[q]) && items[r] == CsvItem(lines[r]);
    assert RowAcceptable(items[q]) && RowAcceptable(items[r]);
    assert MemberIdOf(items[q]) != MemberIdOf(items[r]);
  }

  /** CSV text with fewer than two lines after trimming and splitting is rejected before anything else. */
  lemma CsvTooFewLines(content: string)
    ensures CsvVerdict(content) == Fail(TooFewLines) <==> |CsvLines(content)| < 2
  {
    var lines := CsvLines(content);
    if |lines| >= 2 {
      RowsNeverTooFewLines(CsvItems(lines), 1, {});
    }
  }

  /** The row checks only ever report row-level errors, never the line-count error. */
  lemma {:induction false} RowsNeverTooFewLines(items: seq<RowItem>, r: nat, seen: set<string>)
    requires WellFormed(items)
    ensures RowsVerdict(items, r, seen) != Fail(TooFewLines)
    decreases |items| - r
  {
    if r < |items| {
      match items[r]
      case Skipped =>
        RowsNeverTooFewLines(items, r + 1, seen);
      case Present(n, c) =>
        if n == |ExpectedHeader| {
          match RowRule(r, c[0], c[1], c[3], c[4], c[5], seen)
          case Err(e) =>
          case Ok(s) =>
            RowsNeverTooFewLines(items, r + 1, s);
        }
    }
  }

  // --------------------------------------------------------- spreadsheet

  /**
   * One sheet row: `getLastCellNum()` (one past the last cell index, -1 when
   * the row has no cells) and the display strings `DataFormatter` gives its
   * cells by index (a missing cell displays as "").
   */
  datatype SheetRow = SheetRow(lastCellNum: int, cells: seq<string>)

  /** A sheet: row `r` is `getRow(r)` (None for an absent row); the last index is `getLastRowNum()`. */
  datatype Sheet = Sheet(rows: seq<Option<SheetRow>>)

  datatype Workbook = Workbook(sheets: seq<Sheet>)

  /** The trimmed display string of cell `i`. */
  function CellText(row: SheetRow, i: nat): string {
    Trim(if i < |row.cells| then row.cells[i] else "")
  }

  /** The trimmed display strings of cells 0 to 5. */
  function RowCells(row: SheetRow): (c: seq<string>)
    ensures |c| == |ExpectedHeader| && forall i :: 0 <= i < |c| ==> c[i] == CellText(row, i)
  {
    seq(|ExpectedHeader|, i requires 0 <= i < |ExpectedHeader| => CellText(row, i))
  }

  function SheetItem(row: Option<SheetRow>): RowItem {
    match row
    case None => Skipped
    case Some(x) => Present(x.lastCellNum, RowCells(x))
  }

  function SheetItems(rows: seq<Option<SheetRow>>): (items: seq<RowItem>)
    ensures |items| == |rows| && WellFormed(items)
    ensures forall r :: 0 <= r < |rows| ==> items[r] == SheetItem(rows[r])
  {
    seq(|rows|, i requires 0 <= i < |rows| => SheetItem(rows[i]))
  }

  /** The verdict of `validateMpfcMemberExcel` on the decoded workbook (None: the file could not be read). */
  function ExcelVerdict(book: Option<Workbook>): Outcome<ValidationError> {
    match book
    case None => Fail(InvalidExcelFormat)
    case Some(wb) =>
      if |wb.sheets| == 0 then Fail(NoSheets)
      else
        var rows := wb.sheets[0].rows;
        if |rows| == 0 || rows[0].None? then Fail(MissingHeaderRow)
        else
          match HeaderVerdict(rows[0].value.lastCellNum, RowCells(rows[0].value))
          case Fail(e) => Fail(e)
          case Pass => RowsVerdict(SheetItems(rows), 1, {})
  }

  /** `validateMpfcMemberExcel` after decoding: the loop over rows 1 to `getLastRowNum()`. */
  method ValidateMemberExcel(book: Option<Workbook>) returns (o: Outcome<ValidationError>)
    ensures o == ExcelVerdict(book)
  {
    if book.None? {
      return Fail(InvalidExcelFormat);
    }
    var wb := book.value;
    if |wb.sheets| == 0 {
      return Fail(NoSheets);
    }
    var sheet := wb.sheets[0];
    if |sheet.rows| == 0 || sheet.rows[0].None? {
      return Fail(MissingHeaderRow);
    }
    var headerRow := sheet.rows[0].value;
    o := CheckHeader(headerRow.lastCellNum, RowCells(headerRow));
    if o.Fail? {
      return;
    }
    ghost var items := SheetItems(sheet.rows);
    var memberIds: set<string> := {};
    var lastRow := |sheet.rows| - 1;
    var r := 1;
    while r <= lastRow
      invariant 1 <= r <= lastRow + 1
      invariant RowsVerdict(items, r, memberIds) == ExcelVerdict(book)
    {
      var row := sheet.rows[r];
      if row.None? {
        r := r + 1;
        continue;
      }
      if row.value.lastCellNum != |ExpectedHeader| {
        return Fail(ColumnCountMismatch(r));
      }
      var memberId := CellText(row.value, 0);
      var fullName := CellText(row.value, 1);
      var account := CellText(row.value, 3);
      var balance := CellText(row.value, 4);
      var date := CellText(row.value, 5);
      var res := RowRule(r, memberId, fullName, account, balance, date, memberIds);
      if res.Err? {
        return Fail(res.error);
      }
      memberIds := res.value;
      r := r + 1;
    }
    return Pass;
  }

  /**
   * A workbook is accepted exactly when it was read, has a first sheet with a
   * header row of last-cell count 6 whose trimmed cells are the expected names,
   * and its rows meet the declarative row condition.
   */
  lemma ExcelAccepted(book: Option<Workbook>)
    ensures ExcelVerdict(book) == Pass <==>
              && book.Some? && |book.value.sheets| > 0
              && var rows := book.value.sheets[0].rows;
                 && |rows| > 0 && rows[0].Some?
                 && rows[0].value.lastCellNum == |ExpectedHeader| && RowCells(rows[0].value) == ExpectedHeader
                 && RowsAcceptable(SheetItems(rows), 1, {})
  {
    if book.Some? && |book.value.sheets| > 0 {
      var rows := book.value.sheets[0].rows;
      if |rows| > 0 && rows[0].Some? {
        RowsVerdictAccepts(SheetItems(rows), 1, {});
        assert RowCells(rows[0].value)[..|ExpectedHeader|] == RowCells(rows[0].value);
      }
    }
  }

  /** Unlike the CSV validator, the spreadsheet validator accepts a sheet holding only a valid header row. */
  lemma HeaderOnlySheetAccepted(header: SheetRow)
    requires header.lastCellNum == |ExpectedHeader| && RowCells(header) == ExpectedHeader
    ensures ExcelVerdict(Some(Workbook([Sheet([Some(header)])]))) == Pass
  {
    assert RowCells(header)[..|ExpectedHeader|] == ExpectedHeader;
  }
}
