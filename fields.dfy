/**
 * The per-row rule set shared by the CSV and the spreadsheet validators
 * (`FileService.validateRowFields`) and the field syntaxes it relies on.
 */
module FieldRules {
  import opened Wrappers
  import opened Text

  /** The exception messages of the validators, as data. Row numbers are the validators' own indices. */
  datatype ValidationError =
    | TooFewLines                                         // "CSV must contain a header and at least one data row"
    | HeaderCountMismatch
    | HeaderMismatch(position: nat, expected: string, actual: string)
    | ColumnCountMismatch(row: nat)
    | MemberIdRequired(row: nat)
    | DuplicateMemberId(memberId: string)                 // names the value, not the row
    | FullNameRequired(row: nat)
    | AccountNumberInvalid(row: nat)
    | BalanceNegative(row: nat)
    | BalanceNotNumeric(row: nat)
    | DateInvalid(row: nat)
    | NoSheets
    | MissingHeaderRow
    | InvalidExcelFormat                                  // any other failure while reading the workbook

  predicate IsDigit(c: char) {
    '0' <= c <= '9'
  }

  function DigitValue(c: char): nat
    requires IsDigit(c)
  {
    c as int - '0' as int
  }

  /** The regular expression `\d{8,16}` matched against the whole field. */
  predicate IsAccountNumber(s: string) {
    8 <= |s| <= 16 && forall i :: 0 <= i < |s| ==> IsDigit(s[i])
  }

  /** Length of the run of ASCII digits at the start of `s`. */
  function DigitRun(s: string): (n: nat)
    ensures n <= |s|
    ensures forall i :: 0 <= i < n ==> IsDigit(s[i])
    ensures n < |s| ==> !IsDigit(s[n])
  {
    if s != [] && IsDigit(s[0]) then 1 + DigitRun(s[1..]) else 0
  }

  /** `s` without one leading `+` or `-`. */
  function Unsigned(s: string): (r: string)
    ensures r == s || (|s| > 0 && (s[0] == '+' || s[0] == '-') && r == s[1..])
  {
    if |s| > 0 && (s[0] == '+' || s[0] == '-') then s[1..] else s
  }

  /** The optional type suffix of a Java floating-point literal. */
  predicate IsFloatSuffix(v: string) {
    v == [] || (|v| == 1 && (v[0] == 'f' || v[0] == 'F' || v[0] == 'd' || v[0] == 'D'))
  }

  /** An optional exponent (`e`/`E`, a sign, at least one digit), then the optional suffix. */
  predicate IsExponentAndSuffix(v: string) {
    if |v| > 0 && (v[0] == 'e' || v[0] == 'E') then
      var w := Unsigned(v[1..]);
      var e := DigitRun(w);
      e > 0 && IsFloatSuffix(w[e..])
    else IsFloatSuffix(v)
  }

  /** Digits with an optional point and fraction, at least one digit in all, then exponent and suffix. */
  predicate IsDecimalLiteral(u: string) {
    var a := DigitRun(u);
    var v := u[a..];
    if |v| > 0 && v[0] == '.' then
      var b := DigitRun(v[1..]);
      a + b > 0 && IsExponentAndSuffix(v[1..][b..])
    else a > 0 && IsExponentAndSuffix(v)
  }

  /** `Double.parseDouble` does not throw: the trimmed text is a signed decimal literal, `NaN` or `Infinity`. */
  predicate ParsesAsDouble(s: string) {
    var body := Unsigned(Trim(s));
    body == "NaN" || body == "Infinity" || IsDecimalLiteral(body)
  }

  /** The mantissa of a literal: everything before its exponent marker. */
  function Mantissa(u: string): (m: string)
    ensures m <= u
  {
    if u == [] || u[0] == 'e' || u[0] == 'E' then [] else [u[0]] + Mantissa(u[1..])
  }

  /** The parsed value is below zero: a minus sign and `Infinity` or a nonzero mantissa digit. */
  predicate IsNegativeDouble(s: string) {
    var t := Trim(s);
    var body := Unsigned(t);
    ParsesAsDouble(s) && |t| > 0 && t[0] == '-'
    && (body == "Infinity" || exists i :: 0 <= i < |Mantissa(body)| && '1' <= Mantissa(body)[i] <= '9')
  }

  /** Balance rule: numeric and not negative. */
  predicate IsBalance(s: string) {
    ParsesAsDouble(s) && !IsNegativeDouble(s)
  }

  predicate IsLeapYear(y: nat) {
    y % 4 == 0 && (y % 100 != 0 || y % 400 == 0)
  }

  function DaysInMonth(y: nat, m: nat): (d: nat)
    requires 1 <= m <= 12
    ensures 28 <= d <= 31
  {
    if m == 2 then (if IsLeapYear(y) then 29 else 28)
    else if m == 4 || m == 6 || m == 9 || m == 11 then 30
    else 31
  }

  /** `LocalDate.parse` with ISO `yyyy-MM-dd`, strict calendar check, four-digit years. */
  predicate IsIsoDate(s: string) {
    |s| == 10 && s[4] == '-' && s[7] == '-'
    && IsDigit(s[0]) && IsDigit(s[1]) && IsDigit(s[2]) && IsDigit(s[3])
    && IsDigit(s[5]) && IsDigit(s[6]) && IsDigit(s[8]) && IsDigit(s[9])
    && var y := 1000 * DigitValue(s[0]) + 100 * DigitValue(s[1]) + 10 * DigitValue(s[2]) + DigitValue(s[3]);
       var m := 10 * DigitValue(s[5]) + DigitValue(s[6]);
       var d := 10 * DigitValue(s[8]) + DigitValue(s[9]);
       1 <= m <= 12 && 1 <= d <= DaysInMonth(y, m)
  }

  /**
   * `validateRowFields`: the checks of one row in their fail-fast order. On
   * success the result is the member-ID set with this row's ID added.
   */
  function RowRule(row: nat, memberId: string, fullName: string, account: string,
                   balance: string, date: string, seen: set<string>): (r: Result<set<string>, ValidationError>)
    ensures r.Ok? <==>
              memberId != "" && memberId !in seen && fullName != ""
              && IsAccountNumber(account) && IsBalance(balance) && IsIsoDate(date)
    ensures r.Ok? ==> r.value == seen + {memberId}
    ensures r == Err(MemberIdRequired(row)) <==> memberId == ""
    ensures r == Err(DuplicateMemberId(memberId)) <==> memberId != "" && memberId in seen
    ensures r == Err(FullNameRequired(row)) <==> memberId != "" && memberId !in seen && fullName == ""
    ensures r == Err(AccountNumberInvalid(row)) <==>
              memberId != "" && memberId !in seen && fullName != "" && !IsAccountNumber(account)
    ensures r == Err(BalanceNotNumeric(row)) <==>
              memberId != "" && memberId !in seen && fullName != "" && IsAccountNumber(account)
              && !ParsesAsDouble(balance)
    ensures r == Err(BalanceNegative(row)) <==>
              memberId != "" && memberId !in seen && fullName != "" && IsAccountNumber(account)
              && IsNegativeDouble(balance)
    ensures r == Err(DateInvalid(row)) <==>
              memberId != "" && memberId !in seen && fullName != "" && IsAccountNumber(account)
              && IsBalance(balance) && !IsIsoDate(date)
  {
    if memberId == "" then Err(MemberIdRequired(row))
    else if memberId in seen then Err(DuplicateMemberId(memberId))
    else if fullName == "" then Err(FullNameRequired(row))
    else if !IsAccountNumber(account) then Err(AccountNumberInvalid(row))
    else if !ParsesAsDouble(balance) then Err(BalanceNotNumeric(row))
    else if IsNegativeDouble(balance) then Err(BalanceNegative(row))
    else if !IsIsoDate(date) then Err(DateInvalid(row))
    else Ok(seen + {memberId})
  }

  /** The sample balance `100.50` is numeric and not negative. */
  lemma SampleBalanceValid()
    ensures IsBalance("100.50")
  {
    var b := "100.50";
    TrimUnpadded(b);
    assert Unsigned(b) == b;
    assert DigitRun(b) == 3 by {
      assert DigitRun(b[3..]) == 0;
      assert b[1..][1..][1..] == b[3..];
    }
    assert b[3..][1..] == "50";
    assert DigitRun("50") == 2 by {
      assert DigitRun("50"[1..]) == 1;
    }
    assert "50"[2..] == [];
    assert IsDecimalLiteral(b);
    assert b[0] != '-';
  }

  /** `2024-01-01` is a valid ISO date. */
  lemma SampleDateValid()
    ensures IsIsoDate("2024-01-01")
  {
  }

  /** The sample row of the member format passes the rule set. */
  lemma SampleRowAccepted()
    ensures RowRule(1, "M1", "Jane Doe", "12345678", "100.50", "2024-01-01", {}) == Ok({"M1"})
  {
    SampleBalanceValid();
    SampleDateValid();
    assert IsAccountNumber("12345678");
    assert {} + {"M1"} == {"M1"};
  }
}
