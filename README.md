# Secure banking system: upload validation and login lockout

This project models two services of the secure banking system in Dafny and
proves properties of them.

The first is the upload path of `FileService`. Staff upload a member file.
The file passes an emptiness and content-type gate. It is routed to a
validator for the member-file format (CSV, or an XLSX/XLS workbook), which
requires the ordered header `MemberID, FullName, Address, AccountNumber,
Balance, LastTransactionDate` and checks each data row. The file is then
fingerprinted with a lower-case hex SHA-256 checksum and rejected if that
checksum is already stored. Otherwise it is encrypted with AES-GCM and
saved as a record.

The second is the brute-force lockout table of `LockoutService`. Five
consecutive failed logins for a user name (case-insensitive) lock it for two
minutes. An expired lock is cleared lazily, on the next check.

Modules:

- `Wrappers`: `Option`, `Result`, and `Outcome` (pass, or fail with an error).
- `Text`: Java's `trim`, ASCII `toLowerCase`, `endsWith`, and `split("\\R")`.
- `Csv`: the quoted-field CSV line parser, as a state-machine function and as a loop.
- `FieldRules`: the validation errors, and the per-row field rules, including the
  grammars accepted by `Double.parseDouble` and `LocalDate.parse`.
- `MemberValidation`: header checks, the row loop with its member-ID set, and the
  CSV and workbook validators.
- `Lockout`: the per-name entry, its transitions, and the `LockoutService` class
  over a `map`.
- `Upload`: file classification, the hex checksum, the repository class, the
  upload specification `Process`, and the `UploadAndEncrypt` method proved
  against it.

The following are inputs to the model: the clock (milliseconds for the lockout; an
opaque `int` for upload time), SHA-256, AES-GCM encryption, UTF-8 decoding,
and workbook decoding by the spreadsheet library (modelled as
`Option<Workbook>`, with `None` when decoding throws).

Where the code and its description differ, the model follows the code:

- The workbook validator accepts a sheet holding only the header row. The CSV validator
  requires at least two lines after trimming and splitting. See
  `HeaderOnlySheetAccepted`.
- A file whose name ends in `.csv` goes to the CSV validator whatever
  allowed content type it announces. See `CsvNameWinsOverSpreadsheetType`.
- CSV row numbers in errors count blank lines, because they are indices into the
  split lines. CSV data fields are not trimmed, but workbook cells are.
- The duplicate member-ID error names the ID, not the row.
- `recordFailure` counts failures per lower-cased name. `lockedUntil` returns a
  recorded expiry even after it has passed. See `LockedUntilMayBePast`.

## Model

| member | source | states |
|---|---|---|
| Text.Trim | src/main/java/com/mpfc/securebankingsystem/service/FileService.java:99 | The result is empty iff every character is at most U+0020. A non-empty result starts and ends with a character above U+0020. |
| Text.TrimInfix | src/main/java/com/mpfc/securebankingsystem/service/FileService.java:99 | The result is the infix `s[b..e]` of the input, where every character before `b` and from `e` on is at most U+0020: only such characters are removed, and only at the two ends. |
| Text.Lower | src/main/java/com/mpfc/securebankingsystem/security/LockoutService.java:24 | Same length, and each character lower-cased on its own: an ASCII capital becomes its small letter and every other character is kept. |
| Text.LowerIdentifiesCaseVariants | src/main/java/com/mpfc/securebankingsystem/security/LockoutService.java:24 | Two names lower-case to the same key iff they have the same length and differ only in the case of ASCII letters. |
| Text.SplitLines | src/main/java/com/mpfc/securebankingsystem/service/FileService.java:100 | With no line break, the result is the whole string as one element (so `""` gives `[""]`). Otherwise it is a prefix of the pieces whose last element is non-empty, and every piece it drops is empty: exactly the trailing empty lines are dropped. |
| Text.Breaks | src/main/java/com/mpfc/securebankingsystem/service/FileService.java:100 | Every `\R` match is `\r\n` or a single one of the seven line-break characters. |
| Text.PiecesJoin | src/main/java/com/mpfc/securebankingsystem/service/FileService.java:100 | There is one more piece than matched break, and the pieces joined with the breaks between them give back the text. |
| Text.SplitLinesHaveNoBreaks | src/main/java/com/mpfc/securebankingsystem/service/FileService.java:100 | No line of `split("\\R")` contains any of the seven `\R` break characters. |
| Csv.Scan | src/main/java/com/mpfc/securebankingsystem/service/FileService.java:204-226 | The state-machine definition of the parser (the body is the definition); its contract states that the result starts with the fields already emitted, and that it has one more field than those plus the commas outside quotes in the rest of the line. |
| Csv.ParseCsv | src/main/java/com/mpfc/securebankingsystem/service/FileService.java:204-226 | A line has exactly one more field than it has commas outside quotes. The quote state toggles on every quote except a doubled one inside quotes. |
| Csv.ParseCsvLine | src/main/java/com/mpfc/securebankingsystem/service/FileService.java:204-226 | The character loop with its `inQuotes` flag and escaped-quote skip returns the fields `ParseCsv` defines. |
| Csv.ParseWithoutQuotes | src/main/java/com/mpfc/securebankingsystem/service/FileService.java:217-222 | A line without double quotes parses exactly as a split on every comma. |
| Csv.SplitCommasJoin | src/main/java/com/mpfc/securebankingsystem/service/FileService.java:217-224 | Joining the comma-split parts with commas restores the line. |
| Csv.ScanQuotedField | src/main/java/com/mpfc/securebankingsystem/service/FileService.java:210-216 | Inside quotes, an escaped field followed by a closing quote adds the field's text verbatim, doubled quotes becoming single ones, and leaves the quotes. |
| Csv.ParseEncodeRow | src/main/java/com/mpfc/securebankingsystem/service/FileService.java:204-226 | Every non-empty list of fields, each quoted with its quotes doubled and the fields joined by commas, parses back to exactly those fields. |
| FieldRules.IsAccountNumber | src/main/java/com/mpfc/securebankingsystem/service/FileService.java:189 | Definition (the body): `\d{8,16}`, 8 to 16 ASCII digits and nothing else. |
| FieldRules.ParsesAsDouble | src/main/java/com/mpfc/securebankingsystem/service/FileService.java:191 | Definition (the body): after `trim` and an optional sign, `NaN`, `Infinity` or a decimal literal with optional exponent and `f`/`F`/`d`/`D` suffix, the strings `Double.parseDouble` accepts in decimal form. |
| FieldRules.IsNegativeDouble | src/main/java/com/mpfc/securebankingsystem/service/FileService.java:192 | Definition (the body): a parsed value is below zero iff it carries a minus sign and is `Infinity` or has a non-zero mantissa digit. |
| FieldRules.IsIsoDate | src/main/java/com/mpfc/securebankingsystem/service/FileService.java:197 | Definition (the body): `yyyy-MM-dd` with a month from 1 to 12 and a day that exists in that month of that (proleptic Gregorian) year. |
| FieldRules.IsBalance | src/main/java/com/mpfc/securebankingsystem/service/FileService.java:190-195 | Definition (the body): the balance passes iff `parseDouble` accepts it and the value is not negative. |
| FieldRules.RowRule | src/main/java/com/mpfc/securebankingsystem/service/FileService.java:185-201 | Each error condition is stated exactly, in the source's order: missing ID (names the row); repeated ID (names the ID); missing name; account not 8 to 16 digits; balance rejected by `parseDouble`; negative balance; date not `yyyy-MM-dd` with a real day. The row passes iff all checks hold, and the set of seen IDs grows by exactly this ID. |
| FieldRules.SampleRowAccepted | src/main/java/com/mpfc/securebankingsystem/service/FileService.java:185-201 | The sample fields `"M1"`, `"Jane Doe"`, `"12345678"`, `"100.50"` and `"2024-01-01"` (each exactly that string) pass, and `M1` is recorded. |
| MemberValidation.HeaderVerdict | src/main/java/com/mpfc/securebankingsystem/service/FileService.java:105-116 | Pass iff there are six names equal to the expected six in order. The count error is raised iff the count is not six. A mismatch error names the first differing position (1-based) with the expected and actual names, and every earlier name matches. |
| MemberValidation.CheckHeader | src/main/java/com/mpfc/securebankingsystem/service/FileService.java:108-116 | The count test and the position loop return `HeaderVerdict`. |
| MemberValidation.SwappedHeaderRejected | src/main/java/com/mpfc/securebankingsystem/service/FileService.java:111-115 | A header with the first two names swapped fails at position 1, expecting `MemberID` and getting `FullName`. |
| MemberValidation.RowsVerdict | src/main/java/com/mpfc/securebankingsystem/service/FileService.java:121-133 | Definition (the body): the data rows in order from a given row with the member IDs seen so far; skipped rows pass, a row without six columns or breaking `RowRule` stops with its error. `RowsVerdictAccepts` and `RowsVerdictFailure` characterise it. |
| MemberValidation.RowsVerdictAccepts | src/main/java/com/mpfc/securebankingsystem/service/FileService.java:121-133 | The row loop passes iff every present row has six columns and meets every field rule, and the member IDs of present rows are distinct from each other and from the seen set. |
| MemberValidation.RowsVerdictFailure | src/main/java/com/mpfc/securebankingsystem/service/FileService.java:121-133 | A failing row loop reports a row-level error or a duplicate. A row-level error names a present row that breaks a rule, and every row before it is acceptable. |
| MemberValidation.DuplicateHasWitness | src/main/java/com/mpfc/securebankingsystem/service/FileService.java:121-133 | A duplicate error is the first failure: it names the non-empty member ID of a present six-column row, every row before that row is acceptable, and the ID repeats one from the seen set or from an earlier present row. |
| MemberValidation.CsvVerdict | src/main/java/com/mpfc/securebankingsystem/service/FileService.java:98-134 | Definition (the body): the line-count error, then the header verdict on the trimmed header fields, then `RowsVerdict` from line 1. `CsvAccepted` and `CsvTooFewLines` characterise it. |
| MemberValidation.ValidateMemberCsv | src/main/java/com/mpfc/securebankingsystem/service/FileService.java:98-134 | The CSV validator returns `CsvVerdict` of the decoded text. |
| MemberValidation.CheckCsvRows | src/main/java/com/mpfc/securebankingsystem/service/FileService.java:121-133 | The data-line loop (blank lines skipped, column count first, then the field rules with the growing ID set) returns `RowsVerdict` from line 1. |
| MemberValidation.CsvAccepted | src/main/java/com/mpfc/securebankingsystem/service/FileService.java:98-134 | A CSV text is accepted iff, after trimming and splitting, it has at least two lines, its trimmed header fields are the expected six in order, and its data lines are acceptable. |
| MemberValidation.CsvAcceptedMemberIdsDistinct | src/main/java/com/mpfc/securebankingsystem/service/FileService.java:121-133 | In an accepted CSV, two different non-blank data lines are six-field lines with different member IDs. |
| MemberValidation.CsvTooFewLines | src/main/java/com/mpfc/securebankingsystem/service/FileService.java:99-103 | The line-count error is reported iff fewer than two lines remain after trimming and splitting. |
| MemberValidation.ExcelVerdict | src/main/java/com/mpfc/securebankingsystem/service/FileService.java:137-183 | Definition (the body): invalid format when decoding fails; no sheets; a missing header row; the header verdict on the row's cell count and trimmed cell texts; then `RowsVerdict` over the data rows from row 1. `ExcelAccepted` characterises it. |
| MemberValidation.ValidateMemberExcel | src/main/java/com/mpfc/securebankingsystem/service/FileService.java:137-183 | The workbook validator returns `ExcelVerdict` of the decoded workbook. |
| MemberValidation.ExcelAccepted | src/main/java/com/mpfc/securebankingsystem/service/FileService.java:143-177 | A workbook is accepted iff it decodes, has a first sheet with a header row of six cells whose trimmed display texts are the expected names, and its present data rows are acceptable. |
| MemberValidation.HeaderOnlySheetAccepted | src/main/java/com/mpfc/securebankingsystem/service/FileService.java:161-177 | A workbook whose only row is a correct header is accepted. |
| Lockout.LockActive | src/main/java/com/mpfc/securebankingsystem/security/LockoutService.java:45-50 | Definition (the body): a lock is recorded and `now` is not after its expiry, so the expiry instant itself is still locked. |
| Lockout.AfterFailure | src/main/java/com/mpfc/securebankingsystem/security/LockoutService.java:23-33 | A failure during a standing lock changes nothing. Otherwise the count goes up by one, and the fifth failure locks until now plus two minutes and resets the count. The entry invariant (count below five, and zero while locked) is preserved. |
| Lockout.FailureReportsLocked | src/main/java/com/mpfc/securebankingsystem/security/LockoutService.java:25-32 | `recordFailure` returns true exactly when the entry it leaves is locked at that instant. |
| Lockout.Expire | src/main/java/com/mpfc/securebankingsystem/security/LockoutService.java:43-51 | The side effect of `isLocked` keeps the count, keeps whether the lock is active, and keeps a recorded lock iff it is still active, with its expiry unchanged. |
| Lockout.ReplayAppend | src/main/java/com/mpfc/securebankingsystem/security/LockoutService.java:23-33 | Replaying two runs of failures one after the other equals replaying their concatenation, for both the final entry and the reports. |
| Lockout.FailuresBelowThreshold | src/main/java/com/mpfc/securebankingsystem/security/LockoutService.java:26-32 | While the total stays below five, each failure adds one to the count, and none reports a lock. |
| Lockout.FifthFailureLocks | src/main/java/com/mpfc/securebankingsystem/security/LockoutService.java:13-14 | Starting from a fresh entry, five failures report `false` four times and then `true`, leaving the name locked until the fifth failure's instant plus 120000 ms with the count reset. |
| Lockout.ExpiredLockRestartsCount | src/main/java/com/mpfc/securebankingsystem/security/LockoutService.java:43-51 | Once its lock has expired, an entry's next failure counts as the first, without reporting a lock. |
| Lockout.LockoutCycle | src/main/java/com/mpfc/securebankingsystem/security/LockoutService.java:23-51 | After five failures, a failure at or before the expiry reports a lock and changes nothing. After the expiry the lock is inactive, and the next failure counts one. |
| Lockout.LockedUntilMayBePast | src/main/java/com/mpfc/securebankingsystem/security/LockoutService.java:53-56 | For a table whose entry for the lower-cased name records the expiry `u`, `lockedUntil` at any later instant still returns `u`, although that entry no longer locks. |
| Lockout.LockoutService.IsLocked | src/main/java/com/mpfc/securebankingsystem/security/LockoutService.java:43-51 | Returns whether the lower-cased name has an active lock. An expired lock is removed, and nothing else in the table changes. |
| Lockout.LockoutService.RecordFailure | src/main/java/com/mpfc/securebankingsystem/security/LockoutService.java:23-33 | The entry for the lower-cased name (created if absent) becomes `AfterFailure`, the result is `FailureReportsLocked`, the table keeps its invariant, and no other name changes. |
| Lockout.LockoutService.Reset | src/main/java/com/mpfc/securebankingsystem/security/LockoutService.java:35-41 | A known name gets a zero count and no lock. An unknown name creates no entry. |
| Lockout.LockoutService.LockedUntil | src/main/java/com/mpfc/securebankingsystem/security/LockoutService.java:53-56 | For a known lower-cased name the result is exactly its recorded expiry (or none when no lock is recorded). For an unknown name it is none. |
| Lockout.CaseVariantsShareEntry | src/main/java/com/mpfc/securebankingsystem/security/LockoutService.java:24 | Names that differ only in letter case address the same entry and report the same expiry. |
| Upload.IsCsv | src/main/java/com/mpfc/securebankingsystem/service/FileService.java:81-85 | Definition (the body): content type `text/csv` (empty when missing) or a lower-cased name ending in `.csv` (empty when missing). |
| Upload.IsXlsx | src/main/java/com/mpfc/securebankingsystem/service/FileService.java:86-90 | Definition (the body): the XLSX content type or a lower-cased name ending in `.xlsx`. |
| Upload.IsXls | src/main/java/com/mpfc/securebankingsystem/service/FileService.java:91-95 | Definition (the body): `application/vnd.ms-excel` or a lower-cased name ending in `.xls`. |
| Upload.CheckFor | src/main/java/com/mpfc/securebankingsystem/service/FileService.java:45-49 | Definition (the body): the CSV validator if `IsCsv`; otherwise the workbook validator, with the XLSX flag, if `IsXlsx` or `IsXls`; otherwise none. `SkipsValidationIff` and `CsvNameWinsOverSpreadsheetType` state its consequences. |
| Upload.Admission | src/main/java/com/mpfc/securebankingsystem/service/FileService.java:32-49 | Rejected as empty iff there are no bytes. Rejected as unsupported iff the bytes are non-empty and the content type (octet-stream when missing) is none of the four allowed. A missing content type always passes the gate. An admitted file gets the validator `CheckFor` chooses. |
| Upload.SkipsValidationIff | src/main/java/com/mpfc/securebankingsystem/service/FileService.java:44-49 | An admitted file skips content validation iff its content type is octet-stream (or missing) and its lower-cased name ends in none of `.csv`, `.xlsx`, `.xls`. |
| Upload.CsvNameWinsOverSpreadsheetType | src/main/java/com/mpfc/securebankingsystem/service/FileService.java:45-49 | A non-empty file named `*.csv` gets the CSV validator even when its content type is the XLSX type. |
| Upload.Hex | src/main/java/com/mpfc/securebankingsystem/service/FileService.java:232 | The checksum string has two lower-case hex digits per byte. |
| Upload.FromHexHex | src/main/java/com/mpfc/securebankingsystem/service/FileService.java:231-233 | Reading the hex string back gives the digest bytes. |
| Upload.HexInjective | src/main/java/com/mpfc/securebankingsystem/service/FileService.java:228-234 | Different digests give different checksum strings. |
| Upload.Sha256Hex | src/main/java/com/mpfc/securebankingsystem/service/FileService.java:228-234 | The byte-by-byte `%02x` loop over the digest returns `Hex` of the digest. |
| Upload.FileRepository.HasChecksum | src/main/java/com/mpfc/securebankingsystem/service/FileService.java:52 | Definition (the body): `findByChecksumSha256(..).isPresent()`, true iff some stored record carries the checksum. |
| Upload.FileRepository.Save | src/main/java/com/mpfc/securebankingsystem/service/FileService.java:69 | Saving adds exactly the given record, under the next generated id, which was not in use. |
| Upload.Process | src/main/java/com/mpfc/securebankingsystem/service/FileService.java:31-72 | Definition (the body) of one upload on given records: the gate, the validator's verdict, then `Store`. The lemmas below state its properties. |
| Upload.Store | src/main/java/com/mpfc/securebankingsystem/service/FileService.java:51-69 | Definition (the body): a stored checksum rejects as a duplicate after checksum and lookup; otherwise the record is saved under the next id after encryption. |
| Upload.UploadFollowsPipeline | src/main/java/com/mpfc/securebankingsystem/service/FileService.java:31-72 | The steps an upload takes are a prefix of: empty check, type check, the chosen validator (if any), checksum, duplicate lookup, encryption, save. It takes all of them iff it succeeds. |
| Upload.RejectionKeepsStore | src/main/java/com/mpfc/securebankingsystem/service/FileService.java:31-54 | A rejected upload leaves the stored records unchanged. |
| Upload.DuplicateBeforeEncrypt | src/main/java/com/mpfc/securebankingsystem/service/FileService.java:51-56 | A duplicate is rejected before anything is encrypted. |
| Upload.GateRejections | src/main/java/com/mpfc/securebankingsystem/service/FileService.java:32-40 | The upload fails as empty iff the file has no bytes. It fails as unsupported iff the file is non-empty with a disallowed content type. |
| Upload.ContentRejections | src/main/java/com/mpfc/securebankingsystem/service/FileService.java:44-54 | An upload fails with the validator's own error iff the file is admitted and the validator fails. It fails as a duplicate iff the file is admitted, the validator passes, and a stored record already has the file's checksum. |
| Upload.UploadSuccess | src/main/java/com/mpfc/securebankingsystem/service/FileService.java:56-69 | Success adds exactly one record, under a fresh id, holding the original name, the effective content type, the size, the uploader, the time, `AES/GCM/NoPadding`, the IV and ciphertext, and the checksum, which no stored record had. Distinct checksums stay distinct. |
| Upload.RenamedCopySameVerdict | src/main/java/com/mpfc/securebankingsystem/service/FileService.java:45-49 | A copy of a file under another name that gets the same validator gets the same verdict, since the validators read only the bytes. |
| Upload.ReuploadIsDuplicate | src/main/java/com/mpfc/securebankingsystem/service/FileService.java:51-54 | After a stored upload, the same bytes under another name that gets the same validator, by the same or any other uploader, are rejected as a duplicate. |
| Upload.UploadAndEncrypt | src/main/java/com/mpfc/securebankingsystem/service/FileService.java:31-72 | The result, the new records and the steps taken (a ghost trace) are those of `Process` on the old records, given the chosen validator's verdict. The repository's id invariant is kept. |
| Upload.StoreChecked | src/main/java/com/mpfc/securebankingsystem/service/FileService.java:51-69 | Checksum, duplicate lookup, encryption and save give exactly what `Store` defines on the old records. |
| Upload.ContentVerdict | src/main/java/com/mpfc/securebankingsystem/service/FileService.java:45-49 | Definition (the body): the CSV verdict of the decoded text, the workbook verdict of the decoded workbook with the XLSX flag, or a pass when no validator is chosen. |
| Upload.ValidateContent | src/main/java/com/mpfc/securebankingsystem/service/FileService.java:45-49 | The CSV validator runs on the decoded text, the workbook validator on the decoded workbook with the XLSX flag, and nothing runs otherwise, as `ContentVerdict` defines. |

## Left out

- `decryptForAdmin` and `EncryptionService.decrypt`: the admin read path only inverts the encryption, and the cipher is not modelled.
- AES-GCM, SHA-256, UTF-8 decoding, and the spreadsheet library's decoding and `DataFormatter` are parameters. The model states what the code does with their results, not how they compute them.
- Upload.Sha256Hex: the digest itself is an input function. Only its hex rendering is proved, and a digest of exactly 32 bytes is taken from the type.
- A decoder exception that is itself an `IllegalArgumentException` is rethrown with its own message, not as "invalid format". The model maps every decoding failure to the invalid-format error.
- The audit log entry after a save, and the Spring wiring, controllers and repository queries other than the checksum lookup and save.
- Concurrency. The lockout table is a `ConcurrentHashMap`, and the model treats each call as atomic.
- Concurrent uploads. The duplicate lookup (FileService.java:52) and the save (FileService.java:69) are separate repository calls with no lock, and `checksumSha256` has no unique constraint (FileEncrypted.java:29). Two identical uploads at the same time can therefore both be stored. The model runs each upload as one atomic step, so `UploadSuccess`'s "distinct checksums stay distinct" holds only for uploads that run one after the other.
- `recordFailure` and its inner `isLocked` each read the clock. The model uses one `now` for both.
- Text.Lower: ASCII letters only. Java's `toLowerCase` is locale-dependent and covers all of Unicode.
- FieldRules.ParsesAsDouble: hexadecimal floating-point literals (`0x1p3`) are rejected, though `parseDouble` accepts them. Decimal literals, signs, exponents, the `f`/`F`/`d`/`D` suffixes, `NaN` and `Infinity` are modelled.
- FieldRules.IsNegativeDouble: a negative literal that underflows to `-0.0` (such as `-1e-400`) counts as negative, though `bal < 0` is false for it in Java.
- FieldRules.IsIsoDate: unsigned four-digit years only. Java's `ISO_LOCAL_DATE` also accepts a signed year, such as `-0001-01-01` or `+10000-01-01`.
- Upload time is an opaque integer taken from the caller.
- The only repository effects modelled are the checksum lookup and the save, which is given the next generated id.

