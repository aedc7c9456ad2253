/**
 * The upload path of `FileService.uploadAndEncrypt`: the empty-file and
 * content-type gate, the choice of content validator, the SHA-256 checksum in
 * lower-case hex, the duplicate check, encryption and the save. SHA-256,
 * AES-GCM encryption, UTF-8 decoding and workbook decoding are supplied by the
 * caller as functions; the repository is a map from record id to record.
 */
module Upload {
  import opened Wrappers
  import opened Text
  import opened FieldRules
  import opened MemberValidation

  newtype byte = x: int | 0 <= x < 256

  type Bytes = seq<byte>

  /** A SHA-256 digest: 32 bytes. */
  type Digest = d: Bytes | |d| == 32
    witness [0, 0, 0, 0, 0, 0, 0, 0, 0, 0, 0, 0, 0, 0, 0, 0, 0, 0, 0, 0, 0, 0, 0, 0, 0, 0, 0, 0, 0, 0, 0, 0]

  /** A GCM initialisation vector as the encryption service draws it: 12 bytes. */
  type Iv = v: Bytes | |v| == 12
    witness [0, 0, 0, 0, 0, 0, 0, 0, 0, 0, 0, 0]

  /** `EncryptionService.CryptoResult`. */
  datatype CryptoResult = CryptoResult(iv: Iv, cipher: Bytes)

  const TextCsv: string := "text/csv"
  const MsExcel: string := "application/vnd.ms-excel"
  const SpreadsheetXml: string := "application/vnd.openxmlformats-officedocument.spreadsheetml.sheet"
  const OctetStream: string := "application/octet-stream"
  const Algorithm: string := "AES/GCM/NoPadding"

  /** The uploaded multipart file: its bytes, and content type and original name, either of which may be null. */
  datatype UploadFile = UploadFile(bytes: Bytes, contentType: Option<string>, originalFilename: Option<string>)

  /** The content type the gate judges and the record stores: a missing one counts as octet-stream. */
  function DeclaredType(f: UploadFile): string {
    f.contentType.GetOr(OctetStream)
  }

  predicate IsSupportedType(ct: string) {
    ct == TextCsv || ct == MsExcel || ct == SpreadsheetXml || ct == OctetStream
  }

  /** The content type as the classification predicates read it: a missing one reads as "". */
  function TestedType(f: UploadFile): string {
    f.contentType.GetOr("")
  }

  /** The lower-cased original name ("" when missing). */
  function LowerName(f: UploadFile): string {
    Lower(f.originalFilename.GetOr(""))
  }

  predicate IsCsv(f: UploadFile) {
    TestedType(f) == TextCsv || EndsWith(LowerName(f), ".csv")
  }

  predicate IsXlsx(f: UploadFile) {
    TestedType(f) == SpreadsheetXml || EndsWith(LowerName(f), ".xlsx")
  }

  predicate IsXls(f: UploadFile) {
    TestedType(f) == MsExcel || EndsWith(LowerName(f), ".xls")
  }

  /** Which content validator an upload gets. */
  datatype ContentCheck = CsvCheck | SpreadsheetCheck(xlsx: bool) | NoCheck

  /** The CSV test first, then the spreadsheet tests with the zip-based format preferred. */
  function CheckFor(f: UploadFile): ContentCheck {
    if IsCsv(f) then CsvCheck
    else if IsXlsx(f) || IsXls(f) then SpreadsheetCheck(IsXlsx(f))
    else NoCheck
  }

  datatype UploadError = EmptyFile | UnsupportedType | Invalid(error: ValidationError) | DuplicateChecksum

  /** The gate before any content is read, and the check the admitted file gets. */
  function Admission(f: UploadFile): (r: Result<ContentCheck, UploadError>)
    ensures r == Err(EmptyFile) <==> |f.bytes| == 0
    ensures r == Err(UnsupportedType) <==> |f.bytes| > 0 && !IsSupportedType(DeclaredType(f))
    ensures r.Ok? ==> r.value == CheckFor(f)
    ensures |f.bytes| > 0 && f.contentType.None? ==> r.Ok?
  {
    if |f.bytes| == 0 then Err(EmptyFile)
    else if !IsSupportedType(DeclaredType(f)) then Err(UnsupportedType)
    else Ok(CheckFor(f))
  }

  /**
   * An admitted file skips content validation exactly when its content type is
   * octet-stream (or missing) and its name has none of the three extensions.
   */
  lemma SkipsValidationIff(f: UploadFile)
    requires Admission(f).Ok?
    ensures CheckFor(f) == NoCheck <==>
              && DeclaredType(f) == OctetStream
              && !EndsWith(LowerName(f), ".csv")
              && !EndsWith(LowerName(f), ".xlsx")
              && !EndsWith(LowerName(f), ".xls")
  {
    assert TextCsv != OctetStream && MsExcel != OctetStream && SpreadsheetXml != OctetStream;
    assert "" != OctetStream && "" != TextCsv && "" != MsExcel && "" != SpreadsheetXml;
  }

  /** A `.csv` name gets CSV validation even when the content type announces a spreadsheet. */
  lemma CsvNameWinsOverSpreadsheetType(f: UploadFile)
    requires |f.bytes| > 0 && f.contentType == Some(SpreadsheetXml) && EndsWith(LowerName(f), ".csv")
    ensures Admission(f) == Ok(CsvCheck)
  {
    assert DeclaredType(f) == SpreadsheetXml && IsSupportedType(SpreadsheetXml);
    assert IsCsv(f);
  }

  /** The validator verdict an admitted file gets. */
  function ContentVerdict(f: UploadFile, check: ContentCheck, decodeUtf8: Bytes -> string,
                          readWorkbook: (Bytes, bool) -> Option<Workbook>): Outcome<ValidationError> {
    match check
    case CsvCheck => CsvVerdict(decodeUtf8(f.bytes))
    case SpreadsheetCheck(xlsx) => ExcelVerdict(readWorkbook(f.bytes, xlsx))
    case NoCheck => Pass
  }

  // ---------------------------------------------------------------- hex

  predicate IsLowerHex(c: char) {
    '0' <= c <= '9' || 'a' <= c <= 'f'
  }

  function HexDigit(n: nat): (c: char)
    requires n < 16
    ensures IsLowerHex(c)
  {
    if n < 10 then ('0' as int + n) as char else ('a' as int + n - 10) as char
  }

  function HexValue(c: char): (n: nat)
    requires IsLowerHex(c)
    ensures n < 16
  {
    if c <= '9' then c as int - '0' as int else c as int - 'a' as int + 10
  }

  /** `String.format("%02x", b)`: two lower-case hex digits of the unsigned byte. */
  function ByteHex(b: byte): string {
    [HexDigit(b as int / 16), HexDigit(b as int % 16)]
  }

  /** The hex string of a digest: two lower-case hex characters per byte. */
  function Hex(d: Bytes): (s: string)
    ensures |s| == 2 * |d|
    ensures forall i :: 0 <= i < |s| ==> IsLowerHex(s[i])
  {
    if d == [] then "" else ByteHex(d[0]) + Hex(d[1..])
  }

  /** Reads a string of lower-case hex pairs back into bytes. */
  function FromHex(s: string): Bytes
    requires |s| % 2 == 0 && forall i :: 0 <= i < |s| ==> IsLowerHex(s[i])
    decreases |s|
  {
    if s == [] then [] else [(16 * HexValue(s[0]) + HexValue(s[1])) as byte] + FromHex(s[2..])
  }

  lemma {:induction false} HexAppend(a: Bytes, b: Bytes)
    ensures Hex(a + b) == Hex(a) + Hex(b)
    decreases |a|
  {
    if a == [] {
      assert a + b == b;
    } else {
      assert (a + b)[0] == a[0] && (a + b)[1..] == a[1..] + b;
      HexAppend(a[1..], b);
    }
  }

  /** Hex decoding undoes hex encoding, so distinct digests get distinct checksum strings. */
  lemma {:induction false} FromHexHex(d: Bytes)
    ensures FromHex(Hex(d)) == d
    decreases |d|
  {
    if d != [] {
      var s := Hex(d);
      var b := d[0] as int;
      assert s[0] == HexDigit(b / 16) && s[1] == HexDigit(b % 16);
      assert HexValue(HexDigit(b / 16)) == b / 16;
      assert HexValue(HexDigit(b % 16)) == b % 16;
      assert s[2..] == Hex(d[1..]);
      FromHexHex(d[1..]);
      assert [d[0]] + d[1..] == d;
    }
  }

  lemma HexInjective(a: Bytes, b: Bytes)
    ensures Hex(a) == Hex(b) ==> a == b
  {
    FromHexHex(a);
    FromHexHex(b);
  }

  /** `sha256Hex`: the digest of the data, then the byte-by-byte hex loop. */
  method Sha256Hex(data: Bytes, sha256: Bytes -> Digest) returns (s: string)
    ensures s == Hex(sha256(data))
  {
    var d := sha256(data);
    s := "";
    for i := 0 to |d|
      invariant s == Hex(d[..i])
    {
      HexAppend(d[..i], [d[i]]);
      assert d[..i + 1] == d[..i] + [d[i]];
      s := s + ByteHex(d[i]);
    }
    assert d[..|d|] == d;
  }

  // --------------------------------------------------------- repository

  /** `FileEncrypted` without its generated id. */
  datatype FileRecord = FileRecord(
    fileName: Option<string>, contentType: string, sizeBytes: nat, uploader: string, uploadedAt: int,
    encryptionAlgo: string, iv: Bytes, cipherData: Bytes, checksumSha256: string)

  /** Some record in the store carries checksum `c`. */
  predicate Stored(records: map<nat, FileRecord>, c: string) {
    exists id :: id in records && records[id].checksumSha256 == c
  }

  /** No two stored records carry the same checksum. */
  ghost predicate DistinctChecksums(records: map<nat, FileRecord>) {
    forall a, b :: a in records && b in records && a != b ==>
      records[a].checksumSha256 != records[b].checksumSha256
  }

  /** Every stored id lies below the next id to be generated. */
  ghost predicate IdsBelow(records: map<nat, FileRecord>, nextId: nat) {
    forall id :: id in records ==> id < nextId
  }

  /** The encrypted-file repository: records by generated id. */
  class FileRepository {
    var records: map<nat, FileRecord>
    var nextId: nat

    ghost predicate Valid()
      reads this
    {
      IdsBelow(records, nextId)
    }

    constructor ()
      ensures Valid() && records == map[]
    {
      records := map[];
      nextId := 0;
    }

    /** `findByChecksumSha256(c).isPresent()`. */
    predicate HasChecksum(c: string)
      reads this
    {
      Stored(records, c)
    }

    /** `save` of a new entity: the next generated id, and exactly that record added. */
    method Save(rec: FileRecord) returns (id: nat)
      requires Valid()
      modifies this
      ensures Valid()
      ensures id == old(nextId) && id !in old(records) && records == old(records)[id := rec]
      ensures nextId == old(nextId) + 1
    {
      id := nextId;
      records := records[id := rec];
      nextId := nextId + 1;
    }
  }

  // ------------------------------------------------------------- upload

  /** The steps of an upload, in the order the source performs them. */
  datatype Step = CheckEmpty | CheckType | Validate(check: ContentCheck)
                | ComputeChecksum | FindDuplicate | Encrypt | SaveRecord

  /** The steps before the checksum: the two gate checks, then the validator if there is one. */
  function Gate(check: ContentCheck): seq<Step> {
    [CheckEmpty, CheckType] + (if check == NoCheck then [] else [Validate(check)])
  }

  const Tail: seq<Step> := [ComputeChecksum, FindDuplicate, Encrypt, SaveRecord]

  /** The full step sequence of a successful upload. */
  function Pipeline(check: ContentCheck): (p: seq<Step>)
    ensures |p| >= 6 && p[..2] == [CheckEmpty, CheckType]
    ensures p[|p| - 4..] == [ComputeChecksum, FindDuplicate, Encrypt, SaveRecord]
  {
    Gate(check) + Tail
  }

  /** What one upload returns, the store it leaves and the steps it took. */
  datatype UploadRun = UploadRun(result: Result<nat, UploadError>, records: map<nat, FileRecord>, trace: seq<Step>)

  /** The record a successful upload stores. */
  function NewRecord(username: string, file: UploadFile, now: int, checksum: string, enc: CryptoResult): FileRecord {
    FileRecord(file.originalFilename, DeclaredType(file), |file.bytes|, username, now,
               Algorithm, enc.iv, enc.cipher, checksum)
  }

  /**
   * One upload against store `records` whose next generated id is `nextId`,
   * where `verdict` is what the chosen validator says of the file (it is
   * consulted only when the file passes the gate; `UploadAndEncrypt` supplies
   * `ContentVerdict`).
   */
  function Process(records: map<nat, FileRecord>, nextId: nat, username: string, file: UploadFile, now: int,
                         verdict: Outcome<ValidationError>, sha256: Bytes -> Digest, encrypt: Bytes -> CryptoResult): UploadRun
  {
    match Admission(file)
    case Err(e) =>
      UploadRun(Err(e), records, if e == EmptyFile then [CheckEmpty] else [CheckEmpty, CheckType])
    case Ok(check) =>
      match verdict
      case Fail(e) => UploadRun(Err(Invalid(e)), records, Gate(check))
      case Pass =>
        var stored := Store(records, nextId, username, file, now, sha256, encrypt);
        UploadRun(stored.result, stored.records, Gate(check) + stored.trace)
  }

  /** The steps after validation: checksum, duplicate lookup, then encryption and save. */
  function Store(records: map<nat, FileRecord>, nextId: nat, username: string, file: UploadFile, now: int,
                 sha256: Bytes -> Digest, encrypt: Bytes -> CryptoResult): UploadRun
  {
    var checksum := Hex(sha256(file.bytes));
    if Stored(records, checksum) then
      UploadRun(Err(DuplicateChecksum), records, [ComputeChecksum, FindDuplicate])
    else
      UploadRun(Ok(nextId), records[nextId := NewRecord(username, file, now, checksum, encrypt(file.bytes))], Tail)
  }

  /** Every upload takes a prefix of its file's pipeline, in order, and all of it exactly when it succeeds. */
  lemma UploadFollowsPipeline(records: map<nat, FileRecord>, nextId: nat, username: string, file: UploadFile, now: int,
                         verdict: Outcome<ValidationError>, sha256: Bytes -> Digest, encrypt: Bytes -> CryptoResult)
    ensures var run := Process(records, nextId, username, file, now, verdict, sha256, encrypt);
            && run.trace <= Pipeline(CheckFor(file))
            && (run.result.Ok? <==> run.trace == Pipeline(CheckFor(file)))
  {
  }

  /** A rejected upload leaves the store as it was. */
  lemma RejectionKeepsStore(records: map<nat, FileRecord>, nextId: nat, username: string, file: UploadFile, now: int,
                         verdict: Outcome<ValidationError>, sha256: Bytes -> Digest, encrypt: Bytes -> CryptoResult)
    ensures var run := Process(records, nextId, username, file, now, verdict, sha256, encrypt);
            run.result.Err? ==> run.records == records
  {
  }

  /** A duplicate is found before anything is encrypted. */
  lemma DuplicateBeforeEncrypt(records: map<nat, FileRecord>, nextId: nat, username: string, file: UploadFile, now: int,
                         verdict: Outcome<ValidationError>, sha256: Bytes -> Digest, encrypt: Bytes -> CryptoResult)
    ensures var run := Process(records, nextId, username, file, now, verdict, sha256, encrypt);
            run.result == Err(DuplicateChecksum) ==> Encrypt !in run.trace
  {
    var run := Process(records, nextId, username, file, now, verdict, sha256, encrypt);
    if run.result == Err(DuplicateChecksum) {
      var check := CheckFor(file);
      assert Store(records, nextId, username, file, now, sha256, encrypt).trace == [ComputeChecksum, FindDuplicate];
      if check == NoCheck {
        assert run.trace == [CheckEmpty, CheckType, ComputeChecksum, FindDuplicate];
      } else {
        assert run.trace == [CheckEmpty, CheckType, Validate(check), ComputeChecksum, FindDuplicate];
      }
    }
  }

  /** The gate rejects exactly the empty files and the content types outside the four allowed. */
  lemma GateRejections(records: map<nat, FileRecord>, nextId: nat, username: string, file: UploadFile, now: int,
                         verdict: Outcome<ValidationError>, sha256: Bytes -> Digest, encrypt: Bytes -> CryptoResult)
    ensures var run := Process(records, nextId, username, file, now, verdict, sha256, encrypt);
            && (run.result == Err(EmptyFile) <==> |file.bytes| == 0)
            && (run.result == Err(UnsupportedType) <==> |file.bytes| > 0 && !IsSupportedType(DeclaredType(file)))
  {
  }

  /**
   * An admitted file is rejected with the validator's error exactly when its
   * validator fails, and as a duplicate exactly when it passes and a stored
   * record already carries the checksum of its bytes.
   */
  lemma ContentRejections(records: map<nat, FileRecord>, nextId: nat, username: string, file: UploadFile, now: int,
                         verdict: Outcome<ValidationError>, sha256: Bytes -> Digest, encrypt: Bytes -> CryptoResult)
    ensures var run := Process(records, nextId, username, file, now, verdict, sha256, encrypt);
            && (run.result.Err? && run.result.error.Invalid? <==> Admission(file).Ok? && verdict.Fail?)
            && (run.result.Err? && run.result.error.Invalid? ==> run.result.error.error == verdict.error)
            && (run.result == Err(DuplicateChecksum) <==>
                  Admission(file).Ok? && verdict.Pass? && Stored(records, Hex(sha256(file.bytes))))
  {
  }

  /**
   * A successful upload adds exactly one record, under a fresh id, holding
   * the uploader, the time, the algorithm name, the encryption output and the
   * checksum of the bytes; and the store keeps its checksums distinct.
   */
  lemma UploadSuccess(records: map<nat, FileRecord>, nextId: nat, username: string, file: UploadFile, now: int,
                         verdict: Outcome<ValidationError>, sha256: Bytes -> Digest, encrypt: Bytes -> CryptoResult)
    requires IdsBelow(records, nextId)
    ensures var run := Process(records, nextId, username, file, now, verdict, sha256, encrypt);
            run.result.Ok? ==>
              && run.result.value !in records
              && run.records == records[run.result.value := run.records[run.result.value]]
              && var rec := run.records[run.result.value];
                 && rec.uploader == username && rec.uploadedAt == now && rec.encryptionAlgo == Algorithm
                 && rec.iv == encrypt(file.bytes).iv && rec.cipherData == encrypt(file.bytes).cipher
                 && rec.checksumSha256 == Hex(sha256(file.bytes)) && rec.sizeBytes == |file.bytes|
                 && rec.contentType == DeclaredType(file) && rec.fileName == file.originalFilename
                 && !Stored(records, rec.checksumSha256)
    ensures var run := Process(records, nextId, username, file, now, verdict, sha256, encrypt);
            DistinctChecksums(records) ==> DistinctChecksums(run.records)
  {
  }

  /** The validators read only the bytes and the chosen check, so a renamed copy gets the same verdict. */
  lemma RenamedCopySameVerdict(file: UploadFile, otherName: Option<string>,
                               decodeUtf8: Bytes -> string, readWorkbook: (Bytes, bool) -> Option<Workbook>)
    requires CheckFor(file.(originalFilename := otherName)) == CheckFor(file)
    ensures var again := file.(originalFilename := otherName);
            ContentVerdict(again, CheckFor(again), decodeUtf8, readWorkbook)
            == ContentVerdict(file, CheckFor(file), decodeUtf8, readWorkbook)
  {
  }

  /**
   * Uploading the same bytes again, by any uploader and under another name that
   * gets the same validator, is rejected as a duplicate once the first upload
   * was stored: the validator gives the renamed copy the same verdict, and the
   * duplicate lookup ignores the uploader.
   */
  lemma ReuploadIsDuplicate(records: map<nat, FileRecord>, nextId: nat, u1: string, u2: string,
                            file: UploadFile, otherName: Option<string>, now: int, later: int,
                            decodeUtf8: Bytes -> string, readWorkbook: (Bytes, bool) -> Option<Workbook>,
                            sha256: Bytes -> Digest, encrypt: Bytes -> CryptoResult)
    requires CheckFor(file.(originalFilename := otherName)) == CheckFor(file)
    ensures var again := file.(originalFilename := otherName);
            var first := Process(records, nextId, u1, file, now,
                                 ContentVerdict(file, CheckFor(file), decodeUtf8, readWorkbook), sha256, encrypt);
            var second := Process(first.records, nextId + 1, u2, again, later,
                                  ContentVerdict(again, CheckFor(again), decodeUtf8, readWorkbook), sha256, encrypt);
            first.result.Ok? ==> second.result == Err(DuplicateChecksum)
  {
    var again := file.(originalFilename := otherName);
    var verdict := ContentVerdict(file, CheckFor(file), decodeUtf8, readWorkbook);
    RenamedCopySameVerdict(file, otherName, decodeUtf8, readWorkbook);
    var first := Process(records, nextId, u1, file, now, verdict, sha256, encrypt);
    if first.result.Ok? {
      assert first.records[nextId].checksumSha256 == Hex(sha256(again.bytes));
      assert Stored(first.records, Hex(sha256(again.bytes)));
    }
  }

  /**
   * `uploadAndEncrypt`: the gate, the validator, then checksum, duplicate
   * lookup, encryption and save; the result, the new store and the steps
   * taken are those of `Process` on the old store with the validator's verdict.
   */
  method UploadAndEncrypt(repo: FileRepository, username: string, file: UploadFile, now: int,
                          decodeUtf8: Bytes -> string, readWorkbook: (Bytes, bool) -> Option<Workbook>,
                          sha256: Bytes -> Digest, encrypt: Bytes -> CryptoResult)
    returns (result: Result<nat, UploadError>, ghost trace: seq<Step>)
    requires repo.Valid()
    modifies repo
    ensures repo.Valid()
    ensures UploadRun(result, repo.records, trace)
            == Process(old(repo.records), old(repo.nextId), username, file, now,
                       ContentVerdict(file, CheckFor(file), decodeUtf8, readWorkbook), sha256, encrypt)
  {
    trace := [CheckEmpty];
    if |file.bytes| == 0 {
      return Err(EmptyFile), trace;
    }
    var contentType := file.contentType.GetOr(OctetStream);
    trace := trace + [CheckType];
    if !IsSupportedType(contentType) {
      return Err(UnsupportedType), trace;
    }
    var check := CheckFor(file);
    assert Admission(file) == Ok(check);
    if check != NoCheck {
      trace := trace + [Validate(check)];
      var o := ValidateContent(file, check, decodeUtf8, readWorkbook);
      if o.Fail? {
        assert trace == Gate(check);
        return Err(Invalid(o.error)), trace;
      }
    }
    assert trace == Gate(check);
    ghost var steps;
    result, steps := StoreChecked(repo, username, file, now, sha256, encrypt);
    trace := trace + steps;
  }

  /** The part of `uploadAndEncrypt` after validation: checksum, duplicate lookup, encryption and save. */
  method StoreChecked(repo: FileRepository, username: string, file: UploadFile, now: int,
                      sha256: Bytes -> Digest, encrypt: Bytes -> CryptoResult)
    returns (result: Result<nat, UploadError>, ghost steps: seq<Step>)
    requires repo.Valid()
    modifies repo
    ensures repo.Valid()
    ensures UploadRun(result, repo.records, steps) == Store(old(repo.records), old(repo.nextId), username, file, now, sha256, encrypt)
  {
    var bytes := file.bytes;
    steps := [ComputeChecksum];
    var checksum := Sha256Hex(bytes, sha256);
    steps := steps + [FindDuplicate];
    if repo.HasChecksum(checksum) {
      return Err(DuplicateChecksum), steps;
    }
    steps := steps + [Encrypt];
    var enc := encrypt(bytes);
    var rec := FileRecord(file.originalFilename, file.contentType.GetOr(OctetStream), |bytes|, username, now,
                          Algorithm, enc.iv, enc.cipher, checksum);
    steps := steps + [SaveRecord];
    var id := repo.Save(rec);
    return Ok(id), steps;
  }

  /** The validator chosen by `CheckFor`, run on the file's bytes. */
  method ValidateContent(file: UploadFile, check: ContentCheck, decodeUtf8: Bytes -> string,
                         readWorkbook: (Bytes, bool) -> Option<Workbook>) returns (o: Outcome<ValidationError>)
    ensures o == ContentVerdict(file, check, decodeUtf8, readWorkbook)
  {
    match check
    case CsvCheck =>
      o := ValidateMemberCsv(decodeUtf8(file.bytes));
    case SpreadsheetCheck(xlsx) =>
      o := ValidateMemberExcel(readWorkbook(file.bytes, xlsx));
    case NoCheck =>
      o := Pass;
  }
}
