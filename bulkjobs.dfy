/** The bulk-upload pipeline: usecase/bulkfilejobsusecase.go. An upload is stored in the
    object store, recorded as a job row and published to the processing queue; a worker
    then checks the file's container signature, reads its rows, persists the valid ones,
    writes a per-row report and leaves the job in a terminal status. */
module BulkJobUsecase {
  import opened Common
  import opened Text
  import opened BulkFileJobsRepo
  import opened StudentRepo
  import opened VaccinationRecordRepo
  import opened InventoryRepo
  import opened StudentUsecase

  const InvalidFileMessage: string := "Inavlid File, Only .xlsx or .xls allowed"
  const InternalErrorMessage: string := "Internal Server Error"
  const MissingColumnsMessage: string := "Missing Columns"
  const ReportNotGeneratedMessage: string := "Report File Not Genrated"
  const InvalidInputMessage: string := "invalid input"

  /** The message for a row whose id column is not a number; `i` is the row's index in
      the sheet, so the message counts rows from 1. */
  function InvalidEntryAt(i: nat): string
  {
    "invalid entry at row " + IntToString(i + 1)
  }

  // ---------------------------------------------------------------------------------
  // Container signature

  /** The local file header signature that starts a ZIP archive (PKWARE APPNOTE.TXT,
      section 4.3.7), the package format of .xlsx files (ECMA-376 Part 2). */
  const ZipSignature: seq<byte> := [0x50, 0x4B, 0x03, 0x04]

  /** The Compound File header signature of .xls files ([MS-CFB] section 2.2). */
  const CfbSignature: seq<byte> := [0xD0, 0xCF, 0x11, 0xE0, 0xA1, 0xB1, 0x1A, 0xE1]

  /** The bytes of a stored object. A workbook the report writer saved is a ZIP package;
      of its bytes only the leading signature is represented. */
  function Content(b: Blob): seq<byte>
  {
    match b
    case Bytes(data) => data
    case Workbook(_) => ZipSignature
  }

  /** file.Read into a zeroed 8-byte buffer: an empty file gives io.EOF; a shorter file
      fills only the front of the buffer. */
  function ReadHeader(content: seq<byte>): (r: Option<seq<byte>>)
    ensures r.None? <==> content == []
    ensures r.Some? ==> |r.value| == 8
  {
    if content == [] then None
    else if |content| >= 8 then Some(content[..8])
    else Some(content + seq(8 - |content|, _ => 0 as byte))
  }

  predicate HasPrefix(s: seq<byte>, p: seq<byte>)
  {
    |p| <= |s| && s[..|p|] == p
  }

  /** bytes.HasPrefix(header, ZIP) || bytes.Equal(header, CFB). */
  predicate Signed(header: seq<byte>)
  {
    HasPrefix(header, ZipSignature) || header == CfbSignature
  }

  /** A file passes the check exactly when it starts with the ZIP signature (a file of
      4 to 7 bytes included, as its header is zero-padded) or its first 8 bytes are the
      Compound File signature. */
  lemma SignatureSpec(content: seq<byte>)
    ensures (ReadHeader(content).Some? && Signed(ReadHeader(content).value)) <==>
      (HasPrefix(content, ZipSignature) || HasPrefix(content, CfbSignature))
  {
    if content != [] {
      var h := ReadHeader(content).value;
      if |content| >= 8 {
        assert h[..4] == content[..4];
      } else {
        assert forall k :: 0 <= k < |content| ==> h[k] == content[k];
        assert h[7] == 0;
        if |content| >= 4 {
          assert h[..4] == content[..4];
        } else {
          assert h[3] == 0;
        }
      }
    }
  }

  /** The outside answers of a processing run other than the rows themselves. */
  datatype BulkFaults = BulkFaults(
    tempFails: bool,           // creating or filling the local temporary copy fails
    openFails: bool,           // os.Open of the local copy fails
    excelOpenFails: bool,      // excelize cannot open the workbook
    saveFails: bool,           // saving Report.xlsx fails
    putError: Option<string>)  // the object store's answer to the report upload

  /** The checks before any row is read, in the order both processors make them: the
      fetch, opening the copy, reading the header, the signature and opening the
      workbook. None means the rows are read next. */
  function FileFailure(fetched: Option<Blob>, faults: BulkFaults): (r: Option<string>)
    ensures r.Some? ==> r.value in {InternalErrorMessage, InvalidFileMessage}
  {
    if fetched.None? || faults.tempFails then Some(InternalErrorMessage)
    else if faults.openFails then Some(InvalidFileMessage)
    else
      var header := ReadHeader(Content(fetched.value));
      if header.None? || !Signed(header.value) then Some(InvalidFileMessage)
      else if faults.excelOpenFails then Some(InternalErrorMessage)
      else None
  }

  /** A fetched file with a wrong signature is refused as invalid, whatever the workbook
      library would make of it. */
  lemma UnsignedFileRefused(b: Blob, faults: BulkFaults)
    requires !faults.tempFails && !faults.openFails
    requires !(HasPrefix(Content(b), ZipSignature) || HasPrefix(Content(b), CfbSignature))
    ensures FileFailure(Some(b), faults) == Some(InvalidFileMessage)
  {
    SignatureSpec(Content(b));
  }

  // ---------------------------------------------------------------------------------
  // The row loop

  /** What one data row contributes: a fault that ends the file, a rejected outcome, or
      a record to persist. */
  datatype Verdict<R> = Bad(message: string) | Reject(outcome: Outcome<R>) | Keep(record: R)

  /** Where the row loop ends: aborted with a message, or through every row with the
      records to persist and the outcomes rejected before persistence. */
  datatype Scan<R> = Abort(message: string) | Scanned(persist: seq<R>, rejected: seq<Outcome<R>>)

  function Step<R>(prev: Scan<R>, v: Verdict<R>): Scan<R>
    requires prev.Scanned?
  {
    match v
    case Bad(m) => Abort(m)
    case Reject(o) => Scanned(prev.persist, prev.rejected + [o])
    case Keep(r) => Scanned(prev.persist + [r], prev.rejected)
  }

  /** The loop over the sheet's rows, skipping the header row 0; `classify` judges a row
      given its index. The first bad row ends the loop. */
  function ScanRows<R>(rows: seq<seq<string>>, classify: (seq<string>, nat) -> Verdict<R>): Scan<R>
  {
    if |rows| <= 1 then Scanned([], [])
    else
      var i := |rows| - 1;
      var prev := ScanRows(rows[..i], classify);
      if prev.Abort? then prev else Step(prev, classify(rows[i], i))
  }

  /** The loop's step from rows[..i] to rows[..i + 1]. */
  lemma ScanStep<R>(rows: seq<seq<string>>, classify: (seq<string>, nat) -> Verdict<R>, i: int)
    requires 1 <= i < |rows|
    ensures var prev := ScanRows(rows[..i], classify);
      ScanRows(rows[..i + 1], classify) == if prev.Abort? then prev else Step(prev, classify(rows[i], i))
  {
    assert rows[..i + 1][..i] == rows[..i];
    assert rows[..i + 1][i] == rows[i];
  }

  /** Once the loop aborts, later rows change nothing. */
  lemma {:induction false} AbortSticks<R>(rows: seq<seq<string>>, classify: (seq<string>, nat) -> Verdict<R>, n: int)
    requires 0 <= n <= |rows| && ScanRows(rows[..n], classify).Abort?
    ensures ScanRows(rows, classify) == ScanRows(rows[..n], classify)
    decreases |rows| - n
  {
    if n == |rows| {
      assert rows[..n] == rows;
    } else {
      var init := rows[..|rows| - 1];
      assert init[..n] == rows[..n];
      AbortSticks(init, classify, n);
    }
  }

  /** The row loop as the processors run it: for each row after the header, stop at a
      bad row, collect a rejection, or collect a record to persist. */
  method ScanFile<R>(rows: seq<seq<string>>, classify: (seq<string>, nat) -> Verdict<R>) returns (scan: Scan<R>)
    ensures scan == ScanRows(rows, classify)
  {
    var persist: seq<R> := [];
    var rejected: seq<Outcome<R>> := [];
    var i := 0;
    while i < |rows|
      invariant 0 <= i <= |rows|
      invariant ScanRows(rows[..i], classify) == Scanned(persist, rejected)
    {
      if i != 0 {
        ScanStep(rows, classify, i);
        match classify(rows[i], i)
        case Bad(m) =>
          AbortSticks(rows, classify, i + 1);
          return Abort(m);
        case Reject(o) =>
          rejected := rejected + [o];
        case Keep(r) =>
          persist := persist + [r];
      }
      i := i + 1;
    }
    assert rows[..|rows|] == rows;
    scan := Scanned(persist, rejected);
  }

  /** Every data row lands in exactly one of the two lists when the loop completes. */
  lemma {:induction false} ScanCounts<R>(rows: seq<seq<string>>, classify: (seq<string>, nat) -> Verdict<R>)
    requires ScanRows(rows, classify).Scanned?
    ensures var s := ScanRows(rows, classify);
      |s.persist| + |s.rejected| == if rows == [] then 0 else |rows| - 1
  {
    if |rows| > 1 {
      ScanCounts(rows[..|rows| - 1], classify);
    }
  }

  /** When every rejection the classifier makes is marked not accepted, so is every
      outcome the loop rejects. */
  lemma {:induction false} ScanRejectsOnlyRejected<R>(rows: seq<seq<string>>, classify: (seq<string>, nat) -> Verdict<R>)
    requires forall row, i :: classify(row, i).Reject? ==> !classify(row, i).outcome.status
    requires ScanRows(rows, classify).Scanned?
    ensures forall k :: 0 <= k < |ScanRows(rows, classify).rejected| ==> !ScanRows(rows, classify).rejected[k].status
  {
    if |rows| > 1 {
      ScanRejectsOnlyRejected(rows[..|rows| - 1], classify);
    }
  }

  /** The verdicts on the data rows, in file order. */
  function Verdicts<R>(rows: seq<seq<string>>, classify: (seq<string>, nat) -> Verdict<R>): (vs: seq<Verdict<R>>)
    ensures |vs| == if rows == [] then 0 else |rows| - 1
    ensures forall k :: 0 <= k < |vs| ==> vs[k] == classify(rows[k + 1], k + 1)
  {
    if |rows| <= 1 then []
    else seq(|rows| - 1, k requires 0 <= k < |rows| - 1 => classify(rows[k + 1], k + 1))
  }

  predicate IsBad<R>(v: Verdict<R>) { v.Bad? }
  predicate IsKeep<R>(v: Verdict<R>) { v.Keep? }
  predicate IsReject<R>(v: Verdict<R>) { v.Reject? }

  /** The records of the Keep verdicts, in order. */
  function KeptRecords<R>(vs: seq<Verdict<R>>): seq<R>
  {
    var ks := Filter(vs, IsKeep);
    seq(|ks|, k requires 0 <= k < |ks| => ks[k].record)
  }

  /** The outcomes of the Reject verdicts, in order. */
  function RejectedOutcomes<R>(vs: seq<Verdict<R>>): seq<Outcome<R>>
  {
    var rs := Filter(vs, IsReject);
    seq(|rs|, k requires 0 <= k < |rs| => rs[k].outcome)
  }

  lemma VerdictsSnoc<R>(rows: seq<seq<string>>, classify: (seq<string>, nat) -> Verdict<R>)
    requires |rows| > 1
    ensures Verdicts(rows, classify) == Verdicts(rows[..|rows| - 1], classify) + [classify(rows[|rows| - 1], |rows| - 1)]
  {
  }

  lemma KeptSnoc<R>(vs: seq<Verdict<R>>, v: Verdict<R>)
    ensures KeptRecords(vs + [v]) == KeptRecords(vs) + (if v.Keep? then [v.record] else [])
    ensures RejectedOutcomes(vs + [v]) == RejectedOutcomes(vs) + (if v.Reject? then [v.outcome] else [])
  {
    FilterSnoc(vs, v, IsKeep);
    FilterSnoc(vs, v, IsReject);
  }

  /** The loop against a direct description of the sheet: it aborts exactly when some
      data row is bad, and otherwise persists the Keep rows' records and rejects the
      Reject rows' outcomes, each in file order. */
  lemma {:induction false} ScanSplitsRows<R>(rows: seq<seq<string>>, classify: (seq<string>, nat) -> Verdict<R>)
    ensures ScanRows(rows, classify).Abort? <==> exists k :: 0 <= k < |Verdicts(rows, classify)| && IsBad(Verdicts(rows, classify)[k])
    ensures ScanRows(rows, classify).Scanned? ==>
      && ScanRows(rows, classify).persist == KeptRecords(Verdicts(rows, classify))
      && ScanRows(rows, classify).rejected == RejectedOutcomes(Verdicts(rows, classify))
  {
    if |rows| > 1 {
      var init := rows[..|rows| - 1];
      ScanSplitsRows(init, classify);
      VerdictsSnoc(rows, classify);
      var vs0 := Verdicts(init, classify);
      var v := classify(rows[|rows| - 1], |rows| - 1);
      KeptSnoc(vs0, v);
      var vs := Verdicts(rows, classify);
      assert forall k :: 0 <= k < |vs0| ==> vs[k] == vs0[k];
      assert vs[|vs0|] == v;
    }
  }

  /** When the loop aborts, its message is that of the first bad row. */
  lemma {:induction false} AbortNamesFirstBadRow<R>(rows: seq<seq<string>>, classify: (seq<string>, nat) -> Verdict<R>, i: int)
    requires 1 <= i < |rows| && classify(rows[i], i).Bad?
    requires forall j :: 1 <= j < i ==> !classify(rows[j], j).Bad?
    ensures ScanRows(rows, classify) == Abort(classify(rows[i], i).message)
  {
    ScanSplitsRows(rows[..i], classify);
    assert forall k :: 0 <= k < |Verdicts(rows[..i], classify)| ==> !IsBad(Verdicts(rows[..i], classify)[k]);
    ScanStep(rows, classify, i);
    AbortSticks(rows, classify, i + 1);
  }

  /** A vaccination row: two columns, both numbers; a zero student or drive id fails the
      `required` validation and the row is rejected with "invalid input". */
  function VaccineRow(row: seq<string>, i: nat): Verdict<VaccinationRecord>
  {
    if |row| != 2 then Bad(MissingColumnsMessage)
    else
      var studentId := Atoi(row[0]);
      var driveId := Atoi(row[1]);
      if studentId.None? || driveId.None? then Bad(InvalidEntryAt(i))
      else
        var record := VaccinationRecord(0, studentId.value, driveId.value);
        if studentId.value == 0 || driveId.value == 0 then Reject(Outcome(record, false, InvalidInputMessage))
        else Keep(record)
  }

  /** A sheet written from ids reads back as those ids: a row `%d`,`%d` of two non-zero
      int64 ids is kept as that record, and one with a zero id is rejected. */
  lemma VaccineRowRoundTrip(studentId: int, driveId: int, i: nat)
    requires MinInt64 <= studentId <= MaxInt64 && MinInt64 <= driveId <= MaxInt64
    ensures var v := VaccineRow([IntToString(studentId), IntToString(driveId)], i);
      && (studentId != 0 && driveId != 0 ==> v == Keep(VaccinationRecord(0, studentId, driveId)))
      && (studentId == 0 || driveId == 0 ==> v == Reject(Outcome(VaccinationRecord(0, studentId, driveId), false, InvalidInputMessage)))
  {
    AtoiIntToString(studentId);
    AtoiIntToString(driveId);
  }

  /** A vaccination row is bad exactly when it does not have two columns or a column is
      not a number; kept records carry non-zero ids and rejected ones a zero id. */
  lemma VaccineRowSpec(row: seq<string>, i: nat)
    ensures var v := VaccineRow(row, i);
      && (v.Bad? <==> |row| != 2 || Atoi(row[0]).None? || Atoi(row[1]).None?)
      && (v.Bad? && |row| != 2 ==> v.message == MissingColumnsMessage)
      && (v.Bad? && |row| == 2 ==> v.message == InvalidEntryAt(i))
      && (v.Keep? ==> v.record.studentId != 0 && v.record.driveId != 0)
      && (v.Reject? ==> !v.outcome.status && v.outcome.errorReason == InvalidInputMessage
                        && (v.outcome.record.studentId == 0 || v.outcome.record.driveId == 0))
  {
  }

  /** A student row: five columns (name, class, gender, roll number, phone number); the
      request validator's message, if any, rejects it. */
  function StudentRow(row: seq<string>, i: nat, validate: Student -> Option<string>): Verdict<Student>
  {
    if |row| != 5 then Bad(MissingColumnsMessage)
    else
      var student := Student(0, row[0], row[1], row[2], row[3], row[4]);
      var failure := validate(student);
      if failure.Some? then Reject(Outcome(student, false, failure.value)) else Keep(student)
  }

  /** The student row check as the loop's classifier. */
  function StudentClassifier(validate: Student -> Option<string>): (seq<string>, nat) -> Verdict<Student>
  {
    (row, i: nat) => StudentRow(row, i, validate)
  }

  /** A student row is bad only for its width; otherwise it becomes the student its
      columns name, rejected with the validator's message or kept. */
  lemma StudentRowSpec(row: seq<string>, i: nat, validate: Student -> Option<string>)
    ensures var v := StudentRow(row, i, validate);
      && (v.Bad? <==> |row| != 5)
      && (v.Bad? ==> v.message == MissingColumnsMessage)
      && (|row| == 5 ==>
            var student := Student(0, row[0], row[1], row[2], row[3], row[4]);
            && (v.Keep? <==> validate(student).None?)
            && (v.Keep? ==> v.record == student)
            && (v.Reject? ==> v.outcome == Outcome(student, false, validate(student).value)))
  {
  }

  /** Both row checks mark every rejection as not accepted. */
  lemma RowRejectionsUnaccepted(validate: Student -> Option<string>)
    ensures forall row, i :: VaccineRow(row, i).Reject? ==> !VaccineRow(row, i).outcome.status
    ensures forall row, i :: StudentClassifier(validate)(row, i).Reject? ==> !StudentClassifier(validate)(row, i).outcome.status
  {
  }

  // ---------------------------------------------------------------------------------
  // The report

  const VaccineReportHeaders: seq<Value> := [Text("Student Id"), Text("Drive Id"), Text("Status"), Text("Remarks")]
  const StudentReportHeaders: seq<Value> :=
    [Text("Name"), Text("Class"), Text("Gender"), Text("Roll Number"), Text("Phone Number"), Text("Status"), Text("Remarks")]

  function VaccineCells(r: VaccinationRecord): seq<Value>
  {
    [Number(r.studentId), Number(r.driveId)]
  }

  function StudentCells(s: Student): seq<Value>
  {
    [Text(s.name), Text(s.className), Text(s.gender), Text(s.rollNumber), Text(s.phoneNo)]
  }

  /** The cells written for one outcome: the record's columns, then "Accepted", or
      "Rejected" and the reason. */
  function OutcomeRow<R>(o: Outcome<R>, cells: R -> seq<Value>): seq<Value>
  {
    cells(o.record) + (if o.status then [Text("Accepted")] else [Text("Rejected"), Text(o.errorReason)])
  }

  /** The report sheet: the header row, then outcome k on row k + 2. */
  function BulkReport<R>(headers: seq<Value>, outcomes: seq<Outcome<R>>, cells: R -> seq<Value>): (sheet: seq<seq<Value>>)
    ensures |sheet| == |outcomes| + 1
  {
    [headers] + seq(|outcomes|, k requires 0 <= k < |outcomes| => OutcomeRow(outcomes[k], cells))
  }

  /** Each outcome's row starts with its record's columns and says whether it was
      accepted; only a rejected row carries a remark, the outcome's reason. */
  lemma BulkReportSpec<R>(headers: seq<Value>, outcomes: seq<Outcome<R>>, cells: R -> seq<Value>)
    ensures var sheet := BulkReport(headers, outcomes, cells);
      && sheet[0] == headers
      && forall k :: 0 <= k < |outcomes| ==>
        var n := |cells(outcomes[k].record)|;
        && sheet[k + 1][..n] == cells(outcomes[k].record)
        && sheet[k + 1][n] == Text(if outcomes[k].status then "Accepted" else "Rejected")
        && |sheet[k + 1]| == n + (if outcomes[k].status then 1 else 2)
        && (!outcomes[k].status ==> sheet[k + 1][n + 1] == Text(outcomes[k].errorReason))
  {
  }

  lemma ReportStep<R>(headers: seq<Value>, outcomes: seq<Outcome<R>>, cells: R -> seq<Value>, i: int)
    requires 0 <= i < |outcomes|
    ensures BulkReport(headers, outcomes[..i + 1], cells) == BulkReport(headers, outcomes[..i], cells) + [OutcomeRow(outcomes[i], cells)]
  {
  }

  lemma CountStep<R>(outcomes: seq<Outcome<R>>, i: int)
    requires 0 <= i < |outcomes|
    ensures CountAccepted(outcomes[..i + 1]) == CountAccepted(outcomes[..i]) + (if outcomes[i].status then 1 else 0)
  {
    assert outcomes[..i + 1][..i] == outcomes[..i];
  }

  /** The report loop: write each outcome's row and count the accepted ones. */
  method RenderReport<R>(headers: seq<Value>, outcomes: seq<Outcome<R>>, cells: R -> seq<Value>)
    returns (sheet: seq<seq<Value>>, totalProcessed: nat)
    ensures sheet == BulkReport(headers, outcomes, cells)
    ensures totalProcessed == CountAccepted(outcomes)
  {
    sheet := [headers];
    totalProcessed := 0;
    var i := 0;
    while i < |outcomes|
      invariant 0 <= i <= |outcomes|
      invariant sheet == BulkReport(headers, outcomes[..i], cells)
      invariant totalProcessed == CountAccepted(outcomes[..i])
    {
      ReportStep(headers, outcomes, cells, i);
      CountStep(outcomes, i);
      sheet := sheet + [OutcomeRow(outcomes[i], cells)];
      if outcomes[i].status {
        totalProcessed := totalProcessed + 1;
      }
      i := i + 1;
    }
    assert outcomes[..|outcomes|] == outcomes;
  }

  // ---------------------------------------------------------------------------------
  // The job record

  /** The first write of a run: only the id and PROCESSING. */
  function StatusPatch(id: int): Job
  {
    Job(id, "", "", PROCESSING, "", "", 0, 0, "")
  }

  /** How a run ends: refused before the rows (with its message), refused at a row (the
      total already set), finished without a report, or finished with the report's
      address. */
  datatype Stage =
    | FileRejected(message: string)
    | RowsRejected(total: int, message: string)
    | ReportMissing(total: int, processed: nat)
    | Completed(total: int, processed: nat, url: string)

  /** The job as the processor last writes it, starting from the job it was handed. */
  function FinalPatch(job: Job, stage: Stage): Job
  {
    match stage
    case FileRejected(m) => job.(errorMessage := m, status := FAILED)
    case RowsRejected(total, m) => job.(totalRecords := total, errorMessage := m, status := FAILED)
    case ReportMissing(total, p) =>
      job.(totalRecords := total, processedRecords := p, errorMessage := ReportNotGeneratedMessage, status := PROCESSED)
    case Completed(total, p, url) => job.(totalRecords := total, processedRecords := p, filePath := url, status := PROCESSED)
  }

  /** The job row after a run: PROCESSING is overwritten by FAILED or PROCESSED; the file
      path becomes the report address only for a completed run and otherwise stays the
      source key; the total is written only once the rows were read, and the processed
      count only when a report stage was reached with at least one accepted row. */
  lemma RunLeavesTerminalRow(row: Job, job: Job, stage: Stage)
    requires row.id == job.id
    requires stage.Completed? ==> stage.url != ""
    ensures var r := ApplyJobChanges(ApplyJobChanges(row, JobChanges(StatusPatch(job.id))), JobChanges(FinalPatch(job, stage)));
      && r.id == row.id && r.requestId == row.requestId && r.fileName == row.fileName
      && r.status == (if stage.FileRejected? || stage.RowsRejected? then FAILED else PROCESSED)
      && r.filePath == (if stage.Completed? then stage.url else if job.filePath != "" then job.filePath else row.filePath)
      && (stage.FileRejected? ==> r.totalRecords == (if job.totalRecords != 0 then job.totalRecords else row.totalRecords))
      && (!stage.FileRejected? && stage.total != 0 ==> r.totalRecords == stage.total)
      && ((stage.ReportMissing? || stage.Completed?) && stage.processed != 0 ==> r.processedRecords == stage.processed)
      && (stage.ReportMissing? ==> r.errorMessage == ReportNotGeneratedMessage)
  {
    var mid := ApplyJobChanges(row, JobChanges(StatusPatch(job.id)));
    StatusOnlyPatch(row, job.id, PROCESSING);
    ApplyPatchFields(mid, FinalPatch(job, stage));
  }

  /** The processed count never exceeds the total of a sheet with a header row. */
  lemma ProcessedWithinTotal<R>(rows: seq<seq<string>>, classify: (seq<string>, nat) -> Verdict<R>, outcomes: seq<Outcome<R>>)
    requires rows != [] && ScanRows(rows, classify).Scanned?
    requires |outcomes| == |ScanRows(rows, classify).persist| + |ScanRows(rows, classify).rejected|
    ensures CountAccepted(outcomes) <= |rows| - 1
  {
    ScanCounts(rows, classify);
  }

  // ---------------------------------------------------------------------------------
  // The processors

  /** The outcomes a vaccination run reports: first those of CreateVaccinationRecords on
      the persisted rows (the inserted ones with the database's answer, then the ones
      failing a lookup), then the rows rejected by validation. */
  ghost predicate VaccineRunOutcomes(outcomes: seq<Outcome<VaccinationRecord>>, persist: seq<VaccinationRecord>,
                                     rejected: seq<Outcome<VaccinationRecord>>, drives: seq<Drive>,
                                     lookupErrors: map<DriveFilter, string>, students: seq<Student>,
                                     studentLookupErrors: set<int>, answers: seq<Option<string>>)
  {
    var valid := CheckedRecords(drives, lookupErrors, students, studentLookupErrors, persist);
    && |outcomes| == |persist| + |rejected|
    && |valid| <= |persist|
    && outcomes[|persist|..] == rejected
    && outcomes[|valid|..|persist|] == Rejections(drives, lookupErrors, students, studentLookupErrors, persist)
    && (forall k :: 0 <= k < |valid| ==>
          && outcomes[k].status == InsertAnswer(answers, k).None?
          && outcomes[k].record.(id := valid[k].id) == valid[k])
  }

  /** CreateVaccinationRecords' outcomes followed by the validation rejections are the
      outcomes of the run. */
  lemma VaccineRunOutcomesJoin(created: seq<Outcome<VaccinationRecord>>, persist: seq<VaccinationRecord>,
                               rejected: seq<Outcome<VaccinationRecord>>, drives: seq<Drive>,
                               lookupErrors: map<DriveFilter, string>, students: seq<Student>,
                               studentLookupErrors: set<int>, answers: seq<Option<string>>)
    requires var valid := CheckedRecords(drives, lookupErrors, students, studentLookupErrors, persist);
      && |created| == |persist|
      && |valid| <= |persist|
      && created[|valid|..] == Rejections(drives, lookupErrors, students, studentLookupErrors, persist)
      && (forall k :: 0 <= k < |valid| ==>
            && created[k].status == InsertAnswer(answers, k).None?
            && created[k].record.(id := valid[k].id) == valid[k])
    ensures VaccineRunOutcomes(created + rejected, persist, rejected, drives, lookupErrors, students, studentLookupErrors, answers)
  {
    var valid := CheckedRecords(drives, lookupErrors, students, studentLookupErrors, persist);
    var all := created + rejected;
    assert all[|persist|..] == rejected;
    assert all[|valid|..|persist|] == created[|valid|..];
    assert forall k :: 0 <= k < |created| ==> all[k] == created[k];
  }

  /** The outcomes a student run reports: one per persisted row with the database's
      answer, then the rows rejected by validation. */
  ghost predicate StudentRunOutcomes(outcomes: seq<Outcome<Student>>, persist: seq<Student>,
                                     rejected: seq<Outcome<Student>>, answers: seq<Option<string>>)
  {
    && |outcomes| == |persist| + |rejected|
    && outcomes[|persist|..] == rejected
    && (forall k :: 0 <= k < |persist| ==>
          && outcomes[k].status == InsertAnswer(answers, k).None?
          && outcomes[k].record.(id := persist[k].id) == persist[k])
  }

  /** CreateStudentRecords' outcomes followed by the validation rejections are the
      outcomes of the run. */
  lemma StudentRunOutcomesJoin(created: seq<Outcome<Student>>, persist: seq<Student>,
                               rejected: seq<Outcome<Student>>, answers: seq<Option<string>>)
    requires |created| == |persist|
    requires forall k :: 0 <= k < |persist| ==>
      && created[k].status == InsertAnswer(answers, k).None?
      && created[k].record.(id := persist[k].id) == persist[k]
    ensures StudentRunOutcomes(created + rejected, persist, rejected, answers)
  {
    var all := created + rejected;
    assert all[|persist|..] == rejected;
    assert forall k :: 0 <= k < |created| ==> all[k] == created[k];
  }

  /** The stage a run with a readable file and no bad row ends in: the report address
      when it was saved and uploaded, otherwise the report is missing. */
  function ReportStage(cfg: Config, requestId: string, total: int, processed: nat, faults: BulkFaults): Stage
  {
    if faults.saveFails || faults.putError.Some? then ReportMissing(total, processed)
    else Completed(total, processed, ObjectUrl(cfg, ObjectKey("reports/", requestId, ReportFileName)))
  }

  /** The object store after the report step: untouched when saving fails; otherwise
      the local report file is gone, and on a successful put the sheet is stored under
      "reports/<request id>/Report.xlsx" in the configured bucket. */
  predicate ReportStored(cfg: Config, objects0: map<(string, string), Blob>, local0: map<string, Blob>,
                         objects: map<(string, string), Blob>, local: map<string, Blob>,
                         requestId: string, sheet: seq<seq<Value>>, faults: BulkFaults)
  {
    && (faults.saveFails ==> objects == objects0 && local == local0)
    && (!faults.saveFails ==> local == local0 - {ReportFileName})
    && (!faults.saveFails && faults.putError.Some? ==> objects == objects0)
    && (!faults.saveFails && faults.putError.None? ==>
          objects == objects0[(cfg.bucket, ObjectKey("reports/", requestId, ReportFileName)) := Workbook(sheet)])
  }

  /** The bulk-job use case: the job table and the broker of its own repository, and the
      student-management use case (with its tables and object store) it hands rows to. */
  class BulkFileJobUsecase {
    const usecase: StudentManagementUsecase
    const jobs: JobTable
    const queue: MessageQueue

    ghost predicate Valid()
      reads this, jobs, usecase, usecase.students, usecase.records, usecase.inventory
    {
      jobs.Valid() && usecase.Valid()
    }

    constructor (usecase: StudentManagementUsecase, jobs: JobTable, queue: MessageQueue)
      ensures this.usecase == usecase && this.jobs == jobs && this.queue == queue
    {
      this.usecase := usecase;
      this.jobs := jobs;
      this.queue := queue;
    }

    /** GetBulkFileJobDetails: the count, then the page of jobs; the first failing query
        ends the call with its error and what was read so far. `countError` and
        `listError` are the database's answers. */
    method GetBulkFileJobDetails(requestId: string, p: Pagination, countError: Option<string>, listError: Option<string>)
      returns (count: nat, result: seq<Job>, err: Option<string>)
      ensures err == if countError.Some? then countError else listError
      ensures count == if countError.Some? then 0 else GetBulkFileJobCounts(jobs.rows, requestId, p)
      ensures result == if countError.Some? || listError.Some? then [] else GetBulkFileJobs(jobs.rows, requestId, p)
    {
      count, result := 0, [];
      if countError.Some? {
        return count, result, countError;
      }
      count := GetBulkFileJobCounts(jobs.rows, requestId, p);
      if listError.Some? {
        return count, result, listError;
      }
      result := GetBulkFileJobs(jobs.rows, requestId, p);
      err := None;
    }

    /** UploadBulkRequestFile: store the local upload under "uploads/<request id>/", record
        the job with that key as its file path, and publish it for the workers. A failed
        upload stops before the job row; a failed insert stops before the publish. */
    method UploadBulkRequestFile(req: Job, putError: Option<string>, dbError: Option<string>, publishError: Option<string>)
      returns (err: Option<string>)
      requires Valid()
      modifies usecase.store, jobs, queue
      ensures Valid()
      ensures usecase.store.local == old(usecase.store.local) - {req.filePath}
      ensures req.filePath !in old(usecase.store.local) ==>
        && err == Some("open " + req.filePath + ": no such file or directory")
        && usecase.store.objects == old(usecase.store.objects)
        && jobs.rows == old(jobs.rows) && queue.published == old(queue.published)
      ensures req.filePath in old(usecase.store.local) && putError.Some? ==>
        && err == putError && usecase.store.objects == old(usecase.store.objects)
        && jobs.rows == old(jobs.rows) && queue.published == old(queue.published)
      ensures req.filePath in old(usecase.store.local) && putError.None? ==>
        var key := ObjectKey("uploads/", req.requestId, req.filePath);
        && usecase.store.objects == old(usecase.store.objects)[(usecase.cfg.bucket, key) := old(usecase.store.local)[req.filePath]]
        && (dbError.Some? ==>
              && err == Some("error in creating bulk upload file entry " + dbError.value)
              && jobs.rows == old(jobs.rows) && queue.published == old(queue.published))
        && (dbError.None? ==>
              var created := req.(filePath := key, id := old(jobs.nextId));
              && err == publishError
              && jobs.rows == old(jobs.rows) + [created]
              && queue.published == old(queue.published) + (if publishError.None? then [PublishingFor(created, "bulk_upload")] else []))
    {
      var uploadLoc, uploadErr := usecase.store.UploadFileToMinio(req.filePath, usecase.cfg.bucket, "uploads/", req.requestId, putError);
      if uploadErr.Some? {
        return uploadErr;
      }
      var model := req.(filePath := uploadLoc);
      var created, dbErr := jobs.CreateFileUpload(model, dbError);
      if dbErr.Some? {
        return Some("error in creating bulk upload file entry " + dbErr.value);
      }
      err := queue.SubmitToRabbitMQ(created, "bulk_upload", publishError);
    }

    /** ProcessBulkVaccineRecord: mark the job PROCESSING, check the file, read the
        (student id, drive id) rows, persist the valid ones through the student-management
        use case, write and upload the report, and write the job's final state. It always
        returns no error; every failure is recorded on the job. `rows` is what the
        workbook library reads from the first sheet. */
    method ProcessBulkVaccineRecord(job: Job, rows: seq<seq<string>>, faults: BulkFaults,
                                    lookupErrors: map<DriveFilter, string>, studentLookupErrors: set<int>,
                                    answers: seq<Option<string>>)
      returns (err: Option<string>, ghost stage: Stage, ghost outcomes: seq<Outcome<VaccinationRecord>>)
      requires Valid()
      modifies jobs, usecase.records, usecase.store
      ensures Valid()
      ensures err.None?
      ensures jobs.log == old(jobs.log) + [StatusPatch(job.id), FinalPatch(job, stage)]
      ensures jobs.rows == UpdateWhereId(UpdateWhereId(old(jobs.rows), job.id, JobChanges(StatusPatch(job.id))),
                                         job.id, JobChanges(FinalPatch(job, stage)))
      ensures var failure := FileFailure(FetchObject(old(usecase.store.objects), usecase.cfg.bucket, job.filePath), faults);
        var scan := ScanRows(rows, VaccineRow);
        && (failure.Some? ==>
              stage == FileRejected(failure.value) && outcomes == []
              && usecase.records.rows == old(usecase.records.rows) && unchanged(usecase.store))
        && (failure.None? && scan.Abort? ==>
              stage == RowsRejected(|rows| - 1, scan.message) && outcomes == []
              && usecase.records.rows == old(usecase.records.rows) && unchanged(usecase.store))
        && (failure.None? && scan.Scanned? ==>
              && VaccineRunOutcomes(outcomes, scan.persist, scan.rejected, usecase.inventory.rows, lookupErrors,
                                    usecase.students.rows, studentLookupErrors, answers)
              && usecase.records.rows == old(usecase.records.rows) + AcceptedRecords(outcomes)
              && stage == ReportStage(usecase.cfg, job.requestId, |rows| - 1, CountAccepted(outcomes), faults)
              && ReportStored(usecase.cfg, old(usecase.store.objects), old(usecase.store.local), usecase.store.objects, usecase.store.local,
                              job.requestId, BulkReport(VaccineReportHeaders, outcomes, VaccineCells), faults))
    {
      jobs.UpdateFileUpload(StatusPatch(job.id));
      var model := job;
      outcomes := [];
      var failure := FileFailure(FetchObject(usecase.store.objects, usecase.cfg.bucket, job.filePath), faults);
      if failure.Some? {
        model := model.(errorMessage := failure.value, status := FAILED);
        stage := FileRejected(failure.value);
        jobs.UpdateFileUpload(model);
        return None, stage, outcomes;
      }
      model := model.(totalRecords := |rows| - 1);
      var scan := ScanFile(rows, VaccineRow);
      if scan.Abort? {
        model := model.(errorMessage := scan.message, status := FAILED);
        stage := RowsRejected(|rows| - 1, scan.message);
        jobs.UpdateFileUpload(model);
        return None, stage, outcomes;
      }
      stage, outcomes := PersistVaccineRows(model, job, rows, scan, faults, lookupErrors, studentLookupErrors, answers);
      err := None;
    }

    /** The rest of a vaccination run once every row was read: the valid rows go to
        CreateVaccinationRecords, the validation rejections follow its outcomes, and the
        report of all of them is rendered and published. */
    method PersistVaccineRows(model: Job, job: Job, rows: seq<seq<string>>, scan: Scan<VaccinationRecord>, faults: BulkFaults,
                              lookupErrors: map<DriveFilter, string>, studentLookupErrors: set<int>,
                              answers: seq<Option<string>>)
      returns (ghost stage: Stage, ghost outcomes: seq<Outcome<VaccinationRecord>>)
      requires Valid()
      requires scan == ScanRows(rows, VaccineRow) && scan.Scanned?
      requires model == job.(totalRecords := |rows| - 1)
      modifies jobs, usecase.records, usecase.store
      ensures Valid()
      ensures jobs.log == old(jobs.log) + [FinalPatch(job, stage)]
      ensures jobs.rows == UpdateWhereId(old(jobs.rows), job.id, JobChanges(FinalPatch(job, stage)))
      ensures VaccineRunOutcomes(outcomes, scan.persist, scan.rejected, usecase.inventory.rows, lookupErrors,
                                 usecase.students.rows, studentLookupErrors, answers)
      ensures usecase.records.rows == old(usecase.records.rows) + AcceptedRecords(outcomes)
      ensures stage == ReportStage(usecase.cfg, job.requestId, |rows| - 1, CountAccepted(outcomes), faults)
      ensures ReportStored(usecase.cfg, old(usecase.store.objects), old(usecase.store.local), usecase.store.objects,
                           usecase.store.local, job.requestId, BulkReport(VaccineReportHeaders, outcomes, VaccineCells), faults)
    {
      var created := usecase.CreateVaccinationRecords(scan.persist, lookupErrors, studentLookupErrors, answers);
      var result := created + scan.rejected;
      RowRejectionsUnaccepted(_ => None);
      ScanRejectsOnlyRejected(rows, VaccineRow);
      AcceptedIgnoresRejected(created, scan.rejected);
      RejectionsSpec(usecase.inventory.rows, lookupErrors, usecase.students.rows, studentLookupErrors, scan.persist);
      VaccineRunOutcomesJoin(created, scan.persist, scan.rejected, usecase.inventory.rows, lookupErrors,
                             usecase.students.rows, studentLookupErrors, answers);
      var sheet, totalProcessed := RenderReport(VaccineReportHeaders, result, VaccineCells);
      stage := FinishRun(model.(processedRecords := totalProcessed), job, |rows| - 1, sheet, totalProcessed, faults);
      outcomes := result;
    }
  
    /** ProcessBulkStudentRecord: the same run over (name, class, gender, roll number,
        phone number) rows, persisted through CreateStudentRecords. `validate` is the
        request validator's answer for a row's student. */
    method ProcessBulkStudentRecord(job: Job, rows: seq<seq<string>>, faults: BulkFaults,
                                    validate: Student -> Option<string>, answers: seq<Option<string>>)
      returns (err: Option<string>, ghost stage: Stage, ghost outcomes: seq<Outcome<Student>>)
      requires Valid()
      modifies jobs, usecase.students, usecase.store
      ensures Valid()
      ensures err.None?
      ensures jobs.log == old(jobs.log) + [StatusPatch(job.id), FinalPatch(job, stage)]
      ensures jobs.rows == UpdateWhereId(UpdateWhereId(old(jobs.rows), job.id, JobChanges(StatusPatch(job.id))),
                                         job.id, JobChanges(FinalPatch(job, stage)))
      ensures var failure := FileFailure(FetchObject(old(usecase.store.objects), usecase.cfg.bucket, job.filePath), faults);
        var scan := ScanRows(rows, StudentClassifier(validate));
        && (failure.Some? ==>
              stage == FileRejected(failure.value) && outcomes == []
              && usecase.students.rows == old(usecase.students.rows) && unchanged(usecase.store))
        && (failure.None? && scan.Abort? ==>
              stage == RowsRejected(|rows| - 1, scan.message) && outcomes == []
              && usecase.students.rows == old(usecase.students.rows) && unchanged(usecase.store))
        && (failure.None? && scan.Scanned? ==>
              && StudentRunOutcomes(outcomes, scan.persist, scan.rejected, answers)
              && usecase.students.rows == old(usecase.students.rows) + AcceptedRecords(outcomes)
              && stage == ReportStage(usecase.cfg, job.requestId, |rows| - 1, CountAccepted(outcomes), faults)
              && ReportStored(usecase.cfg, old(usecase.store.objects), old(usecase.store.local), usecase.store.objects,
                              usecase.store.local, job.requestId, BulkReport(StudentReportHeaders, outcomes, StudentCells), faults))
    {
      jobs.UpdateFileUpload(StatusPatch(job.id));
      var model := job;
      outcomes := [];
      var failure := FileFailure(FetchObject(usecase.store.objects, usecase.cfg.bucket, job.filePath), faults);
      if failure.Some? {
        model := model.(errorMessage := failure.value, status := FAILED);
        stage := FileRejected(failure.value);
        jobs.UpdateFileUpload(model);
        return None, stage, outcomes;
      }
      model := model.(totalRecords := |rows| - 1);
      var scan := ScanFile(rows, StudentClassifier(validate));
      if scan.Abort? {
        model := model.(errorMessage := scan.message, status := FAILED);
        stage := RowsRejected(|rows| - 1, scan.message);
        jobs.UpdateFileUpload(model);
        return None, stage, outcomes;
      }
      stage, outcomes := PersistStudentRows(model, job, rows, scan, faults, validate, answers);
      err := None;
    }

    /** The rest of a student run once every row was read: the valid rows go to
        CreateStudentRecords, the validation rejections follow its outcomes, and the
        report of all of them is rendered and published. */
    method PersistStudentRows(model: Job, job: Job, rows: seq<seq<string>>, scan: Scan<Student>, faults: BulkFaults, validate: Student -> Option<string>,
                              answers: seq<Option<string>>)
      returns (ghost stage: Stage, ghost outcomes: seq<Outcome<Student>>)
      requires Valid()
      requires scan == ScanRows(rows, StudentClassifier(validate)) && scan.Scanned?
      requires model == job.(totalRecords := |rows| - 1)
      modifies jobs, usecase.students, usecase.store
      ensures Valid()
      ensures jobs.log == old(jobs.log) + [FinalPatch(job, stage)]
      ensures jobs.rows == UpdateWhereId(old(jobs.rows), job.id, JobChanges(FinalPatch(job, stage)))
      ensures StudentRunOutcomes(outcomes, scan.persist, scan.rejected, answers)
      ensures usecase.students.rows == old(usecase.students.rows) + AcceptedRecords(outcomes)
      ensures stage == ReportStage(usecase.cfg, job.requestId, |rows| - 1, CountAccepted(outcomes), faults)
      ensures ReportStored(usecase.cfg, old(usecase.store.objects), old(usecase.store.local), usecase.store.objects,
                           usecase.store.local, job.requestId, BulkReport(StudentReportHeaders, outcomes, StudentCells), faults)
    {
      var created := usecase.CreateStudentRecords(scan.persist, answers);
      var result := created + scan.rejected;
      RowRejectionsUnaccepted(validate);
      ScanRejectsOnlyRejected(rows, StudentClassifier(validate));
      AcceptedIgnoresRejected(created, scan.rejected);
      StudentRunOutcomesJoin(created, scan.persist, scan.rejected, answers);
      var sheet, totalProcessed := RenderReport(StudentReportHeaders, result, StudentCells);
      stage := FinishRun(model.(processedRecords := totalProcessed), job, |rows| - 1, sheet, totalProcessed, faults);
      outcomes := result;
    }

    /** The end of a run whose rows were read: save and upload the report, then write the
        job as PROCESSED, with the report's address or with the missing-report message. */
    method FinishRun(model: Job, job: Job, total: int, sheet: seq<seq<Value>>, totalProcessed: nat, faults: BulkFaults)
      returns (ghost stage: Stage)
      requires jobs.Valid()
      requires model == job.(totalRecords := total, processedRecords := totalProcessed)
      modifies jobs, usecase.store
      ensures jobs.Valid()
      ensures stage == ReportStage(usecase.cfg, job.requestId, total, totalProcessed, faults)
      ensures jobs.log == old(jobs.log) + [FinalPatch(job, stage)]
      ensures jobs.rows == UpdateWhereId(old(jobs.rows), job.id, JobChanges(FinalPatch(job, stage)))
      ensures ReportStored(usecase.cfg, old(usecase.store.objects), old(usecase.store.local), usecase.store.objects,
                           usecase.store.local, job.requestId, sheet, faults)
    {
      var url, err := usecase.SaveAndUpload(sheet, job.requestId, faults.saveFails, faults.putError);
      stage := RecordReport(model, job, total, totalProcessed, url, err);
    }

    /** The last job write of a run that reached the report: PROCESSED, with the missing-
        report message when the report step failed and with the report's address
        otherwise. */
    method RecordReport(model: Job, job: Job, total: int, totalProcessed: nat, url: string, err: Option<string>)
      returns (ghost stage: Stage)
      requires jobs.Valid()
      requires model == job.(totalRecords := total, processedRecords := totalProcessed)
      modifies jobs
      ensures jobs.Valid()
      ensures stage == if err.Some? then ReportMissing(total, totalProcessed) else Completed(total, totalProcessed, url)
      ensures jobs.log == old(jobs.log) + [FinalPatch(job, stage)]
      ensures jobs.rows == UpdateWhereId(old(jobs.rows), job.id, JobChanges(FinalPatch(job, stage)))
    {
      var next := model;
      if err.Some? {
        next := next.(errorMessage := ReportNotGeneratedMessage, status := PROCESSED);
        stage := ReportMissing(total, totalProcessed);
      } else {
        next := next.(filePath := url, status := PROCESSED);
        stage := Completed(total, totalProcessed, url);
      }
      jobs.UpdateFileUpload(next);
    }
  }
}
