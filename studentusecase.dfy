/** Student and vaccination-record use cases: usecase/studentmanagement.go. */
module StudentUsecase {
  import opened Common
  import opened Text
  import opened BulkFileJobsRepo
  import opened StudentRepo
  import opened VaccinationRecordRepo
  import opened InventoryRepo

  function NotAvailable(id: int): string
  {
    "student record with id " + IntToString(id) + " is not available ====>>>>"
  }

  function NoDriveWithDriveId(driveId: int): string
  {
    "no drive exists with drive_id : " + IntToString(driveId)
  }

  function NoStudentWithId(studentId: int): string
  {
    "no student exists with student_id : " + IntToString(studentId)
  }

  function NoDriveForVaccine(name: string): string
  {
    "no vaccination drive with vaccine : " + name
  }

  function NoReportData(name: string): string
  {
    "no data for vaccine name " + name
  }

  const InternalServerError: string := "Internal server Error"

  /** verifyDriveExists' filter: `id = N` for a non-zero id, otherwise
      `vaccine_name = '<name>'`. */
  function DriveLookupFilter(id: int, name: string): DriveFilter
  {
    if id != 0 then DriveIdIs(id) else VaccineNameIs(name)
  }

  /** The lookup finds the drives with the id when it is non-zero, whatever the name,
      and otherwise the drives with exactly that vaccine name. */
  lemma DriveLookupFilterSpec(drives: seq<Drive>, id: int, name: string)
    ensures id != 0 ==> forall d :: d in GetVaccineInventory(drives, DriveLookupFilter(id, name)) <==> d in drives && d.id == id
    ensures id == 0 ==> forall d :: d in GetVaccineInventory(drives, DriveLookupFilter(id, name)) <==> d in drives && d.vaccineName == name
  {
    GetVaccineInventorySpec(drives, DriveLookupFilter(id, name));
  }

  /** The answer of an inventory lookup: the error text the database gives for this
      filter, if any. */
  function LookupFailure(lookupErrors: map<DriveFilter, string>, f: DriveFilter): Option<string>
  {
    if f in lookupErrors then Some(lookupErrors[f]) else None
  }

  // ---- CreateVaccinationRecords ----

  /** How many students carry an id. */
  function CountWithId(students: seq<Student>, id: int): nat
  {
    if students == [] then 0
    else (if students[0].id == id then 1 else 0) + CountWithId(students[1..], id)
  }

  /** The lookup `id = N` returns one row per student with that id. */
  lemma {:induction false} StudentLookupSize(students: seq<Student>, id: int)
    ensures |GetStudents(students, StudentIdIs(id))| == CountWithId(students, id)
  {
    if students != [] {
      StudentLookupSize(students[1..], id);
    }
  }

  /** The drive check rejects a record when its lookup fails or returns no drive. */
  predicate DriveRejects(drives: seq<Drive>, lookupErrors: map<DriveFilter, string>, r: VaccinationRecord)
  {
    var f := DriveLookupFilter(r.driveId, "");
    f in lookupErrors || !AnyDriveMatches(drives, f)
  }

  /** The student check rejects a record unless the lookup returns exactly one row; a
      failed lookup counts as no row. */
  predicate StudentRejects(students: seq<Student>, studentLookupErrors: set<int>, r: VaccinationRecord)
  {
    r.studentId in studentLookupErrors || CountWithId(students, r.studentId) != 1
  }

  predicate Checked(drives: seq<Drive>, lookupErrors: map<DriveFilter, string>, students: seq<Student>,
                    studentLookupErrors: set<int>, r: VaccinationRecord)
  {
    !DriveRejects(drives, lookupErrors, r) && !StudentRejects(students, studentLookupErrors, r)
  }

  /** The rejection of a record failing a check: the drive check comes first, so a
      record failing both is reported with the drive message. */
  function Rejection(drives: seq<Drive>, lookupErrors: map<DriveFilter, string>, r: VaccinationRecord): Outcome<VaccinationRecord>
  {
    Outcome(r, false, if DriveRejects(drives, lookupErrors, r) then NoDriveWithDriveId(r.driveId) else NoStudentWithId(r.studentId))
  }

  /** The records passing both checks, in input order. */
  function CheckedRecords(drives: seq<Drive>, lookupErrors: map<DriveFilter, string>, students: seq<Student>,
                          studentLookupErrors: set<int>, input: seq<VaccinationRecord>): seq<VaccinationRecord>
  {
    Filter(input, r => Checked(drives, lookupErrors, students, studentLookupErrors, r))
  }

  /** The rejections of the records failing a check, in input order. */
  function Rejections(drives: seq<Drive>, lookupErrors: map<DriveFilter, string>, students: seq<Student>,
                      studentLookupErrors: set<int>, input: seq<VaccinationRecord>): seq<Outcome<VaccinationRecord>>
  {
    Rejects(input, r => Checked(drives, lookupErrors, students, studentLookupErrors, r), r => Rejection(drives, lookupErrors, r))
  }

  /** Every input record is either checked or rejected, never both, so there is one
      outcome per record; every rejection names a record of the input that fails a
      check, marked as not accepted, with the message of the first check it fails. */
  lemma RejectionsSpec(drives: seq<Drive>, lookupErrors: map<DriveFilter, string>, students: seq<Student>,
                       studentLookupErrors: set<int>, input: seq<VaccinationRecord>)
    ensures |CheckedRecords(drives, lookupErrors, students, studentLookupErrors, input)|
          + |Rejections(drives, lookupErrors, students, studentLookupErrors, input)| == |input|
    ensures var rs := Rejections(drives, lookupErrors, students, studentLookupErrors, input);
      forall k :: 0 <= k < |rs| ==>
        && rs[k].record in input
        && !rs[k].status
        && !Checked(drives, lookupErrors, students, studentLookupErrors, rs[k].record)
        && rs[k].errorReason == (if DriveRejects(drives, lookupErrors, rs[k].record) then NoDriveWithDriveId(rs[k].record.driveId)
                                 else NoStudentWithId(rs[k].record.studentId))
  {
    RejectsSpec(input, r => Checked(drives, lookupErrors, students, studentLookupErrors, r), r => Rejection(drives, lookupErrors, r));
  }

  /** Checking one more record extends exactly one of the two lists. */
  lemma CheckStep(drives: seq<Drive>, lookupErrors: map<DriveFilter, string>, students: seq<Student>,
                  studentLookupErrors: set<int>, input: seq<VaccinationRecord>, i: int)
    requires 0 <= i < |input|
    ensures CheckedRecords(drives, lookupErrors, students, studentLookupErrors, input[..i + 1])
         == CheckedRecords(drives, lookupErrors, students, studentLookupErrors, input[..i])
            + (if Checked(drives, lookupErrors, students, studentLookupErrors, input[i]) then [input[i]] else [])
    ensures Rejections(drives, lookupErrors, students, studentLookupErrors, input[..i + 1])
         == Rejections(drives, lookupErrors, students, studentLookupErrors, input[..i])
            + (if Checked(drives, lookupErrors, students, studentLookupErrors, input[i]) then [] else [Rejection(drives, lookupErrors, input[i])])
  {
    assert input[..i + 1] == input[..i] + [input[i]];
    FilterSnoc(input[..i], input[i], r => Checked(drives, lookupErrors, students, studentLookupErrors, r));
    assert input[..i + 1][..i] == input[..i];
  }

  /** With unique student ids the student check passes exactly for a student that is in
      the table and whose lookup does not fail. */
  lemma StudentCheck(students: seq<Student>, studentLookupErrors: set<int>, r: VaccinationRecord)
    requires UniqueIds(students)
    ensures !StudentRejects(students, studentLookupErrors, r) <==>
      r.studentId !in studentLookupErrors && exists k :: 0 <= k < |students| && students[k].id == r.studentId
  {
    GetStudentById(students, r.studentId);
    StudentLookupSize(students, r.studentId);
  }

  // ---- Completing the joined rows ----

  /** A row of the consolidated response: the student, whether vaccinated, and for a
      vaccinated student the drive's vaccine name and date. */
  datatype StudentDetail = StudentDetail(
    id: int,
    name: string,
    className: string,
    gender: string,
    rollNo: string,
    phoneNo: string,
    vaccination: bool,
    vaccineName: string,
    vaccineDate: Option<int>)

  function Unvaccinated(d: Detail): StudentDetail
  {
    StudentDetail(d.id, d.name, d.className, d.gender, d.rollNumber, d.phoneNo, false, "", None)
  }

  function Vaccinated(d: Detail, drive: Drive): StudentDetail
  {
    StudentDetail(d.id, d.name, d.className, d.gender, d.rollNumber, d.phoneNo, true, drive.vaccineName, Some(drive.driveDate))
  }

  /** The drive register holds inventory drives under their own ids. */
  ghost predicate RegisterConsistent(register: map<int, Drive>, drives: seq<Drive>)
  {
    forall x :: x in register ==> register[x] in drives && register[x].id == x
  }

  /** A row is dropped when it carries a drive the register does not hold and whose
      lookup fails. */
  predicate DroppedRow(register: map<int, Drive>, lookupErrors: map<DriveFilter, string>, d: Detail)
  {
    d.driveId != 0 && d.driveId !in register && DriveIdIs(d.driveId) in lookupErrors
  }

  /** A row's drive resolves: the row has no drive, the register holds it, its lookup
      fails (the row is dropped), or the lookup finds a drive. */
  predicate Resolvable(register: map<int, Drive>, drives: seq<Drive>, lookupErrors: map<DriveFilter, string>, d: Detail)
  {
    d.driveId == 0 || d.driveId in register || DriveIdIs(d.driveId) in lookupErrors || AnyDriveMatches(drives, DriveIdIs(d.driveId))
  }

  /** Every drive lookup the rows need and that does not fail finds its drive. */
  ghost predicate LookupsFind(details: seq<Detail>, register: map<int, Drive>, drives: seq<Drive>,
                              lookupErrors: map<DriveFilter, string>)
  {
    forall k :: 0 <= k < |details| ==> Resolvable(register, drives, lookupErrors, details[k])
  }

  /** The drive of a vaccinated row: the register's entry, or the first row the id
      lookup returns (its earliest match, by FirstRowIsEarliest). */
  function RowDrive(register: map<int, Drive>, drives: seq<Drive>, driveId: int): Drive
    requires driveId in register || AnyDriveMatches(drives, DriveIdIs(driveId))
  {
    if driveId in register then register[driveId] else EarliestMatch(drives, DriveIdIs(driveId))
  }

  /** The output for one joined row, keyed by drive id: unvaccinated without a drive,
      nothing for a dropped row, otherwise vaccinated with the drive its drive id names. */
  function CompletedRow(register: map<int, Drive>, drives: seq<Drive>, lookupErrors: map<DriveFilter, string>, d: Detail): seq<StudentDetail>
    requires Resolvable(register, drives, lookupErrors, d)
  {
    if d.driveId == 0 then [Unvaccinated(d)]
    else if DroppedRow(register, lookupErrors, d) then []
    else [Vaccinated(d, RowDrive(register, drives, d.driveId))]
  }

  /** What the loop's register holds beyond the initial one: only drives its id lookups
      found, each the first row of the lookup. */
  ghost predicate Cached(register: map<int, Drive>, register0: map<int, Drive>, drives: seq<Drive>,
                         lookupErrors: map<DriveFilter, string>)
  {
    && (forall x :: x in register0 ==> x in register && register[x] == register0[x])
    && (forall x :: x in register && x !in register0 ==>
          && DriveIdIs(x) !in lookupErrors
          && AnyDriveMatches(drives, DriveIdIs(x))
          && register[x] == RowDrive(register0, drives, x))
  }

  /** The consolidated rows (the intended mapping), in join order. */
  function Completed(details: seq<Detail>, register: map<int, Drive>, drives: seq<Drive>,
                     lookupErrors: map<DriveFilter, string>): (r: seq<StudentDetail>)
    requires LookupsFind(details, register, drives, lookupErrors)
    ensures |r| <= |details|
  {
    if details == [] then []
    else
      var init := details[..|details| - 1];
      assert LookupsFind(init, register, drives, lookupErrors) by {
        assert forall k :: 0 <= k < |init| ==> init[k] == details[k];
      }
      Completed(init, register, drives, lookupErrors) + CompletedRow(register, drives, lookupErrors, details[|details| - 1])
  }

  /** The drive ids the loop's id lookups find among the first n rows: those of rows
      with a drive whose lookup does not fail. */
  ghost function FoundIds(details: seq<Detail>, lookupErrors: map<DriveFilter, string>, n: int): set<int>
    requires 0 <= n <= |details|
  {
    set k | 0 <= k < n && details[k].driveId != 0 && DriveIdIs(details[k].driveId) !in lookupErrors :: details[k].driveId
  }

  /** Row k makes an id lookup: it has a drive that neither the initial register nor an
      earlier lookup holds. A failing lookup caches nothing, so its id is looked up again. */
  ghost predicate LookedUp(details: seq<Detail>, register0: map<int, Drive>, lookupErrors: map<DriveFilter, string>, k: int)
    requires 0 <= k < |details|
  {
    details[k].driveId != 0 && details[k].driveId !in register0 && details[k].driveId !in FoundIds(details, lookupErrors, k)
  }

  /** The answer of the last id lookup among the first n rows, None when there is none:
      each lookup overwrites the error the loop returns. */
  ghost function LastLookupError(details: seq<Detail>, register0: map<int, Drive>, lookupErrors: map<DriveFilter, string>, n: int): Option<string>
    requires 0 <= n <= |details|
  {
    if n == 0 then None
    else if LookedUp(details, register0, lookupErrors, n - 1) then LookupFailure(lookupErrors, DriveIdIs(details[n - 1].driveId))
    else LastLookupError(details, register0, lookupErrors, n - 1)
  }

  lemma FoundIdsSnoc(details: seq<Detail>, lookupErrors: map<DriveFilter, string>, n: int)
    requires 0 <= n < |details|
    ensures FoundIds(details, lookupErrors, n + 1)
         == FoundIds(details, lookupErrors, n)
            + (if details[n].driveId != 0 && DriveIdIs(details[n].driveId) !in lookupErrors then {details[n].driveId} else {})
  {
  }

  /** The last lookup's answer is an error only when some row was dropped, and with no
      dropped rows it is None. */
  lemma {:induction false} LastLookupErrorDropped(details: seq<Detail>, register0: map<int, Drive>,
                                                  lookupErrors: map<DriveFilter, string>, n: int)
    requires 0 <= n <= |details|
    ensures LastLookupError(details, register0, lookupErrors, n).Some? ==>
      exists k :: 0 <= k < n && DroppedRow(register0, lookupErrors, details[k])
    ensures (forall k :: 0 <= k < n ==> !DroppedRow(register0, lookupErrors, details[k])) ==>
      LastLookupError(details, register0, lookupErrors, n).None?
  {
    if n > 0 {
      LastLookupErrorDropped(details, register0, lookupErrors, n - 1);
    }
  }

  /** One step of the consolidated-response loop keeps the register's ids and the error
      in line with FoundIds and LastLookupError. */
  lemma LookupStep(details: seq<Detail>, register0: map<int, Drive>, register: map<int, Drive>, register1: map<int, Drive>,
                   lookupErrors: map<DriveFilter, string>, i: int, lookedUp: bool, lookupErr: Option<string>, err: Option<string>)
    requires 0 <= i < |details|
    requires register.Keys == register0.Keys + FoundIds(details, lookupErrors, i)
    requires err == LastLookupError(details, register0, lookupErrors, i)
    requires lookedUp <==> details[i].driveId != 0 && details[i].driveId !in register
    requires lookedUp ==> lookupErr == LookupFailure(lookupErrors, DriveIdIs(details[i].driveId))
    requires register1.Keys == register.Keys + (if lookedUp && lookupErr.None? then {details[i].driveId} else {})
    ensures register1.Keys == register0.Keys + FoundIds(details, lookupErrors, i + 1)
    ensures (if lookedUp then lookupErr else err) == LastLookupError(details, register0, lookupErrors, i + 1)
  {
    FoundIdsSnoc(details, lookupErrors, i);
    assert lookedUp <==> LookedUp(details, register0, lookupErrors, i);
  }

  /** The drive attached to a row is the inventory drive with the row's drive id. */
  lemma RowDriveIsOwnDrive(register: map<int, Drive>, drives: seq<Drive>, driveId: int, m: int)
    requires UniqueDriveIds(drives) && RegisterConsistent(register, drives)
    requires 0 <= m < |drives| && drives[m].id == driveId
    ensures AnyDriveMatches(drives, DriveIdIs(driveId))
    ensures RowDrive(register, drives, driveId) == drives[m]
  {
    AnyDriveMatchesSpec(drives, DriveIdIs(driveId));
    var d := RowDrive(register, drives, driveId);
    if driveId !in register {
      EarliestMatchSpec(drives, DriveIdIs(driveId));
      assert FilterHolds(DriveIdIs(driveId), d);
    }
    assert d in drives && d.id == driveId;
    var i :| 0 <= i < |drives| && drives[i] == d;
    SameIdSameIndex(drives, i, m);
  }

  lemma SameIdSameIndex(drives: seq<Drive>, i: int, m: int)
    requires UniqueDriveIds(drives)
    requires 0 <= i < |drives| && 0 <= m < |drives| && drives[i].id == drives[m].id
    ensures i == m
  {
  }

  /** Completing one more row appends that row's output. */
  lemma CompletedSnoc(details: seq<Detail>, register: map<int, Drive>, drives: seq<Drive>,
                      lookupErrors: map<DriveFilter, string>, i: int)
    requires 0 <= i < |details| && LookupsFind(details, register, drives, lookupErrors)
    ensures LookupsFind(details[..i], register, drives, lookupErrors)
    ensures Completed(details[..i + 1], register, drives, lookupErrors)
         == Completed(details[..i], register, drives, lookupErrors) + CompletedRow(register, drives, lookupErrors, details[i])
  {
    assert details[..i + 1][..i] == details[..i];
  }

  /** Every row without a drive appears unvaccinated. */
  lemma {:induction false} CompletedKeepsUnvaccinated(details: seq<Detail>, register: map<int, Drive>, drives: seq<Drive>,
                                                      lookupErrors: map<DriveFilter, string>, k: int)
    requires LookupsFind(details, register, drives, lookupErrors)
    requires 0 <= k < |details| && details[k].driveId == 0
    ensures Unvaccinated(details[k]) in Completed(details, register, drives, lookupErrors)
  {
    var n := |details| - 1;
    assert details[..n + 1] == details;
    CompletedSnoc(details, register, drives, lookupErrors, n);
    if k < n {
      assert details[..n][k] == details[k];
      CompletedKeepsUnvaccinated(details[..n], register, drives, lookupErrors, k);
    }
  }

  /** Every row whose drive resolves appears with the vaccine name and date of the drive
      its own drive id names. */
  lemma {:induction false} CompletedUsesOwnDrive(details: seq<Detail>, register: map<int, Drive>, drives: seq<Drive>,
                                                 lookupErrors: map<DriveFilter, string>, k: int, m: int)
    requires UniqueDriveIds(drives) && RegisterConsistent(register, drives)
    requires LookupsFind(details, register, drives, lookupErrors)
    requires 0 <= k < |details| && 0 <= m < |drives| && drives[m].id == details[k].driveId != 0
    requires !DroppedRow(register, lookupErrors, details[k])
    ensures Vaccinated(details[k], drives[m]) in Completed(details, register, drives, lookupErrors)
  {
    var n := |details| - 1;
    assert details[..n + 1] == details;
    CompletedSnoc(details, register, drives, lookupErrors, n);
    if k < n {
      assert details[..n][k] == details[k];
      CompletedUsesOwnDrive(details[..n], register, drives, lookupErrors, k, m);
    } else {
      RowDriveIsOwnDrive(register, drives, details[k].driveId, m);
    }
  }

  /** Without dropped rows there is one output row per joined row. */
  lemma {:induction false} CompletedLength(details: seq<Detail>, register: map<int, Drive>, drives: seq<Drive>,
                                           lookupErrors: map<DriveFilter, string>)
    requires LookupsFind(details, register, drives, lookupErrors)
    requires forall k :: 0 <= k < |details| ==> !DroppedRow(register, lookupErrors, details[k])
    ensures |Completed(details, register, drives, lookupErrors)| == |details|
  {
    if details != [] {
      var n := |details| - 1;
      assert details[..n + 1] == details;
      CompletedSnoc(details, register, drives, lookupErrors, n);
      assert forall k :: 0 <= k < n ==> details[..n][k] == details[k];
      CompletedLength(details[..n], register, drives, lookupErrors);
    }
  }

  /** The mapping as written: the register is read and filled under the row's student
      id (`driveRegister[j.Id]`) although it is keyed by drive id. */
  function CompletedKeyedByStudent(details: seq<Detail>, register: map<int, Drive>, drives: seq<Drive>,
                                   lookupErrors: map<DriveFilter, string>): seq<StudentDetail>
    requires forall k :: 0 <= k < |details| ==>
      details[k].driveId == 0 || DriveIdIs(details[k].driveId) in lookupErrors || AnyDriveMatches(drives, DriveIdIs(details[k].driveId))
  {
    if details == [] then []
    else
      var d := details[0];
      assert forall k :: 0 <= k < |details[1..]| ==> details[1..][k] == details[k + 1];
      if d.driveId == 0 then [Unvaccinated(d)] + CompletedKeyedByStudent(details[1..], register, drives, lookupErrors)
      else if d.id in register then [Vaccinated(d, register[d.id])] + CompletedKeyedByStudent(details[1..], register, drives, lookupErrors)
      else if DriveIdIs(d.driveId) in lookupErrors then CompletedKeyedByStudent(details[1..], register, drives, lookupErrors)
      else
        var first := EarliestMatch(drives, DriveIdIs(d.driveId));
        [Vaccinated(d, first)] + CompletedKeyedByStudent(details[1..], register[d.id := first], drives, lookupErrors)
  }

  /** Vaccine X has drives 3 (day 10) and 7 (day 20); student 3 was vaccinated in drive
      7. Searching by vaccine X, the as-written mapping finds the student's id 3 in the
      register and reports drive 3's day 10; keyed by drive id the row reports day 20. */
  lemma StudentKeyedRegisterReportsWrongDrive()
    ensures var d3 := Drive(3, "X", 10, 100, "5");
      var d7 := Drive(7, "X", 20, 100, "5");
      var row := Detail(3, "Asha", "5", "F", "R1", "999", 7);
      var register := map[3 := d3, 7 := d7];
      && AnyDriveMatches([d3, d7], DriveIdIs(7))
      && CompletedKeyedByStudent([row], register, [d3, d7], map[])[0].vaccineDate == Some(10)
      && Completed([row], register, [d3, d7], map[]) == [Vaccinated(row, d7)]
      && Completed([row], register, [d3, d7], map[])[0].vaccineDate == Some(20)
  {
    var d3 := Drive(3, "X", 10, 100, "5");
    var d7 := Drive(7, "X", 20, 100, "5");
    var row := Detail(3, "Asha", "5", "F", "R1", "999", 7);
    var register := map[3 := d3, 7 := d7];
    assert [d3, d7][1..] == [d7];
    assert [row][..0] == [];
    assert Completed([row][..0], register, [d3, d7], map[]) == [];
  }

  // ---- Selection strings ----

  /** The query parameters of a student search. */
  datatype SearchRequest = SearchRequest(
    id: int,
    rollNo: string,
    className: string,
    name: string,
    vaccineName: string,
    pagination: Pagination)

  /** The parameters of a report request. */
  datatype ReportRequest = ReportRequest(className: string, vaccineName: string, requestId: string)

  function Opt(present: bool, c: Clause): seq<Clause>
  {
    if present then [c] else []
  }

  /** An optional clause constrains a row only when it is present. */
  lemma SatisfiesOpt(present: bool, c: Clause, d: Detail)
    ensures Satisfies(Opt(present, c), d) <==> (present ==> ClauseHolds(c, d))
  {
    if present {
      assert Opt(present, c)[0] == c;
    }
  }

  /** The search's clauses in the order the use case adds them: id, roll number, class,
      name, then the drives of the vaccine. */
  function SearchClauses(req: SearchRequest, driveIds: seq<int>): seq<Clause>
  {
    Opt(req.id != 0, IdEquals(req.id)) + Opt(req.rollNo != "", RollNoEquals(req.rollNo))
      + Opt(req.className != "", ClassEquals(req.className)) + Opt(req.name != "", NameContains(req.name))
      + Opt(req.vaccineName != "", DriveIdIn(driveIds))
  }

  /** The report's clauses: the drives of the vaccine first, then the class. */
  function ReportClauses(req: ReportRequest, driveIds: seq<int>): seq<Clause>
  {
    Opt(req.vaccineName != "", DriveIdIn(driveIds)) + Opt(req.className != "", ClassEquals(req.className))
  }

  /** A row satisfies the search exactly when it agrees with every supplied field: the
      id, roll number and class exactly, the name as a LIKE '%name%' match, and its drive
      is one of the vaccine's drives. No supplied field means no condition. */
  lemma SearchClausesSpec(req: SearchRequest, driveIds: seq<int>, d: Detail)
    ensures Satisfies(SearchClauses(req, driveIds), d) <==>
      && (req.id != 0 ==> d.id == req.id)
      && (req.rollNo != "" ==> d.rollNumber == req.rollNo)
      && (req.className != "" ==> d.className == req.className)
      && (req.name != "" ==> LikeMatch(d.name, "%" + req.name + "%"))
      && (req.vaccineName != "" ==> d.driveId != 0 && d.driveId in driveIds)
    ensures SearchClauses(req, driveIds) == [] <==>
      req.id == 0 && req.rollNo == "" && req.className == "" && req.name == "" && req.vaccineName == ""
  {
    var p0 := Opt(req.id != 0, IdEquals(req.id));
    var p1 := Opt(req.rollNo != "", RollNoEquals(req.rollNo));
    var p2 := Opt(req.className != "", ClassEquals(req.className));
    var p3 := Opt(req.name != "", NameContains(req.name));
    var p4 := Opt(req.vaccineName != "", DriveIdIn(driveIds));
    SatisfiesOpt(req.id != 0, IdEquals(req.id), d);
    SatisfiesOpt(req.rollNo != "", RollNoEquals(req.rollNo), d);
    SatisfiesOpt(req.className != "", ClassEquals(req.className), d);
    SatisfiesOpt(req.name != "", NameContains(req.name), d);
    SatisfiesOpt(req.vaccineName != "", DriveIdIn(driveIds), d);
    SatisfiesAppend(p0, p1, d);
    SatisfiesAppend(p0 + p1, p2, d);
    SatisfiesAppend(p0 + p1 + p2, p3, d);
    SatisfiesAppend(p0 + p1 + p2 + p3, p4, d);
  }

  /** The IN clause only looks at which drive ids are listed, not at their order. */
  lemma DriveOrderIrrelevant(ids1: seq<int>, ids2: seq<int>, d: Detail)
    requires forall x :: x in ids1 <==> x in ids2
    ensures ClauseHolds(DriveIdIn(ids1), d) <==> ClauseHolds(DriveIdIn(ids2), d)
  {
  }

  /** The drive ids of a vaccine's drives in the inventory. */
  ghost function DriveIdsOf(drives: seq<Drive>, name: string): set<int>
  {
    set k | 0 <= k < |drives| && drives[k].vaccineName == name :: drives[k].id
  }

  /** The report needs every joined row's drive to resolve: the lookup of each record's
      non-zero drive id either fails or finds the drive (the code reads the first lookup
      result unchecked). Drive id 0 marks a student without a record and is never looked up. */
  ghost predicate RecordDrivesResolve(records: seq<VaccinationRecord>, drives: seq<Drive>, lookupErrors: map<DriveFilter, string>)
  {
    forall k :: 0 <= k < |records| ==>
      || records[k].driveId == 0
      || DriveIdIs(records[k].driveId) in lookupErrors
      || exists m :: 0 <= m < |drives| && drives[m].id == records[k].driveId
  }

  lemma JoinLookupsFind(students: seq<Student>, records: seq<VaccinationRecord>, sel: seq<Clause>, p: Pagination,
                        register: map<int, Drive>, drives: seq<Drive>, lookupErrors: map<DriveFilter, string>)
    requires RecordDrivesResolve(records, drives, lookupErrors)
    ensures LookupsFind(GetStudentVaccinationRecord(students, records, sel, p), register, drives, lookupErrors)
  {
    var rows := GetStudentVaccinationRecord(students, records, sel, p);
    GetStudentVaccinationRecordSpec(students, records, sel, p);
    forall k | 0 <= k < |rows| ensures Resolvable(register, drives, lookupErrors, rows[k]) {
      if rows[k].driveId != 0 && DriveIdIs(rows[k].driveId) !in lookupErrors {
        JoinedDriveIds(students, records, true, rows[k]);
        var i :| 0 <= i < |records| && records[i].driveId == rows[k].driveId && records[i].studentId == rows[k].id;
        AnyDriveMatchesSpec(drives, DriveIdIs(rows[k].driveId));
      }
    }
  }

  // ---- The report workbook ----

  const VaccinationReportHeaders: seq<Value> :=
    [Text("Name"), Text("Class"), Text("Gender"), Text("Roll Number"), Text("Phone Number"),
     Text("Vaccination Status"), Text("Vaccine Name"), Text("Vaccination Date")]

  /** The cells of a student's report row, from column A: name, class, gender, roll
      number, phone, then "Non Vaccinated", or "Vaccinated" with vaccine name and date. */
  function ReportRow(s: StudentDetail): seq<Value>
  {
    [Text(s.name), Text(s.className), Text(s.gender), Text(s.rollNo), Text(s.phoneNo)]
      + (if !s.vaccination then [Text("Non Vaccinated")]
         else [Text("Vaccinated"), Text(s.vaccineName), Text(if s.vaccineDate.Some? then DateText(s.vaccineDate.value) else "")])
  }

  /** The sheet: the header row, then one row per student. */
  function VaccinationReport(details: seq<StudentDetail>): (sheet: seq<seq<Value>>)
    ensures |sheet| == |details| + 1
  {
    [VaccinationReportHeaders] + seq(|details|, k requires 0 <= k < |details| => ReportRow(details[k]))
  }

  /** Student k is on spreadsheet row k + 2; column F says whether the student is
      vaccinated, and columns G and H are written only for a vaccinated student. */
  lemma VaccinationReportSpec(details: seq<StudentDetail>)
    ensures var sheet := VaccinationReport(details);
      && sheet[0] == VaccinationReportHeaders
      && forall k :: 0 <= k < |details| ==>
        && sheet[k + 1][..5] == [Text(details[k].name), Text(details[k].className), Text(details[k].gender),
                                 Text(details[k].rollNo), Text(details[k].phoneNo)]
        && sheet[k + 1][5] == (if details[k].vaccination then Text("Vaccinated") else Text("Non Vaccinated"))
        && |sheet[k + 1]| == (if details[k].vaccination then 8 else 6)
        && (details[k].vaccination ==> sheet[k + 1][6] == Text(details[k].vaccineName))
        && (details[k].vaccination ==>
              sheet[k + 1][7] == Text(if details[k].vaccineDate.Some? then DateText(details[k].vaccineDate.value) else ""))
  {
  }

  /** The report faults: the database's answers to the lookups and the query, and the
      file system's and object store's answers to saving and uploading the report. */
  datatype ReportFaults = ReportFaults(
    lookupErrors: map<DriveFilter, string>,
    queryError: Option<string>,
    saveFails: bool,
    putError: Option<string>)

  /** The search faults: the database's answers to the lookups, the count and the query. */
  datatype SearchFaults = SearchFaults(
    lookupErrors: map<DriveFilter, string>,
    countError: Option<string>,
    queryError: Option<string>)

  /** One step of building a selection: nothing when the field was not supplied,
      otherwise the clause alone on the empty string or appended after " AND ". */
  method AddClause(queryString: string, ghost cs: seq<Clause>, present: bool, c: Clause) returns (q: string)
    requires queryString == SelectionString(cs)
    ensures q == SelectionString(cs + Opt(present, c))
  {
    if !present {
      assert cs + Opt(present, c) == cs;
      q := queryString;
    } else {
      SelectionStringEmpty(cs);
      SelectionStringSnoc(cs, c);
      var clause := ClauseText(c);
      if queryString == "" {
        q := clause;
      } else {
        q := queryString + " AND " + clause;
      }
    }
  }

  /** The register loop: each drive of a lookup under its own id. */
  method RegisterDrives(drive: seq<Drive>) returns (register: map<int, Drive>)
    ensures forall x :: x in register ==> register[x] in drive && register[x].id == x
    ensures forall d :: d in drive ==> d.id in register
  {
    register := map[];
    var i := 0;
    while i < |drive|
      invariant 0 <= i <= |drive|
      invariant forall x :: x in register ==> register[x] in drive && register[x].id == x
      invariant forall j :: 0 <= j < i ==> drive[j].id in register
    {
      register := register[drive[i].id := drive[i]];
      i := i + 1;
    }
  }

  /** The keys of the register, each once, in the map's iteration order (which Go leaves
      unspecified: any order may come out). */
  method RegisterKeys(register: map<int, Drive>) returns (driveIds: seq<int>)
    ensures forall x :: x in driveIds <==> x in register
    ensures forall i, j :: 0 <= i < j < |driveIds| ==> driveIds[i] != driveIds[j]
  {
    driveIds := [];
    var rest := register.Keys;
    while rest != {}
      invariant rest <= register.Keys
      invariant forall x :: x in driveIds <==> x in register && x !in rest
      invariant forall i, j :: 0 <= i < j < |driveIds| ==> driveIds[i] != driveIds[j]
      decreases |rest|
    {
      assert (forall y :: y !in rest) ==> rest == {};
      var x :| x in rest;
      driveIds := driveIds + [x];
      rest := rest - {x};
    }
  }

  /** A register filled from the lookup by vaccine name holds exactly that vaccine's
      drives, each under its own id. */
  lemma RegisterOfLookup(drives: seq<Drive>, name: string, register: map<int, Drive>)
    requires forall x :: x in register ==> register[x] in GetVaccineInventory(drives, VaccineNameIs(name)) && register[x].id == x
    requires forall d :: d in GetVaccineInventory(drives, VaccineNameIs(name)) ==> d.id in register
    ensures RegisterConsistent(register, drives)
    ensures forall x :: x in register ==> register[x].vaccineName == name
    ensures register.Keys == DriveIdsOf(drives, name)
  {
    LookupMembers(drives, VaccineNameIs(name));
    RegisterOfDrives(drives, name, register);
  }

  lemma RegisterOfDrives(drives: seq<Drive>, name: string, register: map<int, Drive>)
    requires forall x :: x in register ==> register[x] in drives && register[x].vaccineName == name && register[x].id == x
    requires forall k :: 0 <= k < |drives| && drives[k].vaccineName == name ==> drives[k].id in register
    ensures RegisterConsistent(register, drives)
    ensures register.Keys == DriveIdsOf(drives, name)
  {
    forall x | x in register ensures x in DriveIdsOf(drives, name) {
      var k :| 0 <= k < |drives| && drives[k] == register[x];
    }
  }

  /** Saving a file and then removing it leaves the rest of the file system as it was. */
  lemma StageThenRemove(local: map<string, Blob>, name: string, b: Blob)
    ensures name in local[name := b] && local[name := b][name] == b
    ensures local[name := b] - {name} == local - {name}
  {
  }

  /** After the update, the id lookup finds exactly the updated row, which is the only row
      with that id. */
  lemma UpdatedRowFound(rows: seq<Student>, patch: Student, k: int)
    requires UniqueIds(rows)
    requires 0 <= k < |rows| && rows[k].id == patch.id
    ensures forall m :: 0 <= m < |rows| && rows[m].id == patch.id ==> m == k
    ensures GetStudents(UpdateStudentWhereId(rows, patch.id, StudentChanges(patch)), StudentIdIs(patch.id))
         == [ApplyStudentChanges(rows[k], StudentChanges(patch))]
  {
    var after := UpdateStudentWhereId(rows, patch.id, StudentChanges(patch));
    forall m | 0 <= m < |rows| ensures after[m].id == rows[m].id {
      ApplyStudentPatch(rows[m], patch);
    }
    assert UniqueIds(after);
    GetStudentById(after, patch.id);
    assert after[k].id == patch.id;
  }

  class StudentManagementUsecase {
    const students: StudentTable
    const records: VaccinationRecordTable
    const inventory: InventoryTable
    const store: BlobStore
    const cfg: Config

    ghost predicate Valid()
      reads this, students, records, inventory
    {
      students.Valid() && records.Valid() && inventory.Valid()
    }

    constructor (students: StudentTable, records: VaccinationRecordTable, inventory: InventoryTable,
                 store: BlobStore, cfg: Config)
      ensures this.students == students && this.records == records && this.inventory == inventory
      ensures this.store == store && this.cfg == cfg
    {
      this.students := students;
      this.records := records;
      this.inventory := inventory;
      this.store := store;
      this.cfg := cfg;
    }

    /** UpdateStudentRecord: look the student up by id, refuse when no row comes back
        (or its id differs), otherwise update and return the stored row. The second
        lookup after the update is taken to succeed. */
    method UpdateStudentRecord(patch: Student, lookupError: Option<string>, updateError: Option<string>)
      returns (student: Student, err: Option<string>)
      requires Valid()
      modifies students
      ensures Valid()
      ensures lookupError.Some? ==> err == lookupError && student == patch && students.rows == old(students.rows)
      ensures lookupError.None? && (forall k :: 0 <= k < |old(students.rows)| ==> old(students.rows)[k].id != patch.id) ==>
        err == Some(NotAvailable(patch.id)) && student == patch && students.rows == old(students.rows)
      ensures lookupError.None? ==> forall k :: 0 <= k < |old(students.rows)| && old(students.rows)[k].id == patch.id ==>
        && (updateError.Some? ==> err == updateError && student == patch && students.rows == old(students.rows))
        && (updateError.None? ==>
              && err.None?
              && students.rows == UpdateStudentWhereId(old(students.rows), patch.id, StudentChanges(patch))
              && student == ApplyStudentChanges(old(students.rows)[k], StudentChanges(patch)))
    {
      if lookupError.Some? {
        return patch, lookupError;
      }
      var studentData := GetStudents(students.rows, StudentIdIs(patch.id));
      GetStudentById(students.rows, patch.id);
      if |studentData| == 0 || studentData[0].id != patch.id {
        return patch, Some(NotAvailable(patch.id));
      }
      ghost var k :| 0 <= k < |students.rows| && students.rows[k].id == patch.id;
      ghost var before := students.rows;
      err := students.UpdateStudents(patch, updateError);
      if err.Some? {
        return patch, err;
      }
      UpdatedRowFound(before, patch, k);
      studentData := GetStudents(students.rows, StudentIdIs(patch.id));
      student := studentData[0];
    }

    /** CreateStudentRecords: the repository's batch insert, one outcome per record. */
    method CreateStudentRecords(input: seq<Student>, answers: seq<Option<string>>) returns (outcomes: seq<Outcome<Student>>)
      requires Valid()
      modifies students
      ensures Valid()
      ensures |outcomes| == |input|
      ensures forall k :: 0 <= k < |input| ==>
        && outcomes[k].status == InsertAnswer(answers, k).None?
        && outcomes[k].record.(id := input[k].id) == input[k]
      ensures students.rows == old(students.rows) + AcceptedRecords(outcomes)
    {
      outcomes := students.CreateStudentRecord(input, answers);
    }

    /** verifyDriveExists: the inventory lookup with DriveLookupFilter. */
    method VerifyDriveExists(id: int, name: string, lookupErrors: map<DriveFilter, string>)
      returns (drives: seq<Drive>, err: Option<string>)
      ensures err == LookupFailure(lookupErrors, DriveLookupFilter(id, name))
      ensures err.Some? ==> drives == []
      ensures err.None? ==> drives == GetVaccineInventory(inventory.rows, DriveLookupFilter(id, name))
    {
      var selection: DriveFilter;
      if id != 0 {
        selection := DriveIdIs(id);
      } else {
        selection := VaccineNameIs(name);
      }
      err := LookupFailure(lookupErrors, selection);
      drives := if err.Some? then [] else GetVaccineInventory(inventory.rows, selection);
    }

    /** One record's checks: its drive must exist, then its student. */
    method CheckRecord(j: VaccinationRecord, lookupErrors: map<DriveFilter, string>, studentLookupErrors: set<int>)
      returns (ok: bool, rejection: Outcome<VaccinationRecord>)
      ensures ok == Checked(inventory.rows, lookupErrors, students.rows, studentLookupErrors, j)
      ensures !ok ==> rejection == Rejection(inventory.rows, lookupErrors, j)
    {
      var driveData, err := VerifyDriveExists(j.driveId, "", lookupErrors);
      LookupEmpty(inventory.rows, DriveLookupFilter(j.driveId, ""));
      if err.Some? || |driveData| == 0 {
        return false, Outcome(j, false, NoDriveWithDriveId(j.driveId));
      }
      var resp := if j.studentId in studentLookupErrors then [] else GetStudents(students.rows, StudentIdIs(j.studentId));
      StudentLookupSize(students.rows, j.studentId);
      if |resp| != 1 {
        return false, Outcome(j, false, NoStudentWithId(j.studentId));
      }
      return true, Outcome(j, true, "");
    }

    /** The checking loop of CreateVaccinationRecords: each record's drive, then its
        student; the records passing both and the rejections, each in input order. */
    method CheckRecords(input: seq<VaccinationRecord>, lookupErrors: map<DriveFilter, string>, studentLookupErrors: set<int>)
      returns (validRecords: seq<VaccinationRecord>, invalidRecords: seq<Outcome<VaccinationRecord>>)
      ensures validRecords == CheckedRecords(inventory.rows, lookupErrors, students.rows, studentLookupErrors, input)
      ensures invalidRecords == Rejections(inventory.rows, lookupErrors, students.rows, studentLookupErrors, input)
    {
      validRecords, invalidRecords := [], [];
      var i := 0;
      while i < |input|
        invariant 0 <= i <= |input|
        invariant validRecords == CheckedRecords(inventory.rows, lookupErrors, students.rows, studentLookupErrors, input[..i])
        invariant invalidRecords == Rejections(inventory.rows, lookupErrors, students.rows, studentLookupErrors, input[..i])
      {
        var j := input[i];
        CheckStep(inventory.rows, lookupErrors, students.rows, studentLookupErrors, input, i);
        var ok, rejection := CheckRecord(j, lookupErrors, studentLookupErrors);
        if ok {
          validRecords := validRecords + [j];
        } else {
          invalidRecords := invalidRecords + [rejection];
        }
        i := i + 1;
      }
      assert input[..|input|] == input;
    }

    /** CreateVaccinationRecords: insert the records passing both checks in one batch and
        return the batch's outcomes followed by the rejections, both in input order. */
    method CreateVaccinationRecords(input: seq<VaccinationRecord>, lookupErrors: map<DriveFilter, string>,
                                    studentLookupErrors: set<int>, answers: seq<Option<string>>)
      returns (outcomes: seq<Outcome<VaccinationRecord>>)
      requires Valid()
      modifies records
      ensures Valid()
      ensures var valid := CheckedRecords(inventory.rows, lookupErrors, students.rows, studentLookupErrors, input);
        && |outcomes| == |input|
        && outcomes[|valid|..] == Rejections(inventory.rows, lookupErrors, students.rows, studentLookupErrors, input)
        && (forall k :: 0 <= k < |valid| ==>
              && outcomes[k].status == InsertAnswer(answers, k).None?
              && outcomes[k].record.(id := valid[k].id) == valid[k])
        && records.rows == old(records.rows) + AcceptedRecords(outcomes)
    {
      var validRecords, invalidRecords := CheckRecords(input, lookupErrors, studentLookupErrors);
      RejectionsSpec(inventory.rows, lookupErrors, students.rows, studentLookupErrors, input);
      var created := records.CreateVaccinationRecord(validRecords, answers);
      assert validRecords == CheckedRecords(inventory.rows, lookupErrors, students.rows, studentLookupErrors, input);
      outcomes := created + invalidRecords;
      assert outcomes[|validRecords|..] == invalidRecords;
      forall k | 0 <= k < |validRecords|
        ensures outcomes[k].status == InsertAnswer(answers, k).None?
        ensures outcomes[k].record.(id := validRecords[k].id) == validRecords[k]
      {
        assert outcomes[k] == created[k];
      }
      assert forall k :: 0 <= k < |invalidRecords| ==> !invalidRecords[k].status;
      AcceptedIgnoresRejected(created, invalidRecords);
    }

    /** The drives of a vaccine by name, the register they fill (keyed by drive id) and
        the register's keys in map-iteration order, which Go leaves unspecified. */
    method DrivesForVaccine(name: string, lookupErrors: map<DriveFilter, string>)
      returns (register: map<int, Drive>, driveIds: seq<int>, err: Option<string>)
      requires inventory.Valid()
      ensures err == LookupFailure(lookupErrors, VaccineNameIs(name))
      ensures err.Some? ==> register == map[] && driveIds == []
      ensures RegisterConsistent(register, inventory.rows)
      ensures forall x :: x in register ==> register[x].vaccineName == name
      ensures err.None? ==> register.Keys == DriveIdsOf(inventory.rows, name)
      ensures forall x :: x in driveIds <==> x in register
      ensures forall i, j :: 0 <= i < j < |driveIds| ==> driveIds[i] != driveIds[j]
    {
      var drive;
      drive, err := VerifyDriveExists(0, name, lookupErrors);
      register := map[];
      driveIds := [];
      if err.Some? {
        return;
      }
      register := RegisterDrives(drive);
      RegisterOfLookup(inventory.rows, name, register);
      driveIds := RegisterKeys(register);
    }

    /** The search's selection string, built clause by clause. */
    method SearchSelection(req: SearchRequest, driveIds: seq<int>) returns (queryString: string)
      ensures queryString == SelectionString(SearchClauses(req, driveIds))
    {
      ghost var cs0 := Opt(req.id != 0, IdEquals(req.id));
      ghost var cs1 := cs0 + Opt(req.rollNo != "", RollNoEquals(req.rollNo));
      ghost var cs2 := cs1 + Opt(req.className != "", ClassEquals(req.className));
      ghost var cs3 := cs2 + Opt(req.name != "", NameContains(req.name));
      queryString := AddClause("", [], req.id != 0, IdEquals(req.id));
      queryString := AddClause(queryString, cs0, req.rollNo != "", RollNoEquals(req.rollNo));
      queryString := AddClause(queryString, cs1, req.className != "", ClassEquals(req.className));
      queryString := AddClause(queryString, cs2, req.name != "", NameContains(req.name));
      queryString := AddClause(queryString, cs3, req.vaccineName != "", DriveIdIn(driveIds));
    }

    /** The report's selection string: the drive IN clause, then the class clause. */
    method ReportSelection(req: ReportRequest, driveIds: seq<int>) returns (queryString: string)
      ensures queryString == SelectionString(ReportClauses(req, driveIds))
    {
      ghost var cs0 := Opt(req.vaccineName != "", DriveIdIn(driveIds));
      queryString := AddClause("", [], req.vaccineName != "", DriveIdIn(driveIds));
      queryString := AddClause(queryString, cs0, req.className != "", ClassEquals(req.className));
    }

    /** One row of the consolidated-response loop: no drive, the cached drive, or an id
        lookup whose first row is cached; a failed lookup drops the row and is reported. */
    method CompleteRow(j: Detail, register0: map<int, Drive>, register: map<int, Drive>,
                       lookupErrors: map<DriveFilter, string>)
      returns (row: seq<StudentDetail>, register1: map<int, Drive>, lookedUp: bool, lookupErr: Option<string>)
      requires Resolvable(register0, inventory.rows, lookupErrors, j)
      requires Cached(register, register0, inventory.rows, lookupErrors)
      ensures Cached(register1, register0, inventory.rows, lookupErrors)
      ensures row == CompletedRow(register0, inventory.rows, lookupErrors, j)
      ensures DroppedRow(register0, lookupErrors, j) ==> lookedUp
      ensures lookedUp ==> (lookupErr.Some? <==> DroppedRow(register0, lookupErrors, j))
      ensures lookedUp <==> j.driveId != 0 && j.driveId !in register
      ensures lookedUp ==> lookupErr == LookupFailure(lookupErrors, DriveIdIs(j.driveId))
      ensures register1.Keys == register.Keys + (if lookedUp && lookupErr.None? then {j.driveId} else {})
    {
      register1, lookedUp, lookupErr := register, false, None;
      if j.driveId == 0 {
        row := [Unvaccinated(j)];
      } else if j.driveId in register {
        row := [Vaccinated(j, register[j.driveId])];
      } else {
        var driveInfo;
        lookedUp := true;
        driveInfo, lookupErr := VerifyDriveExists(j.driveId, "", lookupErrors);
        if lookupErr.None? {
          FirstRowIsEarliest(inventory.rows, DriveIdIs(j.driveId));
          register1 := register[j.driveId := driveInfo[0]];
          row := [Vaccinated(j, driveInfo[0])];
        } else {
          row := [];
        }
      }
    }

    /** The consolidated-response loop, keyed by drive id: resolve each row's drive from
        the register or by an id lookup (caching what it finds) and drop the rows whose
        lookup fails. The error is that of the last lookup made. */
    method CompleteDetails(details: seq<Detail>, register0: map<int, Drive>, lookupErrors: map<DriveFilter, string>)
      returns (out: seq<StudentDetail>, err: Option<string>)
      requires LookupsFind(details, register0, inventory.rows, lookupErrors)
      ensures out == Completed(details, register0, inventory.rows, lookupErrors)
      ensures err.Some? ==> exists k :: 0 <= k < |details| && DroppedRow(register0, lookupErrors, details[k])
      ensures (forall k :: 0 <= k < |details| ==> !DroppedRow(register0, lookupErrors, details[k])) ==> err.None?
      ensures err == LastLookupError(details, register0, lookupErrors, |details|)
    {
      var register := register0;
      out := [];
      err := None;
      var i := 0;
      while i < |details|
        invariant 0 <= i <= |details|
        invariant out == Completed(details[..i], register0, inventory.rows, lookupErrors)
        invariant Cached(register, register0, inventory.rows, lookupErrors)
        invariant register.Keys == register0.Keys + FoundIds(details, lookupErrors, i)
        invariant err == LastLookupError(details, register0, lookupErrors, i)
      {
        out, register, err := CompleteNext(details, register0, lookupErrors, i, out, register, err);
        i := i + 1;
      }
      assert details[..|details|] == details;
      LastLookupErrorDropped(details, register0, lookupErrors, |details|);
    }

    /** Row i of the consolidated-response loop: append its output, cache what its lookup
        finds and take its lookup's answer as the error. */
    method CompleteNext(details: seq<Detail>, register0: map<int, Drive>, lookupErrors: map<DriveFilter, string>,
                        i: int, out: seq<StudentDetail>, register: map<int, Drive>, err: Option<string>)
      returns (out1: seq<StudentDetail>, register1: map<int, Drive>, err1: Option<string>)
      requires 0 <= i < |details|
      requires LookupsFind(details, register0, inventory.rows, lookupErrors)
      requires LookupsFind(details[..i], register0, inventory.rows, lookupErrors)
      requires out == Completed(details[..i], register0, inventory.rows, lookupErrors)
      requires Cached(register, register0, inventory.rows, lookupErrors)
      requires register.Keys == register0.Keys + FoundIds(details, lookupErrors, i)
      requires err == LastLookupError(details, register0, lookupErrors, i)
      ensures LookupsFind(details[..i + 1], register0, inventory.rows, lookupErrors)
      ensures out1 == Completed(details[..i + 1], register0, inventory.rows, lookupErrors)
      ensures Cached(register1, register0, inventory.rows, lookupErrors)
      ensures register1.Keys == register0.Keys + FoundIds(details, lookupErrors, i + 1)
      ensures err1 == LastLookupError(details, register0, lookupErrors, i + 1)
    {
      CompletedSnoc(details, register0, inventory.rows, lookupErrors, i);
      assert LookupsFind(details[..i + 1], register0, inventory.rows, lookupErrors) by {
        assert forall k :: 0 <= k < i + 1 ==> details[..i + 1][k] == details[k];
      }
      var row, lookedUp, lookupErr;
      row, register1, lookedUp, lookupErr := CompleteRow(details[i], register0, register, lookupErrors);
      LookupStep(details, register0, register, register1, lookupErrors, i, lookedUp, lookupErr, err);
      out1 := out + row;
      err1 := if lookedUp then lookupErr else err;
    }

    /** GetStudentVaccinationRecords: build the selection, resolve the vaccine's drives
        when a vaccine name is given, count the LEFT JOIN rows, fetch the page and
        complete each row. The drive ids and the register are returned as ghosts so the
        contract can name them. */
    method GetStudentVaccinationRecords(req: SearchRequest, faults: SearchFaults)
      returns (total: int, details: seq<StudentDetail>, err: Option<string>,
               ghost driveIds: seq<int>, ghost register: map<int, Drive>)
      requires Valid()
      requires RecordDrivesResolve(records.rows, inventory.rows, faults.lookupErrors)
      ensures req.vaccineName != "" && VaccineNameIs(req.vaccineName) in faults.lookupErrors ==>
        err == Some(faults.lookupErrors[VaccineNameIs(req.vaccineName)]) && total == 0 && details == []
      ensures req.vaccineName != "" && VaccineNameIs(req.vaccineName) !in faults.lookupErrors
              && DriveIdsOf(inventory.rows, req.vaccineName) == {} ==>
        err == Some(NoDriveForVaccine(req.vaccineName)) && total == 0 && details == []
      ensures req.vaccineName == "" || (VaccineNameIs(req.vaccineName) !in faults.lookupErrors
                                        && DriveIdsOf(inventory.rows, req.vaccineName) != {}) ==>
        var sel := SearchClauses(req, driveIds);
        && (req.vaccineName != "" ==> forall x :: x in driveIds <==> x in DriveIdsOf(inventory.rows, req.vaccineName))
        && RegisterConsistent(register, inventory.rows)
        && (faults.countError.Some? ==> err == faults.countError && total == 0 && details == [])
        && (faults.countError.None? ==> total == GetStudentVaccinationRecordCount(students.rows, records.rows, sel, LeftJoin))
        && (faults.countError.None? && faults.queryError.Some? ==> err == faults.queryError && details == [])
        && (faults.countError.None? && faults.queryError.None? ==>
              var rows := GetStudentVaccinationRecord(students.rows, records.rows, sel, req.pagination);
              && LookupsFind(rows, register, inventory.rows, faults.lookupErrors)
              && details == Completed(rows, register, inventory.rows, faults.lookupErrors)
              && err == LastLookupError(rows, register, faults.lookupErrors, |rows|)
              && (err.Some? ==> exists k :: 0 <= k < |rows| && DroppedRow(register, faults.lookupErrors, rows[k])))
    {
      total, details, err := 0, [], None;
      var ids: seq<int>, driveRegister: map<int, Drive> := [], map[];
      driveIds, register := ids, driveRegister;
      if req.vaccineName != "" {
        driveRegister, ids, err := DrivesForVaccine(req.vaccineName, faults.lookupErrors);
        driveIds, register := ids, driveRegister;
        if err.Some? {
          return;
        }
        if |driveRegister| == 0 {
          assert driveRegister.Keys == {};
          return 0, [], Some(NoDriveForVaccine(req.vaccineName)), driveIds, register;
        }
        assert driveRegister.Keys != {};
      }
      var queryString := SearchSelection(req, ids);
      var sel := SearchClauses(req, ids);
      if faults.countError.Some? {
        return 0, [], faults.countError, driveIds, register;
      }
      total := GetStudentVaccinationRecordCount(students.rows, records.rows, sel, LeftJoin);
      if faults.queryError.Some? {
        return total, [], faults.queryError, driveIds, register;
      }
      var vaccinationDetails := GetStudentVaccinationRecord(students.rows, records.rows, sel, req.pagination);
      JoinLookupsFind(students.rows, records.rows, sel, req.pagination, driveRegister, inventory.rows, faults.lookupErrors);
      details, err := CompleteDetails(vaccinationDetails, driveRegister, faults.lookupErrors);
    }

    /** GenerateVaccinationReport: select the rows of the vaccine's drives and the
        class, complete them, write the report workbook to Report.xlsx and upload it
        under reports/<request id>/; the result is the report's address. */
    method GenerateVaccinationReport(req: ReportRequest, faults: ReportFaults)
      returns (url: string, err: Option<string>, ghost driveIds: seq<int>, ghost register: map<int, Drive>)
      requires Valid()
      requires RecordDrivesResolve(records.rows, inventory.rows, faults.lookupErrors)
      modifies store
      ensures req.vaccineName != "" && VaccineNameIs(req.vaccineName) in faults.lookupErrors ==>
        url == "" && err == Some(faults.lookupErrors[VaccineNameIs(req.vaccineName)]) && unchanged(store)
      ensures req.vaccineName != "" && VaccineNameIs(req.vaccineName) !in faults.lookupErrors
              && DriveIdsOf(inventory.rows, req.vaccineName) == {} ==>
        url == "" && err == Some(NoReportData(req.vaccineName)) && unchanged(store)
      ensures req.vaccineName == "" || (VaccineNameIs(req.vaccineName) !in faults.lookupErrors
                                        && DriveIdsOf(inventory.rows, req.vaccineName) != {}) ==>
        var sel := ReportClauses(req, driveIds);
        var rows := GetStudentVaccinationRecord(students.rows, records.rows, sel, Pagination(0, 0));
        var key := ObjectKey("reports/", req.requestId, ReportFileName);
        && (req.vaccineName != "" ==> forall x :: x in driveIds <==> x in DriveIdsOf(inventory.rows, req.vaccineName))
        && RegisterConsistent(register, inventory.rows)
        && LookupsFind(rows, register, inventory.rows, faults.lookupErrors)
        && (faults.queryError.Some? ==> url == "" && err == faults.queryError && unchanged(store))
        && (faults.queryError.None? && faults.saveFails ==> url == "" && err == Some(InternalServerError) && unchanged(store))
        && (faults.queryError.None? && !faults.saveFails ==>
              var sheet := Workbook(VaccinationReport(Completed(rows, register, inventory.rows, faults.lookupErrors)));
              && store.local == old(store.local) - {ReportFileName}
              && (faults.putError.Some? ==> url == "" && err == faults.putError && store.objects == old(store.objects))
              && (faults.putError.None? ==>
                    && err.None? && url == ObjectUrl(cfg, key)
                    && store.objects == old(store.objects)[(cfg.bucket, key) := sheet]))
    {
      var ids: seq<int>, driveRegister: map<int, Drive> := [], map[];
      driveIds, register := ids, driveRegister;
      if req.vaccineName != "" {
        driveRegister, ids, err := DrivesForVaccine(req.vaccineName, faults.lookupErrors);
        driveIds, register := ids, driveRegister;
        if err.Some? {
          return "", err, driveIds, register;
        }
        if |driveRegister| == 0 {
          assert driveRegister.Keys == {};
          return "", Some(NoReportData(req.vaccineName)), driveIds, register;
        }
        assert driveRegister.Keys != {};
      }
      var queryString := ReportSelection(req, ids);
      var sel := ReportClauses(req, ids);
      JoinLookupsFind(students.rows, records.rows, sel, Pagination(0, 0), driveRegister, inventory.rows, faults.lookupErrors);
      if faults.queryError.Some? {
        return "", faults.queryError, driveIds, register;
      }
      var vaccinationDetails := GetStudentVaccinationRecord(students.rows, records.rows, sel, Pagination(0, 0));
      var studentDetails, lookupErr := CompleteDetails(vaccinationDetails, driveRegister, faults.lookupErrors);
      var reportSheet := ReportSheet(studentDetails);
      url, err := SaveAndUpload(reportSheet, req.requestId, faults.saveFails, faults.putError);
    }

    /** The workbook rows of the report: the header row, then one row per student. */
    method ReportSheet(studentDetails: seq<StudentDetail>) returns (reportSheet: seq<seq<Value>>)
      ensures reportSheet == VaccinationReport(studentDetails)
    {
      reportSheet := [VaccinationReportHeaders];
      var i := 0;
      while i < |studentDetails|
        invariant 0 <= i <= |studentDetails|
        invariant reportSheet == VaccinationReport(studentDetails[..i])
      {
        reportSheet := reportSheet + [ReportRow(studentDetails[i])];
        i := i + 1;
      }
      assert studentDetails[..|studentDetails|] == studentDetails;
    }

    /** Write the workbook to Report.xlsx and upload it under reports/<request id>/; a
        failed save answers with the generic server error and leaves the store alone. */
    method SaveAndUpload(reportSheet: seq<seq<Value>>, requestId: string, saveFails: bool, putError: Option<string>)
      returns (url: string, err: Option<string>)
      modifies store
      ensures saveFails ==> url == "" && err == Some(InternalServerError) && unchanged(store)
      ensures !saveFails ==>
        var key := ObjectKey("reports/", requestId, ReportFileName);
        && store.local == old(store.local) - {ReportFileName}
        && (putError.Some? ==> url == "" && err == putError && store.objects == old(store.objects))
        && (putError.None? ==>
              && err.None? && url == ObjectUrl(cfg, key)
              && store.objects == old(store.objects)[(cfg.bucket, key) := Workbook(reportSheet)])
    {
      if saveFails {
        return "", Some(InternalServerError);
      }
      var sheet := Workbook(reportSheet);
      StageThenRemove(store.local, ReportFileName, sheet);
      store.local := store.local[ReportFileName := sheet];
      var uploaded;
      uploaded, err := store.UploadFileToMinio(ReportFileName, cfg.bucket, "reports/", requestId, putError);
      url := if err.Some? then "" else ObjectUrl(cfg, uploaded);
    }
  }
}
