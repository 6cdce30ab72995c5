/** The student_vaccination_records table and the joined student/record query:
    repository/studentvaccinationrecords.go. */
module VaccinationRecordRepo {
  import opened Common
  import opened Text
  import opened StudentRepo

  /** A vaccination record: which student was vaccinated in which drive. */
  datatype VaccinationRecord = VaccinationRecord(id: int, studentId: int, driveId: int)

  /** One row of `student_management s JOIN student_vaccination_records v`: the student's
      columns and v.drive_id, which is 0 when a LEFT JOIN found no record. */
  datatype Detail = Detail(
    id: int,
    name: string,
    className: string,
    gender: string,
    rollNumber: string,
    phoneNo: string,
    driveId: int)

  function DetailOf(s: Student, driveId: int): Detail
  {
    Detail(s.id, s.name, s.className, s.gender, s.rollNumber, s.phoneNo, driveId)
  }

  function RecordsOf(records: seq<VaccinationRecord>, studentId: int): seq<VaccinationRecord>
  {
    Filter(records, (r: VaccinationRecord) => r.studentId == studentId)
  }

  /** The joined rows of one student: one per record of the student; for the LEFT JOIN a
      student without records still gives one row, with drive id 0. */
  function JoinedRowsOf(s: Student, records: seq<VaccinationRecord>, left: bool): (r: seq<Detail>)
    ensures forall k :: 0 <= k < |r| ==> r[k] == DetailOf(s, r[k].driveId)
    ensures left ==> |r| >= 1
  {
    var recs := RecordsOf(records, s.id);
    if left && recs == [] then [DetailOf(s, 0)]
    else seq(|recs|, k requires 0 <= k < |recs| => DetailOf(s, recs[k].driveId))
  }

  /** The join of the student table with the record table on s.id = v.student_id. */
  function Joined(students: seq<Student>, records: seq<VaccinationRecord>, left: bool): (r: seq<Detail>)
    ensures left ==> |r| >= |students|
  {
    if students == [] then []
    else JoinedRowsOf(students[0], records, left) + Joined(students[1..], records, left)
  }

  /** The join conditions the core passes, and their SQL text. */
  datatype JoinKind = LeftJoin | InnerJoin

  function JoinText(j: JoinKind): string
  {
    match j
    case LeftJoin => "LEFT JOIN student_vaccination_records v ON s.id = v.student_id"
    case InnerJoin => "INNER JOIN student_vaccination_records v ON s.id = v.student_id"
  }

  function JoinRows(students: seq<Student>, records: seq<VaccinationRecord>, j: JoinKind): seq<Detail>
  {
    Joined(students, records, j == LeftJoin)
  }

  predicate HasDrive(d: Detail) { d.driveId != 0 }

  /** Every record points at a drive: drive id 0 then only marks a LEFT JOIN row
      without a record. */
  ghost predicate DriveIdsNonZero(records: seq<VaccinationRecord>)
  {
    forall k :: 0 <= k < |records| ==> records[k].driveId != 0
  }

  lemma {:induction false} RecordsOfNonZero(records: seq<VaccinationRecord>, sid: int)
    requires DriveIdsNonZero(records)
    ensures DriveIdsNonZero(RecordsOf(records, sid))
  {
    var recs := RecordsOf(records, sid);
    forall k | 0 <= k < |recs| ensures recs[k].driveId != 0 {
      assert recs[k] in records;
    }
  }

  /** The LEFT JOIN rows that carry a drive are exactly the INNER JOIN rows. */
  lemma {:induction false} LeftJoinCoversInnerJoin(students: seq<Student>, records: seq<VaccinationRecord>)
    requires DriveIdsNonZero(records)
    ensures Filter(JoinRows(students, records, LeftJoin), HasDrive) == JoinRows(students, records, InnerJoin)
  {
    if students != [] {
      var s := students[0];
      var recs := RecordsOf(records, s.id);
      RecordsOfNonZero(records, s.id);
      var leftRows := JoinedRowsOf(s, records, true);
      var innerRows := JoinedRowsOf(s, records, false);
      if recs == [] {
        assert Filter(leftRows, HasDrive) == [] == innerRows;
      } else {
        assert leftRows == innerRows;
        FilterAll(innerRows, HasDrive);
      }
      FilterAppend(leftRows, Joined(students[1..], records, true), HasDrive);
      LeftJoinCoversInnerJoin(students[1..], records);
    }
  }

  /** A joined row that carries a drive id got it from a record of that student. */
  lemma {:induction false} JoinedDriveIds(students: seq<Student>, records: seq<VaccinationRecord>, left: bool, d: Detail)
    requires d in Joined(students, records, left) && d.driveId != 0
    ensures exists k :: 0 <= k < |records| && records[k].driveId == d.driveId && records[k].studentId == d.id
  {
    var s := students[0];
    var here := JoinedRowsOf(s, records, left);
    if d in here {
      var recs := RecordsOf(records, s.id);
      var i :| 0 <= i < |here| && here[i] == d;
      assert recs != [];
      assert d == DetailOf(s, recs[i].driveId);
      assert recs[i] in records;
      var k :| 0 <= k < |records| && records[k] == recs[i];
    } else {
      JoinedDriveIds(students[1..], records, left, d);
    }
  }

  /** The conditions the use cases put in a selection string. */
  datatype Clause =
    | IdEquals(id: int)
    | RollNoEquals(rollNo: string)
    | ClassEquals(className: string)
    | NameContains(part: string)
    | DriveIdIn(driveIds: seq<int>)

  function DriveIdList(ids: seq<int>): (r: seq<string>)
    ensures |r| == |ids|
    ensures forall k :: 0 <= k < |ids| ==> r[k] == IntToString(ids[k])
  {
    if ids == [] then [] else [IntToString(ids[0])] + DriveIdList(ids[1..])
  }

  function ClauseText(c: Clause): (r: string)
    ensures r != ""
  {
    match c
    case IdEquals(id) => "s.id = '" + IntToString(id) + "'"
    case RollNoEquals(rollNo) => "s.roll_number = '" + rollNo + "'"
    case ClassEquals(className) => "s.class = '" + className + "'"
    case NameContains(part) => "s.name LIKE '%" + part + "%'"
    case DriveIdIn(ids) => "v.drive_id IN (" + Join(DriveIdList(ids), ", ") + ")"
  }

  function ClauseTexts(cs: seq<Clause>): (r: seq<string>)
    ensures |r| == |cs|
    ensures forall k :: 0 <= k < |cs| ==> r[k] == ClauseText(cs[k])
  {
    if cs == [] then [] else [ClauseText(cs[0])] + ClauseTexts(cs[1..])
  }

  /** The selection string of a conjunction of clauses. */
  function SelectionString(cs: seq<Clause>): string
  {
    Join(ClauseTexts(cs), " AND ")
  }

  /** The repository branches on the empty selection string: that is exactly the empty
      conjunction. */
  lemma SelectionStringEmpty(cs: seq<Clause>)
    ensures SelectionString(cs) == "" <==> cs == []
  {
    JoinEmpty(ClauseTexts(cs), " AND ");
  }

  /** Appending a clause is the use cases' `q += " AND " + clause` (or `q = clause` on
      the empty string). */
  lemma SelectionStringSnoc(cs: seq<Clause>, c: Clause)
    ensures SelectionString(cs + [c]) == if cs == [] then ClauseText(c) else SelectionString(cs) + " AND " + ClauseText(c)
  {
    var t, u := ClauseTexts(cs + [c]), ClauseTexts(cs);
    forall k | 0 <= k < |cs| ensures t[k] == u[k] {
      assert (cs + [c])[k] == cs[k];
    }
    assert t[|cs|] == ClauseText(c) by { assert (cs + [c])[|cs|] == c; }
    assert t == u + [ClauseText(c)];
    JoinSnoc(u, ClauseText(c), " AND ");
  }

  /** What a clause means for a joined row. LIKE is matched character by character
      (the collation's case folding is not modelled); `v.drive_id IN (...)` never holds
      for the NULL drive id of a LEFT JOIN row without a record. */
  predicate ClauseHolds(c: Clause, d: Detail)
  {
    match c
    case IdEquals(id) => d.id == id
    case RollNoEquals(rollNo) => d.rollNumber == rollNo
    case ClassEquals(className) => d.className == className
    case NameContains(part) => LikeMatch(d.name, "%" + part + "%")
    case DriveIdIn(ids) => d.driveId != 0 && d.driveId in ids
  }

  predicate Satisfies(cs: seq<Clause>, d: Detail)
  {
    forall k :: 0 <= k < |cs| ==> ClauseHolds(cs[k], d)
  }

  /** A row satisfies a concatenation of selections when it satisfies both parts. */
  lemma SatisfiesAppend(a: seq<Clause>, b: seq<Clause>, d: Detail)
    ensures Satisfies(a + b, d) <==> Satisfies(a, d) && Satisfies(b, d)
  {
    if Satisfies(a, d) && Satisfies(b, d) {
      forall k | 0 <= k < |a + b| ensures ClauseHolds((a + b)[k], d) {
        if k >= |a| {
          assert (a + b)[k] == b[k - |a|];
        }
      }
    }
    if Satisfies(a + b, d) {
      forall k | 0 <= k < |a| ensures ClauseHolds(a[k], d) {
        assert (a + b)[k] == a[k];
      }
      forall k | 0 <= k < |b| ensures ClauseHolds(b[k], d) {
        assert (a + b)[|a| + k] == b[k];
      }
    }
  }

  function DetailId(d: Detail): int { d.id }

  /** GetStudentVaccinationRecord: the LEFT JOIN rows satisfying the selection. With a
      zero limit there is no ORDER BY and no LIMIT/OFFSET (the rows are taken in join
      order); otherwise rows are ordered by student id and paginated. */
  function GetStudentVaccinationRecord(students: seq<Student>, records: seq<VaccinationRecord>,
                                       sel: seq<Clause>, p: Pagination): seq<Detail>
  {
    var rows := Filter(JoinRows(students, records, LeftJoin), d => Satisfies(sel, d));
    if p.limit == 0 then rows else Paginate(SortBy(rows, DetailId), p)
  }

  /** GetStudentVaccinationRecordCount: the number of rows of the given join satisfying
      the selection; no pagination is involved. */
  function GetStudentVaccinationRecordCount(students: seq<Student>, records: seq<VaccinationRecord>,
                                            sel: seq<Clause>, j: JoinKind): nat
  {
    |Filter(JoinRows(students, records, j), d => Satisfies(sel, d))|
  }

  /** Every fetched row satisfies the selection and comes from the LEFT JOIN; a positive
      limit orders rows by id and returns at most `limit` of them; a zero limit returns
      every selected row, as many as the LEFT JOIN count. */
  lemma GetStudentVaccinationRecordSpec(students: seq<Student>, records: seq<VaccinationRecord>,
                                        sel: seq<Clause>, p: Pagination)
    ensures var r := GetStudentVaccinationRecord(students, records, sel, p);
      && (forall k :: 0 <= k < |r| ==> Satisfies(sel, r[k]) && r[k] in JoinRows(students, records, LeftJoin))
      && |r| <= GetStudentVaccinationRecordCount(students, records, sel, LeftJoin)
      && (p.limit == 0 ==> |r| == GetStudentVaccinationRecordCount(students, records, sel, LeftJoin))
      && (p.limit > 0 ==> |r| <= p.limit)
      && (p.limit != 0 ==> forall i, j :: 0 <= i < j < |r| ==> r[i].id <= r[j].id)
  {
    var rows := Filter(JoinRows(students, records, LeftJoin), d => Satisfies(sel, d));
    if p.limit != 0 {
      PageOfSorted(rows, DetailId, p);
    }
  }

  /** Without a selection every student appears in the LEFT JOIN count, and the INNER
      JOIN count is at most the LEFT JOIN count. */
  lemma CountBounds(students: seq<Student>, records: seq<VaccinationRecord>)
    requires DriveIdsNonZero(records)
    ensures GetStudentVaccinationRecordCount(students, records, [], LeftJoin) >= |students|
    ensures GetStudentVaccinationRecordCount(students, records, [], InnerJoin)
         <= GetStudentVaccinationRecordCount(students, records, [], LeftJoin)
  {
    FilterAll(JoinRows(students, records, LeftJoin), d => Satisfies([], d));
    FilterAll(JoinRows(students, records, InnerJoin), d => Satisfies([], d));
    LeftJoinCoversInnerJoin(students, records);
  }

  ghost predicate UniqueRecordIds(rows: seq<VaccinationRecord>)
  {
    forall i, j :: 0 <= i < j < |rows| ==> rows[i].id < rows[j].id
  }

  /** What an insert reports for record `r`, given the database's answer and the first
      id the table could hand out. */
  ghost predicate RecordReported(o: Outcome<VaccinationRecord>, r: VaccinationRecord, answer: Option<string>, firstId: int)
  {
    && o.status == answer.None?
    && o.errorReason == (if answer.Some? then answer.value else "")
    && o.record.(id := r.id) == r
    && (!o.status ==> o.record == r)
    && (o.status ==> o.record.id >= firstId)
  }

  /** The vaccination record table: rows in insertion order with auto-increment ids. */
  class VaccinationRecordTable {
    var rows: seq<VaccinationRecord>
    var nextId: int

    ghost predicate Valid()
      reads this
    {
      && UniqueRecordIds(rows)
      && nextId > 0
      && (forall k :: 0 <= k < |rows| ==> 0 < rows[k].id < nextId)
    }

    constructor ()
      ensures Valid() && rows == [] && nextId == 1
    {
      rows := [];
      nextId := 1;
    }

    /** CreateVaccinationRecord: insert each record on its own; insert k gets the
        database's answer InsertAnswer(answers, k). Success stores the record under the
        next id and reports it accepted; failure reports the record as given with the
        error text. A failure does not stop later inserts. */
    method CreateVaccinationRecord(records: seq<VaccinationRecord>, answers: seq<Option<string>>)
      returns (outcomes: seq<Outcome<VaccinationRecord>>)
      requires Valid()
      modifies this
      ensures Valid() && nextId >= old(nextId)
      ensures |outcomes| == |records|
      ensures forall k :: 0 <= k < |records| ==>
        && outcomes[k].status == InsertAnswer(answers, k).None?
        && outcomes[k].errorReason == (if InsertAnswer(answers, k).Some? then InsertAnswer(answers, k).value else "")
        && outcomes[k].record.(id := records[k].id) == records[k]
        && (!outcomes[k].status ==> outcomes[k].record == records[k])
        && (outcomes[k].status ==> outcomes[k].record.id >= old(nextId))
      ensures rows == old(rows) + AcceptedRecords(outcomes)
    {
      outcomes := [];
      var k := 0;
      while k < |records|
        invariant 0 <= k <= |records| && |outcomes| == k
        invariant Valid() && nextId >= old(nextId)
        invariant forall j :: 0 <= j < k ==> RecordReported(outcomes[j], records[j], InsertAnswer(answers, j), old(nextId))
        invariant rows == old(rows) + AcceptedRecords(outcomes)
      {
        var outcome := InsertOne(records[k], InsertAnswer(answers, k));
        assert RecordReported(outcome, records[k], InsertAnswer(answers, k), old(nextId));
        AcceptedSnoc(outcomes, outcome);
        outcomes := outcomes + [outcome];
        k := k + 1;
      }
    }

    /** One insert: with no error the record is stored under the next id, otherwise it is
        reported as given with the error text and nothing changes. */
    method InsertOne(j: VaccinationRecord, err: Option<string>) returns (outcome: Outcome<VaccinationRecord>)
      requires Valid()
      modifies this
      ensures Valid() && nextId >= old(nextId)
      ensures outcome.status == err.None?
      ensures outcome.errorReason == (if err.Some? then err.value else "")
      ensures outcome.record.(id := j.id) == j
      ensures !outcome.status ==> outcome.record == j
      ensures outcome.status ==> outcome.record.id >= old(nextId)
      ensures rows == old(rows) + (if outcome.status then [outcome.record] else [])
    {
      if err.None? {
        var stored := j.(id := nextId);
        rows := rows + [stored];
        nextId := nextId + 1;
        outcome := Outcome(stored, true, "");
      } else {
        outcome := Outcome(j, false, err.value);
      }
    }
  }
}
