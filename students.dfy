/** The student_management table: repository/studentmanagement.go. */
module StudentRepo {
  import opened Common
  import opened Text
  import BulkFileJobsRepo

  /** A student row (the timestamps are not modelled). */
  datatype Student = Student(
    id: int,
    name: string,
    className: string,
    gender: string,
    rollNumber: string,
    phoneNo: string)

  /** The selection strings the core hands to GetStudents: none, or `id = N`. */
  datatype StudentSelection = AllStudents | StudentIdIs(id: int)

  function SelectionText(sel: StudentSelection): string
  {
    match sel
    case AllStudents => ""
    case StudentIdIs(id) => "id = " + IntToString(id)
  }

  predicate Selects(sel: StudentSelection, s: Student)
  {
    match sel
    case AllStudents => true
    case StudentIdIs(id) => s.id == id
  }

  /** GetStudents: every row for the empty selection string, otherwise the rows the
      WHERE condition selects; table order is kept. */
  function GetStudents(rows: seq<Student>, sel: StudentSelection): seq<Student>
  {
    Filter(rows, s => Selects(sel, s))
  }

  /** The repository's two branches: the selection string is empty exactly for the
      selection of all rows, which returns the whole table. */
  lemma GetStudentsAll(rows: seq<Student>, sel: StudentSelection)
    ensures SelectionText(sel) == "" <==> sel == AllStudents
    ensures sel == AllStudents ==> GetStudents(rows, sel) == rows
  {
    if sel.StudentIdIs? {
      assert |SelectionText(sel)| > 0;
    } else {
      FilterAll(rows, s => Selects(sel, s));
    }
  }

  ghost predicate UniqueIds(rows: seq<Student>)
  {
    forall i, j :: 0 <= i < j < |rows| ==> rows[i].id < rows[j].id
  }

  /** With ids kept unique, `id = N` returns exactly one row when a row with that id
      exists and none otherwise. */
  lemma {:induction false} GetStudentById(rows: seq<Student>, id: int)
    requires UniqueIds(rows)
    ensures |GetStudents(rows, StudentIdIs(id))| <= 1
    ensures |GetStudents(rows, StudentIdIs(id))| == 1 <==> exists k :: 0 <= k < |rows| && rows[k].id == id
    ensures forall k :: 0 <= k < |rows| && rows[k].id == id ==> GetStudents(rows, StudentIdIs(id)) == [rows[k]]
  {
    if rows != [] {
      GetStudentById(rows[1..], id);
      var tail := GetStudents(rows[1..], StudentIdIs(id));
      if rows[0].id == id {
        assert forall k :: 1 <= k < |rows| ==> rows[k].id != id;
        assert forall k :: 0 <= k < |rows[1..]| ==> rows[1..][k].id != id;
        assert |tail| == 0;
      } else {
        assert forall k :: 1 <= k < |rows| ==> rows[k] == rows[1..][k - 1];
      }
    }
  }

  const StudentUpdatableColumns: set<string> := {"name", "roll_number", "class", "gender", "phone_no"}

  /** The `toupdate` map of UpdateStudents: each of the five columns only when the patch
      holds a non-empty value for it. */
  function StudentChanges(patch: Student): BulkFileJobsRepo.Changes
  {
    var c0: BulkFileJobsRepo.Changes := map[];
    var c1 := if patch.name != "" then c0["name" := Text(patch.name)] else c0;
    var c2 := if patch.rollNumber != "" then c1["roll_number" := Text(patch.rollNumber)] else c1;
    var c3 := if patch.className != "" then c2["class" := Text(patch.className)] else c2;
    var c4 := if patch.gender != "" then c3["gender" := Text(patch.gender)] else c3;
    if patch.phoneNo != "" then c4["phone_no" := Text(patch.phoneNo)] else c4
  }

  function ApplyStudentChanges(row: Student, c: BulkFileJobsRepo.Changes): Student
  {
    row.(name := BulkFileJobsRepo.TextOr(c, "name", row.name),
         rollNumber := BulkFileJobsRepo.TextOr(c, "roll_number", row.rollNumber),
         className := BulkFileJobsRepo.TextOr(c, "class", row.className),
         gender := BulkFileJobsRepo.TextOr(c, "gender", row.gender),
         phoneNo := BulkFileJobsRepo.TextOr(c, "phone_no", row.phoneNo))
  }

  /** The change set applied to the row whose id matches: ids stay where they were and
      stay unique, and every other row is untouched. */
  function UpdateStudentWhereId(rows: seq<Student>, id: int, c: BulkFileJobsRepo.Changes): (r: seq<Student>)
    ensures |r| == |rows|
    ensures forall k :: 0 <= k < |rows| ==> r[k].id == rows[k].id
    ensures forall k :: 0 <= k < |rows| && rows[k].id != id ==> r[k] == rows[k]
    ensures forall k :: 0 <= k < |rows| && rows[k].id == id ==> r[k] == ApplyStudentChanges(rows[k], c)
    ensures UniqueIds(rows) ==> UniqueIds(r)
  {
    seq(|rows|, k requires 0 <= k < |rows| =>
      if rows[k].id == id then ApplyStudentChanges(rows[k], c) else rows[k])
  }

  /** The change set names only the five updatable columns, each exactly when the patch's
      field is non-empty; the id is never written. */
  lemma StudentChangesColumns(patch: Student)
    ensures StudentChanges(patch).Keys <= StudentUpdatableColumns
    ensures "name" in StudentChanges(patch) <==> patch.name != ""
    ensures "roll_number" in StudentChanges(patch) <==> patch.rollNumber != ""
    ensures "class" in StudentChanges(patch) <==> patch.className != ""
    ensures "gender" in StudentChanges(patch) <==> patch.gender != ""
    ensures "phone_no" in StudentChanges(patch) <==> patch.phoneNo != ""
    ensures "id" !in StudentChanges(patch)
  {
  }

  /** An update keeps the id and every field the patch leaves empty, and takes every
      non-empty field of the patch. */
  lemma ApplyStudentPatch(row: Student, patch: Student)
    ensures var r := ApplyStudentChanges(row, StudentChanges(patch));
      && r.id == row.id
      && r.name == (if patch.name != "" then patch.name else row.name)
      && r.rollNumber == (if patch.rollNumber != "" then patch.rollNumber else row.rollNumber)
      && r.className == (if patch.className != "" then patch.className else row.className)
      && r.gender == (if patch.gender != "" then patch.gender else row.gender)
      && r.phoneNo == (if patch.phoneNo != "" then patch.phoneNo else row.phoneNo)
  {
  }

  /** What an insert reports for record `r`, given the database's answer and the first
      id the table could hand out. */
  ghost predicate StudentReported(o: Outcome<Student>, r: Student, answer: Option<string>, firstId: int)
  {
    && o.status == answer.None?
    && o.errorReason == (if answer.Some? then answer.value else "")
    && o.record.(id := r.id) == r
    && (!o.status ==> o.record == r)
    && (o.status ==> o.record.id >= firstId)
  }

  /** The student table: rows in insertion order with auto-increment ids. */
  class StudentTable {
    var rows: seq<Student>
    var nextId: int

    ghost predicate Valid()
      reads this
    {
      && UniqueIds(rows)
      && nextId > 0
      && (forall k :: 0 <= k < |rows| ==> 0 < rows[k].id < nextId)
    }

    constructor ()
      ensures Valid() && rows == [] && nextId == 1
    {
      rows := [];
      nextId := 1;
    }

    /** CreateStudentRecord: insert each record on its own; insert k gets the database's
        answer InsertAnswer(answers, k). A successful insert stores the record under the
        next id and reports it with that id and an empty reason; a failed one reports the
        record as given with the error text. A failure does not stop later inserts. */
    method CreateStudentRecord(records: seq<Student>, answers: seq<Option<string>>) returns (outcomes: seq<Outcome<Student>>)
      requires Valid()
      modifies this
      ensures Valid() && nextId >= old(nextId)
      ensures |outcomes| == |records|
      ensures forall k :: 0 <= k < |records| ==>
        && outcomes[k].status == InsertAnswer(answers, k).None?
        && outcomes[k].errorReason == (if InsertAnswer(answers, k).Some? then InsertAnswer(answers, k).value else "")
        && outcomes[k].record.(id := records[k].id) == records[k]
        && (!outcomes[k].status ==> outcomes[k].record == records[k])
        && (outcomes[k].status ==> outcomes[k].record.id >= old(nextId))
      ensures rows == old(rows) + AcceptedRecords(outcomes)
    {
      outcomes := [];
      var k := 0;
      while k < |records|
        invariant 0 <= k <= |records| && |outcomes| == k
        invariant Valid() && nextId >= old(nextId)
        invariant forall j :: 0 <= j < k ==> StudentReported(outcomes[j], records[j], InsertAnswer(answers, j), old(nextId))
        invariant rows == old(rows) + AcceptedRecords(outcomes)
      {
        var outcome := InsertOne(records[k], InsertAnswer(answers, k));
        assert StudentReported(outcome, records[k], InsertAnswer(answers, k), old(nextId));
        AcceptedSnoc(outcomes, outcome);
        outcomes := outcomes + [outcome];
        k := k + 1;
      }
    }

    /** One insert: with no error the record is stored under the next id, otherwise it is
        reported as given with the error text and nothing changes. */
    method InsertOne(j: Student, err: Option<string>) returns (outcome: Outcome<Student>)
      requires Valid()
      modifies this
      ensures Valid() && nextId >= old(nextId)
      ensures outcome.status == err.None?
      ensures outcome.errorReason == (if err.Some? then err.value else "")
      ensures outcome.record.(id := j.id) == j
      ensures !outcome.status ==> outcome.record == j
      ensures outcome.status ==> outcome.record.id >= old(nextId)
      ensures rows == old(rows) + (if outcome.status then [outcome.record] else [])
    {
      if err.None? {
        var stored := j.(id := nextId);
        rows := rows + [stored];
        nextId := nextId + 1;
        outcome := Outcome(stored, true, "");
      } else {
        outcome := Outcome(j, false, err.value);
      }
    }

    /** UpdateStudents: apply the change set to the row with the patch's id; with a
        database error nothing changes. */
    method UpdateStudents(patch: Student, dbError: Option<string>) returns (err: Option<string>)
      requires Valid()
      modifies this
      ensures Valid() && nextId == old(nextId)
      ensures err == dbError
      ensures dbError.None? ==> rows == UpdateStudentWhereId(old(rows), patch.id, StudentChanges(patch))
      ensures dbError.Some? ==> rows == old(rows)
    {
      var toUpdate: BulkFileJobsRepo.Changes := map[];
      if patch.name != "" {
        toUpdate := toUpdate["name" := Text(patch.name)];
      }
      if patch.rollNumber != "" {
        toUpdate := toUpdate["roll_number" := Text(patch.rollNumber)];
      }
      if patch.className != "" {
        toUpdate := toUpdate["class" := Text(patch.className)];
      }
      if patch.gender != "" {
        toUpdate := toUpdate["gender" := Text(patch.gender)];
      }
      if patch.phoneNo != "" {
        toUpdate := toUpdate["phone_no" := Text(patch.phoneNo)];
      }
      assert toUpdate == StudentChanges(patch);
      err := dbError;
      if dbError.None? {
        var updated := UpdateStudentWhereId(rows, patch.id, toUpdate);
        assert forall k :: 0 <= k < |rows| ==> updated[k].id == rows[k].id;
        rows := updated;
      }
    }
  }
}
