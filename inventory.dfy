/** The vaccination_inventory table of scheduled drives: repository/vaccineinventory.go.
    Dates and instants are integers on one scale (`drive_date` and the clock alike). */
module InventoryRepo {
  import opened Common
  import opened Text
  import BulkFileJobsRepo

  /** A vaccination drive (the timestamps are not modelled). */
  datatype Drive = Drive(id: int, vaccineName: string, driveDate: int, doses: int, classes: string)

  /** The filter strings handed to GetVaccineInventory. `WithinWindow(horizon)` is
      `drive_date <= DATE_ADD(NOW(), INTERVAL 30 DAY)`, with `horizon` the value the
      database computes for the right-hand side. */
  datatype DriveFilter =
    | NoFilter
    | DriveIdIs(id: int)
    | VaccineNameIs(name: string)
    | VaccineNameLike(pattern: string)
    | DriveOn(date: int)
    | WithinWindow(horizon: int)

  const WindowClause: string := "drive_date <= DATE_ADD(NOW(), INTERVAL 30 DAY)"

  /** A date as the text the lookups and messages print: the day number (not its
      calendar layout). */
  function DateText(date: int): string
  {
    IntToString(date)
  }

  function FilterText(f: DriveFilter): string
  {
    match f
    case NoFilter => ""
    case DriveIdIs(id) => "id = " + IntToString(id)
    case VaccineNameIs(name) => "vaccine_name = '" + name + "'"
    case VaccineNameLike(pattern) => "vaccine_name LIKE '" + pattern + "'"
    case DriveOn(date) => "drive_date = \"" + DateText(date) + "\""
    case WithinWindow(_) => WindowClause
  }

  predicate FilterHolds(f: DriveFilter, d: Drive)
  {
    match f
    case NoFilter => true
    case DriveIdIs(id) => d.id == id
    case VaccineNameIs(name) => d.vaccineName == name
    case VaccineNameLike(pattern) => LikeMatch(d.vaccineName, pattern)
    case DriveOn(date) => d.driveDate == date
    case WithinWindow(horizon) => d.driveDate <= horizon
  }

  /** The WHERE clause of a filter as a test on one drive. */
  function Selects(f: DriveFilter): Drive -> bool
  {
    d => FilterHolds(f, d)
  }

  function DriveDateKey(d: Drive): int { d.driveDate }

  /** GetVaccineInventory: the drives the filter selects (all of them for the empty
      filter string), ordered by drive_date ascending. */
  function GetVaccineInventory(drives: seq<Drive>, f: DriveFilter): seq<Drive>
  {
    SortBy(Filter(drives, Selects(f)), DriveDateKey)
  }

  /** The result holds exactly the selected drives, each as often as in the table, in
      date order; the empty filter string is NoFilter and returns every drive. */
  lemma GetVaccineInventorySpec(drives: seq<Drive>, f: DriveFilter)
    ensures var r := GetVaccineInventory(drives, f);
      && (forall i, j :: 0 <= i < j < |r| ==> r[i].driveDate <= r[j].driveDate)
      && (forall d :: d in r <==> d in drives && FilterHolds(f, d))
      && multiset(r) == multiset(Filter(drives, Selects(f)))
      && (FilterText(f) == "" <==> f == NoFilter)
      && (f == NoFilter ==> multiset(r) == multiset(drives))
  {
    var r := GetVaccineInventory(drives, f);
    var kept := Filter(drives, Selects(f));
    forall i, j | 0 <= i < j < |r| ensures r[i].driveDate <= r[j].driveDate {
      assert DriveDateKey(r[i]) <= DriveDateKey(r[j]);
    }
    forall d ensures d in r <==> d in drives && FilterHolds(f, d) {
      SortByMembers(kept, DriveDateKey, d);
      if d in drives && FilterHolds(f, d) {
        var k :| 0 <= k < |drives| && drives[k] == d;
      }
      if d in kept {
        var k :| 0 <= k < |kept| && kept[k] == d;
      }
    }
    if f == NoFilter {
      FilterAll(drives, Selects(f));
    } else if f.WithinWindow? {
      assert FilterText(f) == WindowClause;
    } else {
      assert |FilterText(f)| > 0;
    }
  }

  /** The rows a lookup returns are the drives its filter selects. */
  lemma LookupMembers(drives: seq<Drive>, f: DriveFilter)
    ensures forall d :: d in GetVaccineInventory(drives, f) <==> d in drives && FilterHolds(f, d)
  {
    GetVaccineInventorySpec(drives, f);
  }

  /** Drives stored with positive ids, ascending in table order. */
  ghost predicate UniqueDriveIds(rows: seq<Drive>)
  {
    forall i, j :: 0 <= i < j < |rows| ==> rows[i].id < rows[j].id
  }

  /** The scheduling rule the drive use cases keep: no two drives on the same date. */
  ghost predicate OneDrivePerDate(rows: seq<Drive>)
  {
    forall i, j :: 0 <= i < j < |rows| ==> rows[i].driveDate != rows[j].driveDate
  }

  /** With unique ids, `id = N` finds the one drive with that id, or none. */
  lemma {:induction false} LookupById(rows: seq<Drive>, id: int)
    requires UniqueDriveIds(rows)
    ensures |GetVaccineInventory(rows, DriveIdIs(id))| <= 1
    ensures GetVaccineInventory(rows, DriveIdIs(id)) == [] <==> forall k :: 0 <= k < |rows| ==> rows[k].id != id
    ensures forall k :: 0 <= k < |rows| && rows[k].id == id ==> GetVaccineInventory(rows, DriveIdIs(id)) == [rows[k]]
  {
    var kept := Filter(rows, Selects(DriveIdIs(id)));
    FilterIdUnique(rows, id);
    if kept == [] {
      assert SortBy(kept, DriveDateKey) == [];
    } else {
      assert |kept| == 1;
      assert SortBy(kept, DriveDateKey) == kept by {
        var r := SortBy(kept, DriveDateKey);
        assert multiset(r) == multiset{kept[0]};
        assert r[0] in multiset(r);
      }
    }
  }

  lemma {:induction false} FilterIdUnique(rows: seq<Drive>, id: int)
    requires UniqueDriveIds(rows)
    ensures var kept := Filter(rows, Selects(DriveIdIs(id)));
      && |kept| <= 1
      && (kept == [] <==> forall k :: 0 <= k < |rows| ==> rows[k].id != id)
      && (forall k :: 0 <= k < |rows| && rows[k].id == id ==> kept == [rows[k]])
  {
    if rows != [] {
      FilterIdUnique(rows[1..], id);
      var tail := Filter(rows[1..], Selects(DriveIdIs(id)));
      if rows[0].id == id {
        assert forall k :: 0 <= k < |rows[1..]| ==> rows[1..][k].id != id;
        assert tail == [];
      } else {
        assert forall k :: 1 <= k < |rows| ==> rows[k] == rows[1..][k - 1];
      }
    }
  }

  /** Whether some drive matches a filter. */
  predicate AnyDriveMatches(drives: seq<Drive>, f: DriveFilter)
  {
    drives != [] && (FilterHolds(f, drives[0]) || AnyDriveMatches(drives[1..], f))
  }

  /** An inventory lookup returns no row exactly when no drive matches its filter. */
  lemma LookupEmpty(drives: seq<Drive>, f: DriveFilter)
    ensures GetVaccineInventory(drives, f) == [] <==> !AnyDriveMatches(drives, f)
  {
    NoneMatch(drives, f);
  }

  lemma {:induction false} NoneMatch(drives: seq<Drive>, f: DriveFilter)
    ensures Filter(drives, Selects(f)) == [] <==> !AnyDriveMatches(drives, f)
  {
    if drives != [] {
      NoneMatch(drives[1..], f);
    }
  }

  /** Whether some drive matches a filter, as an existential. */
  lemma {:induction false} AnyDriveMatchesSpec(drives: seq<Drive>, f: DriveFilter)
    ensures AnyDriveMatches(drives, f) <==> exists m :: 0 <= m < |drives| && FilterHolds(f, drives[m])
  {
    if drives != [] {
      AnyDriveMatchesSpec(drives[1..], f);
      if exists m :: 0 <= m < |drives| && FilterHolds(f, drives[m]) {
        var m :| 0 <= m < |drives| && FilterHolds(f, drives[m]);
        if m > 0 {
          assert drives[1..][m - 1] == drives[m];
        }
      }
    }
  }

  /** The earliest drive a filter selects, the first in table order among those on the
      earliest date. */
  function EarliestMatch(drives: seq<Drive>, f: DriveFilter): (d: Drive)
    requires AnyDriveMatches(drives, f)
  {
    if !FilterHolds(f, drives[0]) then EarliestMatch(drives[1..], f)
    else if !AnyDriveMatches(drives[1..], f) then drives[0]
    else
      var later := EarliestMatch(drives[1..], f);
      if drives[0].driveDate <= later.driveDate then drives[0] else later
  }

  /** The earliest match is a drive of the table that the filter selects, on a date no
      later than any other selected drive. */
  lemma {:induction false} EarliestMatchSpec(drives: seq<Drive>, f: DriveFilter)
    requires AnyDriveMatches(drives, f)
    ensures EarliestMatch(drives, f) in drives && FilterHolds(f, EarliestMatch(drives, f))
    ensures forall k :: 0 <= k < |drives| && FilterHolds(f, drives[k]) ==> EarliestMatch(drives, f).driveDate <= drives[k].driveDate
  {
    var rest := drives[1..];
    assert forall k :: 1 <= k < |drives| ==> drives[k] == rest[k - 1];
    if AnyDriveMatches(rest, f) {
      EarliestMatchSpec(rest, f);
    } else {
      AnyDriveMatchesSpec(rest, f);
    }
  }

  /** The first row of a lookup that returns any row is the earliest match. */
  lemma {:induction false} FirstRowIsEarliest(drives: seq<Drive>, f: DriveFilter)
    requires AnyDriveMatches(drives, f)
    ensures GetVaccineInventory(drives, f) != []
    ensures GetVaccineInventory(drives, f)[0] == EarliestMatch(drives, f)
  {
    LookupEmpty(drives, f);
    var rest := drives[1..];
    var kept := Filter(rest, Selects(f));
    if !FilterHolds(f, drives[0]) {
      FirstRowIsEarliest(rest, f);
    } else {
      var sorted := SortBy(kept, DriveDateKey);
      assert GetVaccineInventory(drives, f) == InsertBy(drives[0], sorted, DriveDateKey) by {
        assert [drives[0]] + kept == Filter(drives, Selects(f));
      }
      InsertBySorted(drives[0], sorted, DriveDateKey);
      if AnyDriveMatches(rest, f) {
        FirstRowIsEarliest(rest, f);
      } else {
        LookupEmpty(rest, f);
      }
    }
  }

  /** The optional fields of an edit request: only present fields are written. */
  datatype DriveUpdate = DriveUpdate(
    id: int,
    driveDate: Option<int>,
    vaccineName: Option<string>,
    doses: Option<int>,
    classes: Option<string>)

  const DriveUpdatableColumns: set<string> := {"drive_date", "vaccine_name", "doses", "classes"}

  /** The `updateMap` of UpdateVaccineInventory: a column for every present field, even
      when its value is zero or empty. */
  function DriveChanges(u: DriveUpdate): BulkFileJobsRepo.Changes
  {
    var c0: BulkFileJobsRepo.Changes := map[];
    var c1 := if u.driveDate.Some? then c0["drive_date" := Number(u.driveDate.value)] else c0;
    var c2 := if u.vaccineName.Some? then c1["vaccine_name" := Text(u.vaccineName.value)] else c1;
    var c3 := if u.doses.Some? then c2["doses" := Number(u.doses.value)] else c2;
    if u.classes.Some? then c3["classes" := Text(u.classes.value)] else c3
  }

  function ApplyDriveChanges(d: Drive, c: BulkFileJobsRepo.Changes): Drive
  {
    d.(driveDate := BulkFileJobsRepo.NumberOr(c, "drive_date", d.driveDate),
       vaccineName := BulkFileJobsRepo.TextOr(c, "vaccine_name", d.vaccineName),
       doses := BulkFileJobsRepo.NumberOr(c, "doses", d.doses),
       classes := BulkFileJobsRepo.TextOr(c, "classes", d.classes))
  }

  /** The change set applied to the drive whose id matches: ids stay where they were and
      stay unique, and every other drive is untouched. */
  function UpdateDriveWhereId(rows: seq<Drive>, id: int, c: BulkFileJobsRepo.Changes): (r: seq<Drive>)
    ensures |r| == |rows|
    ensures forall k :: 0 <= k < |rows| ==> r[k].id == rows[k].id
    ensures forall k :: 0 <= k < |rows| && rows[k].id != id ==> r[k] == rows[k]
    ensures forall k :: 0 <= k < |rows| && rows[k].id == id ==> r[k] == ApplyDriveChanges(rows[k], c)
    ensures UniqueDriveIds(rows) ==> UniqueDriveIds(r)
  {
    seq(|rows|, k requires 0 <= k < |rows| =>
      if rows[k].id == id then ApplyDriveChanges(rows[k], c) else rows[k])
  }

  /** A column is written exactly when its field is present, whatever its value; the id
      is never written. */
  lemma DriveChangesColumns(u: DriveUpdate)
    ensures DriveChanges(u).Keys <= DriveUpdatableColumns
    ensures "drive_date" in DriveChanges(u) <==> u.driveDate.Some?
    ensures "vaccine_name" in DriveChanges(u) <==> u.vaccineName.Some?
    ensures "doses" in DriveChanges(u) <==> u.doses.Some?
    ensures "classes" in DriveChanges(u) <==> u.classes.Some?
    ensures "id" !in DriveChanges(u)
  {
  }

  /** Applying an edit: present fields take the request's value (zero and empty values
      included), absent ones keep the drive's. */
  lemma ApplyDriveUpdate(d: Drive, u: DriveUpdate)
    ensures var r := ApplyDriveChanges(d, DriveChanges(u));
      && r.id == d.id
      && r.driveDate == (if u.driveDate.Some? then u.driveDate.value else d.driveDate)
      && r.vaccineName == (if u.vaccineName.Some? then u.vaccineName.value else d.vaccineName)
      && r.doses == (if u.doses.Some? then u.doses.value else d.doses)
      && r.classes == (if u.classes.Some? then u.classes.value else d.classes)
  {
  }

  /** The drive table: rows in insertion order with auto-increment ids. */
  class InventoryTable {
    var rows: seq<Drive>
    var nextId: int

    ghost predicate Valid()
      reads this
    {
      && UniqueDriveIds(rows)
      && nextId > 0
      && (forall k :: 0 <= k < |rows| ==> 0 < rows[k].id < nextId)
    }

    constructor ()
      ensures Valid() && rows == [] && nextId == 1
    {
      rows := [];
      nextId := 1;
    }

    /** CreateInventory: store the drive under the next id; with a database error nothing
        changes. */
    method CreateInventory(drive: Drive, dbError: Option<string>) returns (created: Drive, err: Option<string>)
      requires Valid()
      modifies this
      ensures Valid() && err == dbError
      ensures dbError.None? ==> created == drive.(id := old(nextId)) && rows == old(rows) + [created]
      ensures dbError.Some? ==> created == drive && rows == old(rows)
    {
      err := dbError;
      created := drive;
      if dbError.None? {
        created := drive.(id := nextId);
        rows := rows + [created];
        nextId := nextId + 1;
      }
    }

    /** UpdateVaccineInventory: apply the change set to the drive with the request's id;
        with a database error nothing changes. */
    method UpdateVaccineInventory(u: DriveUpdate, dbError: Option<string>) returns (err: Option<string>)
      requires Valid()
      modifies this
      ensures Valid() && nextId == old(nextId) && err == dbError
      ensures dbError.None? ==> rows == UpdateDriveWhereId(old(rows), u.id, DriveChanges(u))
      ensures dbError.Some? ==> rows == old(rows)
    {
      var updateMap: BulkFileJobsRepo.Changes := map[];
      if u.driveDate.Some? {
        updateMap := updateMap["drive_date" := Number(u.driveDate.value)];
      }
      if u.vaccineName.Some? {
        updateMap := updateMap["vaccine_name" := Text(u.vaccineName.value)];
      }
      if u.doses.Some? {
        updateMap := updateMap["doses" := Number(u.doses.value)];
      }
      if u.classes.Some? {
        updateMap := updateMap["classes" := Text(u.classes.value)];
      }
      assert updateMap == DriveChanges(u);
      err := dbError;
      if dbError.None? {
        var updated := UpdateDriveWhereId(rows, u.id, updateMap);
        assert forall k :: 0 <= k < |rows| ==> updated[k].id == rows[k].id;
        rows := updated;
      }
    }
  }
}
