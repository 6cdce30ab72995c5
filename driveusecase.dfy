/** Scheduling and editing vaccination drives: usecase/vaccineinventoryusecase.go. */
module VaccineDriveUsecase {
  import opened Common
  import opened Text
  import opened InventoryRepo

  const UnableToSchedule: string := "unable to schedule drive please try again later"

  function DriveExists(d: Drive): string
  {
    "vaccination drive exists on " + DateText(d.driveDate) + ", drive id: " + IntToString(d.id)
  }

  function NoDriveWithId(id: int): string
  {
    "no drive exists with id " + IntToString(id) + " "
  }

  function AlreadyCompleted(d: Drive): string
  {
    "drive with id " + IntToString(d.id) + " already completed on " + DateText(d.driveDate)
  }

  function Prescheduling(d: Drive): string
  {
    "drive prescheduling is not possible, please schedule after " + DateText(d.driveDate)
  }

  /** createVaccineInventoryFilterString: the drive id when given, otherwise the vaccine
      name as a LIKE pattern, otherwise the drives of the coming 30 days. */
  function InventoryFilter(id: int, vaccineName: string, horizon: int): DriveFilter
  {
    if id != 0 then DriveIdIs(id)
    else if vaccineName != "" then VaccineNameLike(vaccineName)
    else WithinWindow(horizon)
  }

  /** The drives the detail query returns, by the filter's priority: a non-zero id
      selects the drives with that id whatever the name; otherwise a non-empty name
      selects the drives whose name matches it as a LIKE pattern; otherwise the drives
      dated up to the horizon. */
  lemma InventoryFilterResults(drives: seq<Drive>, id: int, vaccineName: string, horizon: int)
    ensures var r := GetVaccineInventory(drives, InventoryFilter(id, vaccineName, horizon));
      && (id != 0 ==> forall d :: d in r <==> d in drives && d.id == id)
      && (id == 0 && vaccineName != "" ==> forall d :: d in r <==> d in drives && LikeMatch(d.vaccineName, vaccineName))
      && (id == 0 && vaccineName == "" ==> forall d :: d in r <==> d in drives && d.driveDate <= horizon)
      && FilterText(InventoryFilter(id, vaccineName, horizon)) != ""
  {
    GetVaccineInventorySpec(drives, InventoryFilter(id, vaccineName, horizon));
  }

  /** The drives on a date, as the `drive_date = "..."` lookup returns them. */
  lemma DrivesOn(rows: seq<Drive>, date: int)
    ensures var data := GetVaccineInventory(rows, DriveOn(date));
      && (data == [] <==> forall k :: 0 <= k < |rows| ==> rows[k].driveDate != date)
      && (forall k :: 0 <= k < |data| ==> data[k] in rows && data[k].driveDate == date)
  {
    var kept := Filter(rows, Selects(DriveOn(date)));
    var data := SortBy(kept, DriveDateKey);
    forall k | 0 <= k < |data| ensures data[k] in rows && data[k].driveDate == date {
      SortByMembers(kept, DriveDateKey, data[k]);
      var j :| 0 <= j < |kept| && kept[j] == data[k];
    }
    if exists k :: 0 <= k < |rows| && rows[k].driveDate == date {
      var k :| 0 <= k < |rows| && rows[k].driveDate == date;
      assert rows[k] in kept;
    }
  }

  /** With one drive per date, the drive a date lookup finds first is the drive on that
      date. */
  lemma FirstDriveOn(rows: seq<Drive>, date: int, k: int)
    requires OneDrivePerDate(rows)
    requires 0 <= k < |rows| && rows[k].driveDate == date
    ensures var data := GetVaccineInventory(rows, DriveOn(date)); data != [] && data[0] == rows[k]
  {
    DrivesOn(rows, date);
    var data := GetVaccineInventory(rows, DriveOn(date));
    var m :| 0 <= m < |rows| && rows[m] == data[0];
    assert rows[m].driveDate == date;
  }

  /** What refuses an edit, in the order the use case checks it: a failed id lookup, an
      unknown id, and, when a new date is given, a failed date lookup, another drive on
      that date, a drive already past, and a new date not later than the current one. */
  function EditRejection(rows: seq<Drive>, u: DriveUpdate, now: int,
                         idLookupError: Option<string>, dateLookupError: Option<string>): Option<string>
  {
    var found := GetVaccineInventory(rows, DriveIdIs(u.id));
    if idLookupError.Some? then idLookupError
    else if found == [] then Some(NoDriveWithId(u.id))
    else if u.driveDate.None? then None
    else DateRejection(rows, found[0], u.driveDate.value, now, dateLookupError)
  }

  /** The refusals of a move of drive `current` to `newDate`, in the use case's order.
      A stored drive date is that day's midnight, so the clock is after it from the
      drive's own day on: a drive counts as completed once `now` reaches its date. */
  function DateRejection(rows: seq<Drive>, current: Drive, newDate: int, now: int,
                         dateLookupError: Option<string>): Option<string>
  {
    if dateLookupError.Some? then Some(UnableToSchedule)
    else
      var data := GetVaccineInventory(rows, DriveOn(newDate));
      if data != [] && data[0].id != current.id then Some(DriveExists(data[0]))
      else if now >= current.driveDate then Some(AlreadyCompleted(current))
      else if !(newDate > current.driveDate) then Some(Prescheduling(current))
      else None
  }

  /** An edit of drive `rows[k]` goes through exactly when both lookups succeed and, for
      a new date, no drive is on that date yet, the drive has not passed and the new date
      is later than its current one. Each refusal carries its own message. */
  lemma EditRejectionSpec(rows: seq<Drive>, k: int, u: DriveUpdate, now: int,
                          idLookupError: Option<string>, dateLookupError: Option<string>)
    requires UniqueDriveIds(rows) && OneDrivePerDate(rows)
    requires 0 <= k < |rows| && rows[k].id == u.id
    ensures var rejection := EditRejection(rows, u, now, idLookupError, dateLookupError);
      var current := rows[k];
      && (rejection.None? <==>
            && idLookupError.None?
            && (u.driveDate.Some? ==>
                  && dateLookupError.None?
                  && (forall m :: 0 <= m < |rows| ==> rows[m].driveDate != u.driveDate.value)
                  && now < current.driveDate
                  && u.driveDate.value > current.driveDate))
      && (idLookupError.None? && u.driveDate.Some? && dateLookupError.Some? ==> rejection == Some(UnableToSchedule))
      && (idLookupError.None? && u.driveDate.Some? && dateLookupError.None? ==>
            forall m :: 0 <= m < |rows| && m != k && rows[m].driveDate == u.driveDate.value ==>
              rejection == Some(DriveExists(rows[m])))
      && (idLookupError.None? && u.driveDate.Some? && dateLookupError.None? && now >= current.driveDate &&
            (forall m :: 0 <= m < |rows| && m != k ==> rows[m].driveDate != u.driveDate.value) ==>
              rejection == Some(AlreadyCompleted(current)))
      && (idLookupError.None? && u.driveDate.Some? && dateLookupError.None? && now < current.driveDate &&
            u.driveDate.value <= current.driveDate &&
            (forall m :: 0 <= m < |rows| && m != k ==> rows[m].driveDate != u.driveDate.value) ==>
              rejection == Some(Prescheduling(current)))
  {
    EditKnownId(rows, k, u, now, idLookupError, dateLookupError);
    if u.driveDate.Some? {
      DateRejectionSpec(rows, k, u.driveDate.value, now, dateLookupError);
    }
  }

  /** For a known id the edit rules reduce to the lookup error and the date checks. */
  lemma EditKnownId(rows: seq<Drive>, k: int, u: DriveUpdate, now: int,
                    idLookupError: Option<string>, dateLookupError: Option<string>)
    requires UniqueDriveIds(rows)
    requires 0 <= k < |rows| && rows[k].id == u.id
    ensures EditRejection(rows, u, now, idLookupError, dateLookupError)
         == if idLookupError.Some? then idLookupError
            else if u.driveDate.None? then None
            else DateRejection(rows, rows[k], u.driveDate.value, now, dateLookupError)
  {
    LookupById(rows, u.id);
  }

  /** A move of drive `rows[k]` to `date` goes through exactly when the date lookup
      succeeds, no drive is on that date, the drive has not passed and the date is later
      than its current one; each refusal carries its own message. */
  lemma DateRejectionSpec(rows: seq<Drive>, k: int, date: int, now: int, dateLookupError: Option<string>)
    requires UniqueDriveIds(rows) && OneDrivePerDate(rows)
    requires 0 <= k < |rows|
    ensures var rejection := DateRejection(rows, rows[k], date, now, dateLookupError);
      var current := rows[k];
      && (rejection.None? <==>
            && dateLookupError.None?
            && (forall m :: 0 <= m < |rows| ==> rows[m].driveDate != date)
            && now < current.driveDate
            && date > current.driveDate)
      && (dateLookupError.Some? ==> rejection == Some(UnableToSchedule))
      && (dateLookupError.None? ==>
            forall m :: 0 <= m < |rows| && m != k && rows[m].driveDate == date ==>
              rejection == Some(DriveExists(rows[m])))
      && (dateLookupError.None? && now >= current.driveDate &&
            (forall m :: 0 <= m < |rows| && m != k ==> rows[m].driveDate != date) ==>
              rejection == Some(AlreadyCompleted(current)))
      && (dateLookupError.None? && now < current.driveDate && date <= current.driveDate &&
            (forall m :: 0 <= m < |rows| && m != k ==> rows[m].driveDate != date) ==>
              rejection == Some(Prescheduling(current)))
  {
    if dateLookupError.None? {
      DrivesOn(rows, date);
      var data := GetVaccineInventory(rows, DriveOn(date));
      if data != [] {
        var m :| 0 <= m < |rows| && rows[m] == data[0];
        FirstDriveOn(rows, date, m);
        forall m' | 0 <= m' < |rows| && rows[m'].driveDate == date ensures m' == m {
        }
        if m != k {
          assert rows[m].id != rows[k].id by {
            if m < k { assert rows[m].id < rows[k].id; } else { assert rows[k].id < rows[m].id; }
          }
        }
      }
    }
  }

  /** Edit with an unknown id: refused with the id in the message. */
  lemma EditUnknownId(rows: seq<Drive>, u: DriveUpdate, now: int, dateLookupError: Option<string>)
    requires UniqueDriveIds(rows)
    requires forall k :: 0 <= k < |rows| ==> rows[k].id != u.id
    ensures EditRejection(rows, u, now, None, dateLookupError) == Some(NoDriveWithId(u.id))
  {
    LookupById(rows, u.id);
  }

  class VaccineDriveUsecase {
    const repo: InventoryTable

    constructor (repo: InventoryTable)
      ensures this.repo == repo
    {
      this.repo := repo;
    }

    /** GetVaccineDriveDetails: the drives selected by InventoryFilter; `horizon` is the
        database's NOW() plus 30 days and `dbError` its answer. */
    method GetVaccineDriveDetails(id: int, vaccineName: string, horizon: int, dbError: Option<string>)
      returns (drives: seq<Drive>, err: Option<string>)
      ensures err == dbError
      ensures dbError.None? ==> forall d :: d in drives <==> d in repo.rows && FilterHolds(InventoryFilter(id, vaccineName, horizon), d)
      ensures dbError.None? ==> forall i, j :: 0 <= i < j < |drives| ==> drives[i].driveDate <= drives[j].driveDate
      ensures dbError.Some? ==> drives == []
    {
      err := dbError;
      drives := [];
      if dbError.None? {
        drives := GetVaccineInventory(repo.rows, InventoryFilter(id, vaccineName, horizon));
        GetVaccineInventorySpec(repo.rows, InventoryFilter(id, vaccineName, horizon));
      }
    }

    /** CreatevaccineDrive: refuse the drive when the date lookup fails or a drive is
        already on its date, and otherwise store it. `lookupError` and `dbError` are the
        database's answers to the lookup and to the insert. */
    method CreateVaccineDrive(drive: Drive, lookupError: Option<string>, dbError: Option<string>) returns (err: Option<string>)
      requires repo.Valid() && OneDrivePerDate(repo.rows)
      modifies repo
      ensures repo.Valid() && OneDrivePerDate(repo.rows)
      ensures lookupError.Some? ==> err == Some(UnableToSchedule) && repo.rows == old(repo.rows)
      ensures lookupError.None? ==> forall k :: 0 <= k < |old(repo.rows)| && old(repo.rows)[k].driveDate == drive.driveDate ==>
        err == Some(DriveExists(old(repo.rows)[k])) && repo.rows == old(repo.rows)
      ensures lookupError.None? && (forall k :: 0 <= k < |old(repo.rows)| ==> old(repo.rows)[k].driveDate != drive.driveDate) ==>
        && err == dbError
        && repo.rows == old(repo.rows) + (if dbError.None? then [drive.(id := old(repo.nextId))] else [])
    {
      if lookupError.Some? {
        return Some(UnableToSchedule);
      }
      var data := GetVaccineInventory(repo.rows, DriveOn(drive.driveDate));
      DrivesOn(repo.rows, drive.driveDate);
      if |data| > 0 {
        forall k | 0 <= k < |repo.rows| && repo.rows[k].driveDate == drive.driveDate
          ensures data[0] == repo.rows[k]
        {
          FirstDriveOn(repo.rows, drive.driveDate, k);
        }
        return Some(DriveExists(data[0]));
      }
      var created;
      created, err := repo.CreateInventory(drive, dbError);
    }

    /** EditVaccineDrive: apply the edit unless EditRejection refuses it. `now` is the
        clock; the Option parameters are the database's answers to the id lookup, the
        date lookup and the update. */
    method EditVaccineDrive(u: DriveUpdate, now: int, idLookupError: Option<string>,
                            dateLookupError: Option<string>, dbError: Option<string>) returns (err: Option<string>)
      requires repo.Valid() && OneDrivePerDate(repo.rows)
      modifies repo
      ensures repo.Valid() && OneDrivePerDate(repo.rows)
      ensures var rejection := EditRejection(old(repo.rows), u, now, idLookupError, dateLookupError);
        && (rejection.Some? ==> err == rejection && repo.rows == old(repo.rows))
        && (rejection.None? ==>
              && err == dbError
              && repo.rows == (if dbError.None? then UpdateDriveWhereId(old(repo.rows), u.id, DriveChanges(u)) else old(repo.rows)))
    {
      var rejection := CheckEdit(u, now, idLookupError, dateLookupError);
      if rejection.Some? {
        return rejection;
      }
      LookupById(repo.rows, u.id);
      ghost var k :| 0 <= k < |repo.rows| && repo.rows[k].id == u.id;
      EditRejectionSpec(repo.rows, k, u, now, idLookupError, dateLookupError);
      ghost var before := repo.rows;
      err := repo.UpdateVaccineInventory(u, dbError);
      if dbError.None? {
        UpdateKeepsOneDrivePerDate(before, k, u);
      }
    }

    /** The checks of EditVaccineDrive, in order, each returning its refusal. */
    method CheckEdit(u: DriveUpdate, now: int, idLookupError: Option<string>, dateLookupError: Option<string>)
      returns (rejection: Option<string>)
      ensures rejection == EditRejection(repo.rows, u, now, idLookupError, dateLookupError)
    {
      if idLookupError.Some? {
        return idLookupError;
      }
      var driveDetails := GetVaccineInventory(repo.rows, DriveIdIs(u.id));
      if driveDetails == [] {
        return Some(NoDriveWithId(u.id));
      }
      var current := driveDetails[0];
      if u.driveDate.Some? {
        rejection := CheckDate(current, u.driveDate.value, now, dateLookupError);
        return;
      }
      return None;
    }

    /** The date checks of EditVaccineDrive for a move of `current` to `newDate`. */
    method CheckDate(current: Drive, newDate: int, now: int, dateLookupError: Option<string>)
      returns (rejection: Option<string>)
      ensures rejection == DateRejection(repo.rows, current, newDate, now, dateLookupError)
    {
      if dateLookupError.Some? {
        return Some(UnableToSchedule);
      }
      var data := GetVaccineInventory(repo.rows, DriveOn(newDate));
      if data != [] && data[0].id != current.id {
        return Some(DriveExists(data[0]));
      }
      if now >= current.driveDate {
        return Some(AlreadyCompleted(current));
      }
      if !(newDate > current.driveDate) {
        return Some(Prescheduling(current));
      }
      return None;
    }
  }

  /** Updating the drive at index k keeps one drive per date when the edit leaves its
      date alone or moves it to a date no drive is on. */
  lemma UpdateKeepsOneDrivePerDate(rows: seq<Drive>, k: int, u: DriveUpdate)
    requires UniqueDriveIds(rows) && OneDrivePerDate(rows)
    requires 0 <= k < |rows| && rows[k].id == u.id
    requires u.driveDate.Some? ==> forall m :: 0 <= m < |rows| ==> rows[m].driveDate != u.driveDate.value
    ensures OneDrivePerDate(UpdateDriveWhereId(rows, u.id, DriveChanges(u)))
  {
    var r := UpdateDriveWhereId(rows, u.id, DriveChanges(u));
    forall m | 0 <= m < |rows| ensures r[m].driveDate == if m == k then (if u.driveDate.Some? then u.driveDate.value else rows[k].driveDate) else rows[m].driveDate {
      ApplyDriveUpdate(rows[m], u);
      if m != k {
        assert rows[m].id != rows[k].id by {
          if m < k { assert rows[m].id < rows[k].id; } else { assert rows[k].id < rows[m].id; }
        }
      }
    }
  }
}
