# School vaccination portal: bulk-upload pipeline and record rules

This project models the back end of a school vaccination portal (Go). An administrator
uploads a spreadsheet of students or of vaccination records. The file goes to an object
store, a row in the `bulk_file_jobs` table records the job, and the job is published to a
message queue. A worker then processes the job:

- it marks the job PROCESSING;
- it checks the file's container signature (ZIP for .xlsx, Compound File for .xls);
- it records the row count and walks the data rows, aborting on a row of the wrong
  width or with a non-numeric id;
- it sends the valid rows to the record creator and keeps the validation rejections;
- it writes a per-row "Accepted"/"Rejected" report, uploads it, and leaves the job
  FAILED or PROCESSED.

Around the pipeline sit the parts it depends on:

- the student, vaccination-record and drive-inventory tables, with their sparse-update
  change sets;
- the two existence checks that split vaccination records into insertable and rejected;
- the search and report query builders;
- the drive scheduling rules: at most one drive per date; edits only move a drive later;
  a completed drive cannot be edited.

Modules follow the source files:

| file | module | models |
|---|---|---|
| common.dfy | Common | outcomes, cell values, pagination (LIMIT/OFFSET), ORDER BY as a stable insertion sort, filtering |
| text.dfy | Text | `%d` formatting, `strconv.Atoi` (int64 range), `strings.Join`, `filepath.Base`, SQL `LIKE` |
| jobstore.dfy | BulkFileJobsRepo | repository/bulkfilejobs.go: job table, change set, object store, broker |
| students.dfy | StudentRepo | repository/studentmanagement.go |
| vaccinationrecords.dfy | VaccinationRecordRepo | repository/studentvaccinationrecords.go: the student/record join, selection clauses |
| inventory.dfy | InventoryRepo | repository/vaccineinventory.go |
| driveusecase.dfy | VaccineDriveUsecase | usecase/vaccineinventoryusecase.go |
| studentusecase.dfy | StudentUsecase | usecase/studentmanagement.go |
| bulkjobs.dfy | BulkJobUsecase | usecase/bulkfilejobsusecase.go |

Outside services are parameters rather than calls. Each answer is an `Option<string>`:
`None` means the call succeeded, and `Some(m)` is the error text.

- Database errors: `dbError`, `lookupError`, `countError`.
- Per-insert answers: the sequence `answers`.
- Inventory lookups that fail: the map `lookupErrors` from drive filter to message.
- Student lookups that fail: the set `studentLookupErrors`.
- Object-store put failures: `putError`.
- Broker failures: `publishError`.
- Failures creating the temporary copy, opening the file, opening the workbook or
  saving the report: `BulkFaults`.
- The rows the workbook library reads from the first sheet: `rows: seq<seq<string>>`.
- The student request validator: a function `Student -> Option<string>`.
- The clock: a day number `now`. A stored drive date is that day's midnight, so the
  clock is after it from the drive's own day on.

Dates are integer day numbers. Environment values travel in a `Config`: the bucket, and
the server and port of the object store.

The tables are classes whose methods change their `rows`. The job table also keeps a
ghost `log` of the patches written to it, so the order of the writes a run makes can be
stated. After each run:

- the log ends with the PROCESSING patch, then exactly one final patch;
- the row equals the result of applying the two change sets in that order.

## Model

| member | source | states |
|---|---|---|
| Common.Paginate | repository/bulkfilejobs.go:103-104 | with a non-negative LIMIT the page is the window starting after OFFSET with at most LIMIT elements, so LIMIT 0 gives an empty page; a negative LIMIT returns the input unchanged |
| Common.SortBy | repository/vaccineinventory.go:25 | ORDER BY yields a sequence sorted by the key that is a permutation of the input |
| Common.SortByMembers | repository/vaccineinventory.go:33 | ordering neither adds nor drops an element |
| Common.InsertBySorted | repository/vaccineinventory.go:25 | inserting into a sorted sequence keeps it sorted; the new head is the inserted element or the old head |
| Common.PageOfSorted | repository/bulkfilejobs.go:99-104 | a page of an ordered result holds only input elements, in key order, no more than the input or a positive limit |
| Common.PageSorted | repository/studentvaccinationrecords.go:60-64 | every page of a sorted result is sorted |
| Common.AcceptedRecordsCount | usecase/bulkfilejobsusecase.go:184-196 | the records that an outcome list persists are exactly as many as its accepted outcomes |
| Common.AcceptedIgnoresRejected | usecase/studentmanagement.go:103 | appending rejected outcomes changes neither the persisted records nor the accepted count |
| Common.AcceptedAll | repository/studentmanagement.go:20-31 | when every insert succeeds, every outcome counts as accepted |
| Common.RejectsSpec | usecase/studentmanagement.go:72-99 | each element is either kept or rejected; every rejection comes from an element that was not kept |
| Text.IntToString | usecase/studentmanagement.go:174 | `%d` gives a non-empty string with a leading '-' exactly for negative numbers |
| Text.Atoi | usecase/bulkfilejobsusecase.go:133-148 | `strconv.Atoi` succeeds only on an optionally signed decimal inside the int64 range |
| Text.AtoiIntToString | usecase/bulkfilejobsusecase.go:133-148 | parsing the `%d` text of any int64 gives back the number |
| Text.JoinSnoc | usecase/studentmanagement.go:176 | `strings.Join` puts the separator only between parts |
| Text.JoinEmpty | usecase/studentmanagement.go:176 | joining non-empty parts is empty exactly when there are no parts |
| Text.PathBase | repository/bulkfilejobs.go:37 | `filepath.Base` is never empty and has no slash, except for the root "/" |
| Text.PathBaseOfJoin | repository/bulkfilejobs.go:37 | the base of `dir/name` is `name` |
| Text.PathBaseOfName | repository/bulkfilejobs.go:37 | a bare file name is its own base |
| Text.LikeLiteral | usecase/vaccineinventoryusecase.go:80 | a LIKE pattern without wildcards matches only the identical string |
| Text.LikeContains | usecase/studentmanagement.go:148 | `LIKE '%n%'` matches exactly the strings containing `n` |
| BulkFileJobsRepo.UpdateWhereId | repository/bulkfilejobs.go:94 | the id-scoped update: every row keeps its id and position, rows with another id are unchanged, and only the rows with the patch's id take the change set |
| BulkFileJobsRepo.UpdateAllRows | repository/bulkfilejobs.go:94 | the update as written reaches every row of the table, each keeping its id |
| BulkFileJobsRepo.UnscopedUpdateTouchesOtherJobs | repository/bulkfilejobs.go:94 | marking job 1 PROCESSING as written also marks job 2, which the id-scoped update leaves as it was |
| BulkFileJobsRepo.JobChangesColumns | repository/bulkfilejobs.go:77-93 | each of status, file_path, total_records, processed_records, error_message is in the change set iff the patch holds a non-empty or non-zero value; id, request_id, request_type and file_name never are |
| BulkFileJobsRepo.ApplyPatchFields | repository/bulkfilejobs.go:77-94 | an update writes exactly the non-zero fields of the patch and changes nothing else |
| BulkFileJobsRepo.ZeroCannotBeWritten | repository/bulkfilejobs.go:86-92 | a zero processed count or an empty error message can never overwrite a stored one |
| BulkFileJobsRepo.StatusOnlyPatch | usecase/bulkfilejobsusecase.go:67 | the patch of only id and status changes only the status |
| BulkFileJobsRepo.JobTable.CreateFileUpload | repository/bulkfilejobs.go:62-64 | on success the job is appended with the next id; on a database error nothing changes |
| BulkFileJobsRepo.JobTable.UpdateFileUpload | repository/bulkfilejobs.go:77-95 | the table becomes the change set of the patch applied to the row with the patch's id; the patch is logged |
| BulkFileJobsRepo.GetBulkFileJobsSpec | repository/bulkfilejobs.go:96-116 | listed jobs match the request id (all jobs for an empty one), ascend by id, are at most the count and a non-negative limit (none for LIMIT 0), and are all matching jobs for a negative limit |
| BulkFileJobsRepo.CountIgnoresPagination | repository/bulkfilejobs.go:118-133 | the job count does not depend on the pagination |
| BulkFileJobsRepo.ObjectKeyLayout | repository/bulkfilejobs.go:37 | the object key is root + unique id + "/" + the file's base name |
| BulkFileJobsRepo.ReportUrlLayout | usecase/bulkfilejobsusecase.go:219 | the report address is `http://server:port/bucket/` followed by the key |
| BulkFileJobsRepo.BlobStore.UploadFileToMinio | repository/bulkfilejobs.go:36-40 | the local file is removed on every path; a missing local file gives the `open` error, with no key and nothing stored; a successful put stores it under the key and returns the key; a failed put stores nothing and returns the empty key and the error |
| BulkFileJobsRepo.PublishTarget | repository/bulkfilejobs.go:66-75 | the queue name argument is ignored: default exchange, routing key "async-file-processing-queue", delivery mode 2, the job as body |
| BulkFileJobsRepo.MessageQueue.SubmitToRabbitMQ | repository/bulkfilejobs.go:66-75 | the publishing is appended exactly when the broker accepts it; the broker's error is returned |
| StudentRepo.GetStudentsAll | repository/studentmanagement.go:33-43 | the selection text is empty only for no filter, and then every student is returned |
| StudentRepo.GetStudentById | usecase/studentmanagement.go:87-88 | with unique ids an id lookup returns at most one row; exactly one iff the id is stored; that row is the stored student |
| StudentRepo.UpdateStudentWhereId | repository/studentmanagement.go:62-63 | every row keeps its id and position and ids stay unique; rows with another id are unchanged and only the row with the given id takes the change set |
| StudentRepo.StudentChangesColumns | repository/studentmanagement.go:44-61 | name, roll_number, class, gender and phone_no are each in the change set iff non-empty; id never is |
| StudentRepo.ApplyStudentPatch | repository/studentmanagement.go:44-63 | the update writes exactly the non-empty fields and keeps the id and every other field |
| StudentRepo.StudentTable.CreateStudentRecord | repository/studentmanagement.go:18-32 | one outcome per input in input order; status iff the insert had no error; the reason is the error text, empty on success; a failed insert does not stop later ones; successful inserts are appended with fresh ids |
| StudentRepo.StudentTable.InsertOne | repository/studentmanagement.go:21-29 | one insert: appended with a fresh id on success; on failure unchanged and the outcome carries the error |
| StudentRepo.StudentTable.UpdateStudents | repository/studentmanagement.go:44-64 | on success the row with the id gets the change set; on a database error nothing changes |
| VaccinationRecordRepo.JoinedRowsOf | repository/studentvaccinationrecords.go:40 | every joined row carries the student's columns; a LEFT JOIN gives each student at least one row |
| VaccinationRecordRepo.Joined | repository/studentvaccinationrecords.go:38-41 | a LEFT JOIN has at least as many rows as students |
| VaccinationRecordRepo.LeftJoinCoversInnerJoin | usecase/studentmanagement.go:55-60 | the inner-join rows are exactly the left-join rows that have a drive |
| VaccinationRecordRepo.JoinedDriveIds | repository/studentvaccinationrecords.go:39-40 | a joined row with a drive id comes from a stored record of that student and drive |
| VaccinationRecordRepo.DriveIdList | usecase/studentmanagement.go:172-175 | one `%d` placeholder per drive id, in order |
| VaccinationRecordRepo.ClauseText | usecase/studentmanagement.go:130-182 | no clause renders as the empty string |
| VaccinationRecordRepo.SelectionStringEmpty | usecase/studentmanagement.go:126-184 | the selection string is empty iff no clause was added |
| VaccinationRecordRepo.SelectionStringSnoc | usecase/studentmanagement.go:133-137 | adding a clause sets it alone on an empty string, else appends " AND " and the clause |
| VaccinationRecordRepo.SatisfiesAppend | repository/studentvaccinationrecords.go:55 | a row satisfies an AND of two clause lists iff it satisfies both |
| VaccinationRecordRepo.GetStudentVaccinationRecordSpec | repository/studentvaccinationrecords.go:34-66 | returned rows satisfy the selection and come from the left join; limit 0 returns every counted row; a positive limit bounds the page and orders by id |
| VaccinationRecordRepo.CountBounds | repository/studentvaccinationrecords.go:67-80 | the unfiltered left-join count is at least the number of students and at least the inner-join count |
| VaccinationRecordRepo.VaccinationRecordTable.CreateVaccinationRecord | repository/studentvaccinationrecords.go:19-33 | one outcome per input in input order; status iff no insert error; reason is the error text; later inserts go on after a failure; successful ones are appended |
| VaccinationRecordRepo.VaccinationRecordTable.InsertOne | repository/studentvaccinationrecords.go:22-29 | one insert: appended with a fresh id on success, unchanged on failure |
| InventoryRepo.GetVaccineInventorySpec | repository/vaccineinventory.go:21-39 | results ascend by drive date, are exactly the matching drives (a permutation of the filtered table), and no filter gives every drive |
| InventoryRepo.LookupMembers | repository/vaccineinventory.go:33 | a drive is returned iff it is stored and matches the filter |
| InventoryRepo.LookupById | usecase/vaccineinventoryusecase.go:45-52 | with unique ids an id lookup gives at most one drive, none iff the id is unknown, otherwise the stored drive |
| InventoryRepo.LookupEmpty | usecase/studentmanagement.go:76 | a lookup is empty iff no stored drive matches |
| InventoryRepo.EarliestMatchSpec | repository/vaccineinventory.go:33 | the earliest match is a stored matching drive dated no later than any other match |
| InventoryRepo.FirstRowIsEarliest | usecase/studentmanagement.go:221-222 | when something matches, the first row of a lookup is the earliest matching drive |
| InventoryRepo.UpdateDriveWhereId | repository/vaccineinventory.go:59 | every drive keeps its id and position and ids stay unique; drives with another id are unchanged and only the drive with the given id takes the change set |
| InventoryRepo.DriveChangesColumns | repository/vaccineinventory.go:44-58 | drive_date, vaccine_name, doses and classes are each in the change set iff the option is present; id never is |
| InventoryRepo.ApplyDriveUpdate | repository/vaccineinventory.go:44-59 | present options are written even when zero or empty; absent ones keep the stored value |
| InventoryRepo.InventoryTable.CreateInventory | repository/vaccineinventory.go:40-42 | on success the drive is appended with the next id; on error nothing changes |
| InventoryRepo.InventoryTable.UpdateVaccineInventory | repository/vaccineinventory.go:44-60 | on success the drive with the id gets the change set; on error nothing changes |
| VaccineDriveUsecase.InventoryFilterResults | usecase/vaccineinventoryusecase.go:75-85 | a non-zero id selects that drive; else a name selects by LIKE; else the drives up to the horizon; the filter is never empty |
| VaccineDriveUsecase.DrivesOn | usecase/vaccineinventoryusecase.go:28-36 | the date lookup is empty iff no drive is on that date, and returns only drives on it |
| VaccineDriveUsecase.FirstDriveOn | usecase/vaccineinventoryusecase.go:34-35 | with one drive per date, the drive named in the error is the one on that date |
| VaccineDriveUsecase.EditRejectionSpec | usecase/vaccineinventoryusecase.go:42-72 | an edit of a known drive is allowed iff its lookups succeed and, with a new date, no drive is on that date, the drive's day has not yet come (`now < driveDate`; on the drive's own day it counts as completed) and the date is strictly later; each failed guard gives its own message, in the source's order |
| VaccineDriveUsecase.EditKnownId | usecase/vaccineinventoryusecase.go:43-56 | for a stored id, the edit is refused by the id lookup error, allowed without a new date, and otherwise decided by the date checks on that drive |
| VaccineDriveUsecase.DateRejectionSpec | usecase/vaccineinventoryusecase.go:54-72 | moving a drive goes through iff the date lookup succeeds, no drive is on the date, the drive's day has not yet come (`now < driveDate`) and the date is later; a failed lookup, another drive on the date, a drive whose day has come and a date not later each give their own message |
| VaccineDriveUsecase.EditUnknownId | usecase/vaccineinventoryusecase.go:50-52 | an unknown id is refused with "no drive exists with id N" |
| VaccineDriveUsecase.VaccineDriveUsecase.GetVaccineDriveDetails | usecase/vaccineinventoryusecase.go:22-24 | returns the drives matching the filter, by ascending date; nothing on a database error |
| VaccineDriveUsecase.VaccineDriveUsecase.CreateVaccineDrive | usecase/vaccineinventoryusecase.go:25-40 | a failed lookup or a drive already on that date creates nothing, with the matching message; otherwise the drive is inserted; one drive per date is preserved |
| VaccineDriveUsecase.VaccineDriveUsecase.EditVaccineDrive | usecase/vaccineinventoryusecase.go:42-74 | a rejected edit (EditRejection, which refuses a date change from the drive's own day on) changes nothing and returns the rejection; otherwise the option-based update is applied; one drive per date is preserved |
| VaccineDriveUsecase.VaccineDriveUsecase.CheckEdit | usecase/vaccineinventoryusecase.go:43-72 | the guard sequence returns exactly the rejection the edit rules give, the drive-day rule included |
| VaccineDriveUsecase.VaccineDriveUsecase.CheckDate | usecase/vaccineinventoryusecase.go:54-72 | the date checks return exactly the refusal the date rules give; `time.Now().After(driveDate)` holds from the drive's own day on |
| VaccineDriveUsecase.UpdateKeepsOneDrivePerDate | usecase/vaccineinventoryusecase.go:54-73 | an update to a date no drive holds keeps one drive per date |
| StudentUsecase.DriveLookupFilterSpec | usecase/studentmanagement.go:106-116 | a non-zero id looks the drive up by id, otherwise by exact vaccine name |
| StudentUsecase.StudentLookupSize | usecase/studentmanagement.go:87-88 | the student lookup returns as many rows as students with that id |
| StudentUsecase.StudentCheck | usecase/studentmanagement.go:87-97 | with unique ids a record passes the student check iff the lookup succeeds and the student exists |
| StudentUsecase.RejectionsSpec | usecase/studentmanagement.go:68-104 | every record is either checked or rejected; each rejection is an input record failing a check, not accepted, with the drive message if the drive check failed (it runs first) and the student message otherwise |
| StudentUsecase.CheckStep | usecase/studentmanagement.go:72-99 | one loop step appends the record to the valid list or its rejection to the invalid list |
| StudentUsecase.StudentManagementUsecase.CheckRecord | usecase/studentmanagement.go:72-97 | the two existence checks for one record, the drive check first |
| StudentUsecase.StudentManagementUsecase.CheckRecords | usecase/studentmanagement.go:72-99 | the valid and invalid lists are the checked records and the rejections, in input order |
| StudentUsecase.StudentManagementUsecase.CreateVaccinationRecords | usecase/studentmanagement.go:68-104 | one outcome per input: the inserts of the checked records in input order, then the rejections in input order; only accepted inserts reach the table |
| StudentUsecase.StudentManagementUsecase.CreateStudentRecords | usecase/studentmanagement.go:50-52 | one outcome per input with the database's answer; accepted students are appended |
| StudentUsecase.StudentManagementUsecase.UpdateStudentRecord | usecase/studentmanagement.go:32-49 | a failed lookup or an unknown id updates nothing and returns the error ("student record with id N is not available"); otherwise the sparse update is applied and the updated row returned |
| StudentUsecase.StudentManagementUsecase.VerifyDriveExists | usecase/studentmanagement.go:106-116 | the inventory lookup with the id-or-name filter, or its error and no drives |
| StudentUsecase.RegisterDrives | usecase/studentmanagement.go:161-163 | the register holds every looked-up drive under its own id and nothing else |
| StudentUsecase.RegisterKeys | usecase/studentmanagement.go:168-171 | the key list names each register key exactly once |
| StudentUsecase.RegisterOfLookup | usecase/studentmanagement.go:156-163 | the register of a name lookup holds exactly the drives of that vaccine |
| StudentUsecase.StudentManagementUsecase.DrivesForVaccine | usecase/studentmanagement.go:153-171 | the register and the key list of the drives of a vaccine, or the lookup error and nothing |
| StudentUsecase.AddClause | usecase/studentmanagement.go:132-137 | adding an optional clause to a query string built from clauses gives the string of the extended clause list |
| StudentUsecase.SearchClausesSpec | usecase/studentmanagement.go:126-186 | a row satisfies the search iff it matches every supplied field (id, roll number, class, name LIKE, drive in the vaccine's drives); no supplied field gives no clause |
| StudentUsecase.StudentManagementUsecase.SearchSelection | usecase/studentmanagement.go:126-184 | the query string is the clauses id, roll_no, class, name, drive IN in that order, joined by " AND " |
| StudentUsecase.StudentManagementUsecase.ReportSelection | usecase/studentmanagement.go:239-273 | the report query is the drive IN clause, then the class clause |
| StudentUsecase.DriveOrderIrrelevant | usecase/studentmanagement.go:168-176 | the order of the drive ids does not change which rows the IN clause selects |
| StudentUsecase.JoinLookupsFind | usecase/studentmanagement.go:214-222 | when every stored drive id resolves, every joined row can be completed |
| StudentUsecase.Completed | usecase/studentmanagement.go:199-230 | never more detail rows than joined rows |
| StudentUsecase.CompletedSnoc | usecase/studentmanagement.go:200-230 | one loop step appends the completion of one row |
| StudentUsecase.CompletedKeepsUnvaccinated | usecase/studentmanagement.go:208-209 | a row without a drive gives a non-vaccinated detail |
| StudentUsecase.CompletedUsesOwnDrive | usecase/studentmanagement.go:210-228 | a row with a drive that is not dropped reports its own drive's name and date |
| StudentUsecase.CompletedLength | usecase/studentmanagement.go:200-230 | when no lookup fails, every row gives a detail |
| StudentUsecase.RowDriveIsOwnDrive | usecase/studentmanagement.go:212-222 | the drive used for a row is the drive with the row's drive id |
| StudentUsecase.StudentManagementUsecase.CompleteRow | usecase/studentmanagement.go:201-229 | one row: its completion, the register kept consistent; it looks the drive up exactly when the row has a drive the register lacks, returns that lookup's answer, and caches the id only when the lookup succeeds |
| StudentUsecase.StudentManagementUsecase.CompleteNext | usecase/studentmanagement.go:201-229 | one loop step appends the row's completion, caches the ids its lookups find and takes the lookup's answer as the error |
| StudentUsecase.LastLookupErrorDropped | usecase/studentmanagement.go:215-231 | the last lookup's answer is an error only when some row was dropped, and with no dropped row it is nil |
| StudentUsecase.StudentManagementUsecase.CompleteDetails | usecase/studentmanagement.go:200-230 | the detail rows are the completion of the joined rows; the error is the answer of the last id lookup made (LastLookupError), so an error only if some row was dropped, and nil after a later successful lookup |
| StudentUsecase.StudentManagementUsecase.GetStudentVaccinationRecords | usecase/studentmanagement.go:118-232 | a failed name lookup or a vaccine without drives returns its error first; then it returns the count error, or the count followed by the query error or the completed rows with the last lookup's answer as the error; rows are completed through the register keyed by drive id, the corrected form of the code's student-keyed read (see Findings) |
| StudentUsecase.VaccinationReport | usecase/studentmanagement.go:313-335 | the report has a header row and one row per detail |
| StudentUsecase.VaccinationReportSpec | usecase/studentmanagement.go:316-335 | columns A-E are the student's; F is "Vaccinated" or "Non Vaccinated"; only for a vaccinated student G is the vaccine name and H the vaccination date text |
| StudentUsecase.StudentManagementUsecase.ReportSheet | usecase/studentmanagement.go:313-335 | the loop writes exactly the report sheet |
| StudentUsecase.StudentManagementUsecase.SaveAndUpload | usecase/studentmanagement.go:337-350 | a failed save gives "Internal server Error" and stores nothing; otherwise the local file is removed and a successful put stores the sheet under reports/<request id>/Report.xlsx and returns its address |
| StudentUsecase.StudentManagementUsecase.GenerateVaccinationReport | usecase/studentmanagement.go:234-351 | a failed lookup or a vaccine without drives gives its error and stores nothing; otherwise the query error, the save error, the put error, or the report of the completed rows stored and its address; rows are completed through the register keyed by drive id, the corrected form of the code's student-keyed read (see Findings) |
| StudentUsecase.StudentKeyedRegisterReportsWrongDrive | usecase/studentmanagement.go:212-222 | a concrete case where the register read by student id reports another drive's date |
| BulkJobUsecase.ReadHeader | usecase/bulkfilejobsusecase.go:85-92 | reading the header fails only on an empty file; otherwise it is 8 bytes |
| BulkJobUsecase.SignatureSpec | usecase/bulkfilejobsusecase.go:93-98 | a file passes iff it starts with 50 4B 03 04 or its first 8 bytes are D0 CF 11 E0 A1 B1 1A E1 |
| BulkJobUsecase.FileFailure | usecase/bulkfilejobsusecase.go:69-106 | a refused file is refused with "Internal Server Error" or with "Inavlid File, Only .xlsx or .xls allowed" |
| BulkJobUsecase.UnsignedFileRefused | usecase/bulkfilejobsusecase.go:93-98 | a fetched, opened file without either signature is refused as invalid |
| BulkJobUsecase.ScanFile | usecase/bulkfilejobsusecase.go:121-167 | the row loop returns the scan of the rows: header skipped, aborted at the first bad row, else the records to persist and the rejections |
| BulkJobUsecase.AbortSticks | usecase/bulkfilejobsusecase.go:125-148 | after a bad row, later rows change nothing |
| BulkJobUsecase.ScanCounts | usecase/bulkfilejobsusecase.go:121-167 | a completed scan puts each data row in exactly one of the two lists |
| BulkJobUsecase.ScanSplitsRows | usecase/bulkfilejobsusecase.go:121-167 | the scan aborts iff some data row is bad; otherwise the kept rows' records and the rejected rows' outcomes, each in file order |
| BulkJobUsecase.AbortNamesFirstBadRow | usecase/bulkfilejobsusecase.go:125-148 | an aborted scan carries the first bad row's message |
| BulkJobUsecase.ScanRejectsOnlyRejected | usecase/bulkfilejobsusecase.go:158-165 | the rejections the loop collects are all marked not accepted |
| BulkJobUsecase.VaccineRowSpec | usecase/bulkfilejobsusecase.go:125-166 | a row is bad iff it is not 2 columns ("Missing Columns") or an id is not a number ("invalid entry at row i+1"); a zero id is rejected with "invalid input"; other rows are kept |
| BulkJobUsecase.VaccineRowRoundTrip | usecase/bulkfilejobsusecase.go:133-165 | a row of two `%d` ids reads back as those ids, kept when both are non-zero |
| BulkJobUsecase.StudentRowSpec | usecase/bulkfilejobsusecase.go:288-319 | a row is bad iff it is not 5 columns; otherwise it is the student of its columns, rejected with the validator's message or kept |
| BulkJobUsecase.RowRejectionsUnaccepted | usecase/bulkfilejobsusecase.go:158-165 | both row checks mark their rejections not accepted |
| BulkJobUsecase.BulkReport | usecase/bulkfilejobsusecase.go:174-196 | one header row, then one row per outcome |
| BulkJobUsecase.BulkReportSpec | usecase/bulkfilejobsusecase.go:184-196 | outcome k is on row k+2: the record's columns, then "Accepted", or "Rejected" and the reason |
| BulkJobUsecase.RenderReport | usecase/bulkfilejobsusecase.go:184-197 | the loop writes the report sheet and counts the accepted outcomes |
| BulkJobUsecase.RunLeavesTerminalRow | usecase/bulkfilejobsusecase.go:67-225 | after the two writes of a run the job is FAILED or PROCESSED; the file path becomes the report address only on full success; the total is untouched when the file is refused |
| BulkJobUsecase.ProcessedWithinTotal | usecase/bulkfilejobsusecase.go:114-197 | the processed count never exceeds the data row count |
| BulkJobUsecase.VaccineRunOutcomesJoin | usecase/bulkfilejobsusecase.go:168-171 | the record creator's outcomes followed by the validation rejections are the run's outcomes |
| BulkJobUsecase.StudentRunOutcomesJoin | usecase/bulkfilejobsusecase.go:321-324 | the same for the student run |
| BulkJobUsecase.BulkFileJobUsecase.GetBulkFileJobDetails | usecase/bulkfilejobsusecase.go:29-48 | a count error returns at once; a list error returns the count; otherwise the count and the page |
| BulkJobUsecase.BulkFileJobUsecase.UploadBulkRequestFile | usecase/bulkfilejobsusecase.go:50-65 | a missing local file or a failed upload returns its error, with no job row and no publish; a failed insert returns the wrapped error and publishes nothing; otherwise the job, with the uploaded key as its file path, is inserted and published |
| BulkJobUsecase.BulkFileJobUsecase.ProcessBulkVaccineRecord | usecase/bulkfilejobsusecase.go:66-226 | always returns no error; logs PROCESSING then one final patch; a refused file or a bad row fails the job and persists nothing; otherwise the persisted outcomes then the rejections, only accepted records stored, the report stored, and the final patch |
| BulkJobUsecase.BulkFileJobUsecase.PersistVaccineRows | usecase/bulkfilejobsusecase.go:168-225 | persist, report and final write of a vaccination run whose rows were all read |
| BulkJobUsecase.BulkFileJobUsecase.ProcessBulkStudentRecord | usecase/bulkfilejobsusecase.go:228-381 | the same run over student rows, persisted through CreateStudentRecords |
| BulkJobUsecase.BulkFileJobUsecase.PersistStudentRows | usecase/bulkfilejobsusecase.go:321-380 | persist, report and final write of a student run whose rows were all read |
| BulkJobUsecase.BulkFileJobUsecase.FinishRun | usecase/bulkfilejobsusecase.go:197-225 | a save or put failure ends PROCESSED with "Report File Not Genrated"; success ends PROCESSED with the report address; the report is stored as the object store's contract says |
| BulkJobUsecase.BulkFileJobUsecase.RecordReport | usecase/bulkfilejobsusecase.go:199-225 | the final patch is the one the reached stage prescribes |

## Left out

- The queue consumer loop (main.go:28-70): goroutines, Qos, ack timing. The processors
  are modelled as called once per message. After a failed unmarshal the loop acks and
  still reaches the switch. Its default branch never acks.
- The HTTP layer (controllers, routing, request binding), response shaping and the
  dashboard counters (usecase/studentmanagement.go:54-66). The dashboard counters are
  two count queries; CountBounds and LeftJoinCoversInnerJoin state how the two joins
  relate.
- The spreadsheet, object-store, broker and SQL libraries. Rows are given as strings.
  A saved workbook is stored as its cells. Content gives a workbook the ZIP signature as
  its bytes, because the library's package bytes are not modelled.
- The request validator's rules (utils/validator is not part of this model): the
  student check is a parameter. The vaccination request's `required` tags are modelled
  as "both ids non-zero".
- The clock and date formatting: dates are day numbers, and the 30-day window of the
  inventory filter is a `horizon` parameter.
- SQL injection through interpolated strings. Only the shape of each query string is
  modelled. LIKE has no collation or case folding.
- map iteration order: the drive ids of the IN clause come in an order the model leaves
  open. DriveOrderIrrelevant shows it does not matter.
- `log.Fatalf` on a row-read error (usecase/bulkfilejobsusecase.go:116, 279): the rows
  are taken as readable. The first sheet of `GetSheetList` is taken to exist.
- Write errors of the job store: every caller ignores them.
- Concurrent workers all write the same local "Report.xlsx"; the model runs one job at
  a time.
- BulkFileJobsRepo.JobTable.UpdateFileUpload: the Go code chains `.Where("id = ?")`
  after `.Updates(...)` (repository/bulkfilejobs.go:94), so the id condition is not part
  of the UPDATE it issues. The model applies the update to the job with the patch's id,
  as the student update does (repository/studentmanagement.go:63); see Findings.
- Common.Paginate and BulkFileJobsRepo.GetBulkFileJobsSpec: the ORM's version is not
  part of this model. `Count(&result)` into an `int` (repository/bulkfilejobs.go:119-131)
  is the GORM v1 interface, so the MySQL dialect of GORM v1 is assumed: LIMIT for a
  non-negative limit, OFFSET only with it. Under an ORM that omits `LIMIT 0`, a zero
  limit would list every matching job instead of none.
- Common.SortBy: ORDER BY is modelled as a stable sort, so rows with equal keys keep
  their table order (a student with two records under `ORDER BY id`, drives on one
  date). The database does not fix that order; the model picks one.
- The worker builds the student use case with a nil inventory repository (main.go:42),
  so on the bulk vaccination path `verifyDriveExists` would call through nil. The model
  gives the worker's use case the inventory table.
- StudentUsecase.StudentManagementUsecase.GetStudentVaccinationRecords: requires
  RecordDrivesResolve. Every stored non-zero drive id must name a stored drive or have
  a failing lookup, because the code takes `driveInfo[0]` without checking that the
  lookup returned anything (usecase/studentmanagement.go:221).
- StudentUsecase.StudentManagementUsecase.GenerateVaccinationReport: requires
  RecordDrivesResolve for the same reason (usecase/studentmanagement.go:302). A failed
  per-row drive lookup drops that row and is otherwise ignored, as in the code.
- StudentUsecase.StudentManagementUsecase.UpdateStudentRecord: the second lookup after
  the update is taken to succeed. Its error and its empty result, which would panic
  at `studentData[0]`, are not modelled.
- The temporary copy of GetFileFromActiveServer (repository/bulkfilejobs.go:41-61) is
  never removed by the code. The model fetches the object's content directly and does
  not track the copy. A failing temporary copy is the `tempFails` answer.
- BulkJobUsecase.BulkFileJobUsecase.GetBulkFileJobDetails: on a count error the count is 0, the value the
  untouched variable holds (repository/bulkfilejobs.go:119). On a list error the result is empty; whatever
  partial slice the SQL library might leave is not modelled.
- The total of an empty sheet: `len(rows) - 1` is written as −1
  (usecase/bulkfilejobsusecase.go:114, 277), and the model keeps that value.

## Findings

| source | as written | input that shows it | evidently intended | confidence | as-written member | corrected member |
|---|---|---|---|---|---|---|
| repository/bulkfilejobs.go:94 | `.Updates(updates)` is issued on the table before `.Where("id = ?", model.Id)` is chained, so the UPDATE has no id condition and the later Where builds an unused query | jobs 1 and 2 both PENDING; the worker's PROCESSING patch for job 1 also sets job 2 to PROCESSING | `Where("id = ?", model.Id).Updates(updates)`, as repository/studentmanagement.go:63 does | not executed | BulkFileJobsRepo.UnscopedUpdateTouchesOtherJobs | BulkFileJobsRepo.UpdateWhereId |
| usecase/studentmanagement.go:212 | the drive register, keyed by drive id (line 162), is read and filled with the student's id `j.Id` (lines 212, 221; again 293, 302) | a vaccine-name search registers drives 3 (day 10) and 7 (day 20); student 3 was vaccinated in drive 7, and the row reports day 10, the date of drive 3 | look the drive up under the row's drive id `j.DriveId` | not executed | StudentUsecase.StudentKeyedRegisterReportsWrongDrive | StudentUsecase.CompletedUsesOwnDrive |
