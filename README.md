# School administration core: enrollment, promotion and the tables behind them

This project models the core of a small school-administration application. The application is written in Python on top of SQLite.

- **Grade progression.** A fixed table of fourteen grades leads from `pre-jardin` to `once`. `get_next_course` looks a grade up in it.
- **Controllers.** Each controller reads and writes one table of the database:
  - courses, with `UNIQUE(name, seccion)` and an `active` flag;
  - students, with a unique identification number and a current-course pointer;
  - enrollments, one student in one course for one academic year, with a status;
  - payments, whose receipt number is derived from the payment's own id and date;
  - course fees (an upsert);
  - key/value configuration.
- **Promotion.**
  - The controller's `promote_student` looks up the enrollment, its course, the next grade and the first active course of that grade. It then moves the student and enrolls them for the following year.
  - The enrollment screen's `process_enrollment` first writes the chosen status. For `promovido` it then promotes by matching the grade text before the first `-`.
- **Spreadsheet import.** Each sheet names a course. Its rows are parsed into registrations, which are registered and enrolled for the current year.
- **Exports.** Students are sorted by the rank `course_sort_key` gives their grade, then grouped one sheet per course for Excel, or laid out in a PDF table with fitted column widths. The operations model the rank as written, under which `pre-jardin` sorts last (see Findings). The `…Intended` variants sort with the corrected rank.
- **Students list panel.** It supports search and pagination.
- **Dashboard.** It shows the counting part of the statistics.

The database is one object, `Store.Database`.

- Each of its fields is a table: a sequence of rows in rowid order together with its AUTOINCREMENT counter.
- Its invariant `Valid()` holds the ids in increasing order and the two UNIQUE constraints.
- Each controller call is one commit-or-rollback unit (src/utils/db_utils.py), so a call that fails leaves its table as it was. Calls made one after another are not atomic together.
- Storage errors are parameters: `failure: Option<string>` is the text of the exception a statement raises, if it raises one.
- The current time is a `DateTime` parameter. It is written to the tables with `Timestamp.Format`, which is `strftime("%Y-%m-%d %H:%M:%S")`.

Modules follow the source files:

| module | source |
|---|---|
| `Progression` | src/utils/progression.py |
| `Store` | src/models/database.py, src/utils/db_utils.py |
| `CourseController` | src/controllers/course_controller.py |
| `StudentController` | src/controllers/student_controller.py |
| `EnrollmentController` | src/controllers/enrollment_controller.py |
| `EnrollmentManagement` | src/views/enrollment_management_ui.py |
| `PaymentController` | src/controllers/payment_controller.py |
| `CourseFeeController` | src/controllers/course_fee_controller.py |
| `ConfigController` | src/controllers/config_controller.py |
| `Normalization`, `ImportStudents` | src/utils/import_students.py |
| `ExportStudents` | src/utils/export_students.py |
| `StudentsList` | src/views/students_list_frame.py |
| `Dashboard` | src/views/dashboard_window.py |

`Wrappers`, `Text`, `Table` and `Timestamp` hold the `Option` type, the Python string operations the application uses, the generic table queries (filter, first match, stable sort) and the date format.

## Model

| member | source | states |
|---|---|---|
| Progression.GetNextCourse | src/utils/progression.py:11-27 | A recognised label, in any casing, gives the next label in schooling order, and `once` gives `once`. Input whose lower-case form is not a label comes back unchanged, casing included. |
| Progression.SuccessorsFollowGrades | src/utils/progression.py:11-26 | The dictionary's keys are exactly the fourteen labels. Each non-final label maps to the label after it in the list, and `once` maps to itself. |
| Progression.DocumentedSuccessors | src/utils/progression.py:12-24 | Each of the thirteen non-final labels maps to the next label, which differs from it (`primero` → `segundo`, `decimo` → `once`). |
| Progression.FinalGradeIsFixed | src/utils/progression.py:25-27 | Any number of lookups starting at `once` stay at `once`. |
| Progression.ChainFromFirstGrade | src/utils/progression.py:4-6 | `k` lookups from `pre-jardin` reach the `k`-th grade, so the progression is one linear chain. |
| Progression.ThirteenStepsToFinal | src/utils/progression.py:4-6 | Thirteen promotions take `pre-jardin` to `once`. |
| Progression.CaseInsensitive | src/utils/progression.py:27 | An upper-cased label has the same successor as the label. |
| Progression.SameLowerSameSuccessor | src/utils/progression.py:27 | Two inputs with the same lower-case form, naming a grade, have the same successor. |
| Progression.AccentedLabelIsEchoed | src/utils/progression.py:27 | There is no accent folding: `Transición` is echoed back unchanged. |
| Progression.FixedPointIff | src/utils/progression.py:25-27 | The lookup returns its input exactly when the input is `once` in lower case or is not a label. A capitalised `Once` is not a fixed point. |
| Progression.NonFinalMoves | src/utils/progression.py:12-27 | A name whose lower-case form is a non-final grade is not a fixed point. |
| Store.Database.CreateTables | src/models/database.py:10-89 | As written, `create_tables` gives empty tables with valid counters and no `course_fees` table. |
| Store.Database.CreateTablesWithFees | src/models/database.py:10-89 | The schema the fee controller needs: the same empty tables plus an empty `course_fees`. |
| ConfigController.InitializeDefaultConfigs | src/controllers/config_controller.py:5-14 | The loop leaves the table equal to `WithDefaults` of the old table, which writes each default only when its key is absent at its turn. |
| ConfigController.DefaultsKeepValues | src/controllers/config_controller.py:9-13 | No existing value is overwritten. |
| ConfigController.DefaultsAddOnlyDefaultKeys | src/controllers/config_controller.py:9-13 | Afterwards every default key is present. Every present key was there before or is a default key. |
| ConfigController.DefaultsTakeFirstValue | src/controllers/config_controller.py:9-13 | A key absent before takes the value of its first occurrence among the defaults. |
| ConfigController.DefaultsIdempotent | src/controllers/config_controller.py:5-14 | Running the initialisation twice is running it once. |
| ConfigController.DefaultsPresentIsFixed | src/controllers/config_controller.py:9-13 | When every default key is present, nothing changes. |
| ConfigController.GetConfig | src/controllers/config_controller.py:16-20 | Gives the stored value, or `None` exactly when the key is absent. |
| ConfigController.GetAllConfigs | src/controllers/config_controller.py:22-25 | Gives, for every key, what `get_config` gives. |
| ConfigController.UpdateConfig | src/controllers/config_controller.py:27-34 | On an existing key the value is replaced. On an absent key the table is unchanged and the call still succeeds. No other key changes. A storage error gives the error message and leaves the table as it was. |
| CourseController.Renamed | src/controllers/course_controller.py:92-95 | Only the row with that id gets the new name and section. Ids and `active` flags are kept. |
| CourseController.Deactivated | src/controllers/course_controller.py:103-106 | Only the row with that id has `active` cleared. |
| CourseController.AddCourse | src/controllers/course_controller.py:71-83 | Succeeds exactly when the name is non-empty and `(name, seccion or "")` is new. On success one active row is appended with the next id. An empty name and a duplicate each give their message and change nothing. |
| CourseController.EditCourse | src/controllers/course_controller.py:85-98 | Succeeds exactly when the name is non-empty and the rename breaks no `UNIQUE(name, seccion)`. On success the table is `Renamed`, an absent id included. Otherwise it is unchanged. |
| CourseController.RenamedKeepsUnique | src/controllers/course_controller.py:42-43 | A rename that clashes with no other row keeps the table well formed and unique. |
| CourseController.DeactivateCourse | src/controllers/course_controller.py:100-109 | Always succeeds, and the table becomes `Deactivated`. |
| CourseController.DeactivatedKeepsUnique | src/controllers/course_controller.py:100-109 | Deactivation keeps the table well formed and unique. |
| CourseController.ActiveCourses | src/controllers/course_controller.py:111-113 | Gives exactly the active rows, in rowid order. |
| CourseController.CourseById | src/controllers/course_controller.py:119-123 | Gives the row with that id, or `None` exactly when there is none. |
| CourseController.BySeccionIsTotalPreorder | src/models/database.py:63 | Section order, the order of the `UNIQUE(name, seccion)` index within one name, is total and transitive. |
| CourseController.CoursesByGrade | src/controllers/course_controller.py:125-133 | Gives exactly the active rows whose name equals the grade verbatim, with any section, each once, in non-decreasing section order. That is the order SQLite returns them in when it answers `name = ?` from the `UNIQUE(name, seccion)` index. |
| CourseController.FirstOfGrade | src/controllers/course_controller.py:125-133 | The first course listed for a grade is an active course of that grade whose section is no greater than any other's. Under `UNIQUE(name, seccion)` every other such course has a different section. |
| CourseController.AddedCourseIsListed | src/controllers/course_controller.py:76-83 | A course just added is found by id and listed among the active courses of its grade. |
| CourseController.DeactivatedIsNotOffered | src/controllers/course_controller.py:100-133 | A deactivated course is still found by id with `active` cleared, but is no longer listed by either query. |
| CourseController.InactiveIsNotOffered | src/controllers/course_controller.py:111-133 | When all rows with an id are inactive, neither query lists that id. |
| CourseController.SectionOrderNotRowidOrder | src/controllers/course_controller.py:131-132 | With sections `B` (added first) and `A` of `segundo`, the query lists `A` first, so promotion into `segundo` picks section `A`. |
| CourseController.ByGradeNarrowsActive | src/controllers/course_controller.py:111-133 | The rows the by-grade query selects are the active query's rows narrowed to one name. The query lists them re-ordered by section. |
| StudentController.UniqueIdentificationsOfSubset | src/models/database.py:25 | Any subsequence of a table with unique identification numbers keeps them unique. |
| StudentController.StudentByIdentification | src/controllers/student_controller.py:23-31 | Gives a row with that number, or `None` exactly when there is none. |
| StudentController.IdentificationFindsTheRow | src/controllers/student_controller.py:23-31 | Under the UNIQUE constraint, the row found by number is the one carrying it. |
| StudentController.StudentById | src/controllers/student_controller.py:33-42 | Gives the row with that id, or `None` exactly when there is none. |
| StudentController.RegisterStudent | src/controllers/student_controller.py:105-122 | Succeeds exactly when the number is a non-empty `isdigit` string, both names are non-empty and the number is not registered yet. Each refusal has its own message and changes nothing. On success one active row is appended with the given course. |
| StudentController.WithCourse | src/controllers/student_controller.py:144-146 | Only that student's course pointer changes. |
| StudentController.UpdateStudentCourse | src/controllers/student_controller.py:142-150 | Succeeds exactly when no storage error is raised, an absent id included, and the table becomes `WithCourse`. A storage error gives its message and leaves the table as it was. |
| StudentController.WithoutActive | src/controllers/student_controller.py:97-99 | Only the rows with that number have `active` cleared. |
| StudentController.DeactivateStudent | src/controllers/student_controller.py:93-103 | An unknown number gives "Estudiante no encontrado." and changes nothing. Otherwise the table becomes `WithoutActive`. |
| StudentController.WithoutStudent | src/controllers/student_controller.py:85-87 | Keeps exactly the rows with another number. |
| StudentController.DeleteStudent | src/controllers/student_controller.py:81-91 | An unknown number gives "Estudiante no encontrado." and changes nothing. Otherwise exactly that row is removed, in order. |
| StudentController.DeletedIsGone | src/controllers/student_controller.py:81-91 | After a deletion the number is not found, and every other number finds the same row as before. |
| StudentController.CourseName | src/controllers/student_controller.py:44-59 | Gives `"N/A"` for no course or a missing course row, `"name - seccion"` when the section is not blank, and the bare name otherwise. |
| StudentController.AllStudents | src/controllers/student_controller.py:61-79 | One entry per row, in rowid order, each carrying its course's display name. |
| StudentController.MissingCourseShowsNA | src/controllers/student_controller.py:45-56 | A student without a course, or whose course row is gone, is listed under `"N/A"`. |
| EnrollmentController.EnrollmentById | src/controllers/enrollment_controller.py:71-73 | Gives the row with that id, or `None` exactly when there is none. |
| EnrollmentController.WithStatus | src/controllers/enrollment_controller.py:78-81 | Only that row's status changes. |
| EnrollmentController.UpdateEnrollmentStatus | src/controllers/enrollment_controller.py:75-85 | An empty status is refused and changes nothing. Otherwise only that row's status changes, and an absent id is still a success. A storage error gives its message and changes nothing. |
| EnrollmentController.CreateEnrollment | src/controllers/enrollment_controller.py:87-101 | A negative year is refused and nothing is inserted. Otherwise exactly one row is appended, with the given student, course, year and status and the date `now`, and its fresh id is returned. A storage error gives its message and no id. |
| EnrollmentController.PlanPromotion | src/controllers/enrollment_controller.py:105-123 | The look-ups stop at a missing enrollment, a missing course, a successor equal to the name, or no active course of the next grade. Otherwise they give the course `get_courses_by_grade` lists first, the one with the lowest section, and the next year. |
| EnrollmentController.PromoteStudent | src/controllers/enrollment_controller.py:103-138 | Each failing look-up returns its message and changes nothing. On success the student points to the destination, the lowest-section active course of the next grade, and one `year + 1` `"inscrito"` row is appended. A failed insert leaves the committed move in place. The promoted row's status is never touched. |
| EnrollmentController.PlanMovesOneGradeUp | src/controllers/enrollment_controller.py:114-129 | A planned move goes, for the following year, to the active course named the successor of the current name whose section is no greater than any other such course's. Under `UNIQUE(name, seccion)` its section is strictly smaller than theirs. |
| EnrollmentController.FinalGradeIsNotPromoted | src/controllers/enrollment_controller.py:116-118 | A student in a course named `once` is refused as already in the last grade. |
| EnrollmentController.UnknownGradeLooksFinal | src/controllers/enrollment_controller.py:116-118 | A course name that is not a label, such as `Transición`, is reported as the last grade too. |
| EnrollmentController.YearDescIsTotalPreorder | src/controllers/enrollment_controller.py:141 | Descending academic year is a total preorder, so the stable sort is well defined. |
| EnrollmentController.AllEnrollments | src/controllers/enrollment_controller.py:140-142 | A permutation of all rows with non-increasing academic year. |
| EnrollmentController.EnrollmentHistory | src/controllers/enrollment_controller.py:144-146 | Exactly the student's rows, each once, with non-increasing academic year. |
| EnrollmentController.PromotionExtendsHistory | src/controllers/enrollment_controller.py:125-135 | After a promotion the history holds the new row and every earlier row unchanged, the promoted one included. |
| EnrollmentManagement.CurrentYearEnrollments | src/views/enrollment_management_ui.py:65-67 | Exactly the rows of the current academic year, in listed order. |
| EnrollmentManagement.ExtractGradeIgnoresSection | src/views/enrollment_management_ui.py:141-143 | The section written after the first `-` is ignored. |
| EnrollmentManagement.ExtractGradeOfPlain | src/views/enrollment_management_ui.py:141-143 | Plain lower-case text without `-` extracts to itself. |
| EnrollmentManagement.ExtractGradeOfLabel | src/views/enrollment_management_ui.py:141-143 | Every label but `pre-jardin` extracts to itself. |
| EnrollmentManagement.FirstWithGrade | src/views/enrollment_management_ui.py:162-165 | The first course whose extracted grade matches, or none when no course does. |
| EnrollmentManagement.FindNextCourse | src/views/enrollment_management_ui.py:160-165 | The search loop finds the id of exactly that first course, or none. |
| EnrollmentManagement.FindEnrollment | src/views/enrollment_management_ui.py:146-151 | The search loop finds a row with that id, or none exactly when there is none. |
| EnrollmentManagement.PlanGuiPromotion | src/views/enrollment_management_ui.py:146-165 | Stops at a missing enrollment exactly when there is no row with that id. Otherwise it gives the destination of its course. |
| EnrollmentManagement.DestinationFor | src/views/enrollment_management_ui.py:153-165 | Gives the course row, the successor of its trimmed lower-cased name, then the first active course whose extracted grade is that successor, for the following year. |
| EnrollmentManagement.StatusChangeKeepsPlan | src/views/enrollment_management_ui.py:134-171 | Writing the status first does not change what the promotion looks up. |
| EnrollmentManagement.LookUpDestination | src/views/enrollment_management_ui.py:146-165 | The look-ups give `PlanGuiPromotion` of the current tables. |
| EnrollmentManagement.FindDestination | src/views/enrollment_management_ui.py:153-165 | The course look-up and search give `DestinationFor`. |
| EnrollmentManagement.MoveAndReenroll | src/views/enrollment_management_ui.py:166-180 | A failed move changes nothing. Otherwise the student points to the destination, and then the `year` row is appended unless the insert fails. |
| EnrollmentManagement.ProcessEnrollment | src/views/enrollment_management_ui.py:113-190 | A refused or failed status write stops everything. A status that is not `promovido` in any casing changes only that row's status. For `promovido`, each failed look-up keeps the committed status and changes nothing else, and a found destination leads to the move and the `year + 1` enrollment. |
| EnrollmentManagement.FinalGradeIsReenrolled | src/views/enrollment_management_ui.py:156-174 | There is no final-grade check: a student in `once` is sent to the first active `once` course for the following year. |
| EnrollmentManagement.ReenrolledInSuccessor | src/views/enrollment_management_ui.py:156-171 | The destination is the first active course of the successor grade, for the following year. |
| EnrollmentManagement.FinalGradeSucceedsItself | src/utils/progression.py:25 | The lower-cased successor of `once` is `once`. |
| EnrollmentManagement.DestinationHasNextGrade | src/views/enrollment_management_ui.py:156-165 | For a course named with a label, the destination is active and its extracted grade is the label's successor. |
| EnrollmentManagement.ExtractGradeOfDisplayName | src/views/enrollment_management_ui.py:141-143 | `<grade> - <seccion>` extracts to the grade. |
| EnrollmentManagement.SectionedNameIsDestination | src/views/enrollment_management_ui.py:158-163 | A course named `<next grade> - <seccion>` matches the successor of the grade before. |
| Timestamp.Format | src/controllers/enrollment_controller.py:90 | The written date is always nineteen characters long. |
| Timestamp.Parse | src/controllers/payment_controller.py:39 | What `strptime` accepts is a valid calendar date and time. |
| Timestamp.FieldsOfFormat | src/controllers/payment_controller.py:45 | The written text is the zero-padded year, month, day, hour, minute and second, at fixed positions, with `-`, ` ` and `:` between them. |
| Timestamp.ParseFormat | src/controllers/payment_controller.py:39-45 | Reading back a written date gives the same date and time. |
| Timestamp.FormatParse | src/controllers/payment_controller.py:39 | Whatever reads back is written again character for character. |
| Timestamp.YearText | src/controllers/payment_controller.py:111 | `%Y` is the first four characters of the written date. |
| Timestamp.MonthText | src/controllers/payment_controller.py:100 | `%Y-%m` is the first seven characters of the written date. |
| PaymentController.Pad4Spec | src/controllers/payment_controller.py:41 | `{:04d}` is all digits, at least four of them, and reads back as the number. |
| PaymentController.FormatReceipt | src/controllers/payment_controller.py:35-41 | Defined exactly when the date reads back with `strptime`. |
| PaymentController.ReceiptFields | src/controllers/payment_controller.py:35-41 | The receipt is the date's `YYYYMMDD`, a dash, and the id padded to at least four digits that read back as the id. |
| PaymentController.ReceiptsAreDistinct | src/controllers/payment_controller.py:41 | Different ids give different receipts, whatever the dates. |
| PaymentController.RegisterPayment | src/controllers/payment_controller.py:43-59 | On success one row is appended, dated `now`, with the receipt built from its own new id and the date that is returned. A storage error returns its message and two `None`s and leaves the table as it was. |
| PaymentController.WithReceipt | src/controllers/payment_controller.py:47-55 | Inserting, then updating the receipt of the new id, is appending the row with that receipt. |
| PaymentController.RegisterKeepsReceiptsMatched | src/controllers/payment_controller.py:50-56 | Every stored receipt stays the one its row's id and date give. |
| PaymentController.PaymentById | src/controllers/payment_controller.py:89-91 | Gives the row with that id, or `None` exactly when there is none. |
| PaymentController.DateDescIsTotalPreorder | src/controllers/payment_controller.py:86 | Descending date text is a total preorder. |
| PaymentController.PaymentsByStudent | src/controllers/payment_controller.py:85-87 | Exactly that student's payments, each once, latest date text first. |
| PaymentController.SqlMonthYearArePrefixes | src/controllers/payment_controller.py:100-111 | For a stored date, `strftime('%Y-%m')` and `strftime('%Y')` are its first seven and four characters. |
| PaymentController.PaymentsInMonth | src/controllers/payment_controller.py:93-102 | Exactly the payments whose date falls in the month, in rowid order. |
| PaymentController.PaymentsInYear | src/controllers/payment_controller.py:104-113 | Exactly the payments whose date falls in `str(year)`. |
| PaymentController.PaymentFallsInItsMonthAndYear | src/controllers/payment_controller.py:93-113 | A payment dated `now` is listed for `now`'s month and year and for no other. |
| CourseFeeController.GetFee | src/controllers/course_fee_controller.py:26-40 | `None` exactly when the table is missing or holds no row for the pair. Otherwise the fee of the first such row. |
| CourseFeeController.GetAllFees | src/controllers/course_fee_controller.py:42-55 | Exactly the rows of that year, or `[]` without the table. |
| CourseFeeController.SetFee | src/controllers/course_fee_controller.py:10-24 | Fails with "no such table" when the table is missing, and with the storage error's text otherwise, changing nothing. On success the table is the upsert. |
| CourseFeeController.UpdateThenInsert | src/controllers/course_fee_controller.py:15-20 | The update, then the insert when `rowcount` is 0, give the upsert. |
| CourseFeeController.UpsertWellFormed | src/controllers/course_fee_controller.py:18-20 | The upsert keeps ids increasing under the counter. |
| CourseFeeController.SetThenGet | src/controllers/course_fee_controller.py:15-36 | After setting a fee, reading it back gives that fee. |
| CourseFeeController.SetLeavesOtherFees | src/controllers/course_fee_controller.py:15-20 | Every other pair's fee is unchanged. |
| CourseFeeController.UpsertKeepsKeysUnique | src/controllers/course_fee_controller.py:15-20 | It inserts only when no row holds the pair, so one row per pair is kept. |
| CourseFeeController.FeesWithoutTable | src/controllers/course_fee_controller.py:35-55 | On the schema `create_tables` builds, no fee is ever read. |
| Normalization.FoldSpec | src/utils/import_students.py:15 | Folding leaves only ASCII and keeps ASCII text as it is. |
| Normalization.Normalize | src/utils/import_students.py:9-16 | The result is ASCII, lower-case and trimmed; `""` gives `""`. |
| Normalization.NormalOfNormal | src/utils/import_students.py:13-16 | Text already in normal form is its own normal form. |
| Normalization.NormalizeIdempotent | src/utils/import_students.py:9-16 | Normalising twice is normalising once. |
| Normalization.FoldAcuteO | src/utils/import_students.py:15 | `ó` folds to `o`. |
| Normalization.AccentedName | src/utils/import_students.py:49-56 | `identificación` and `correo electrónico` normalise to their bare spellings. |
| ImportStudents.LastPositions | src/utils/import_students.py:64 | Every key maps to the last position that carries it. |
| ImportStudents.HeaderMapSpec | src/utils/import_students.py:64 | The header map holds exactly the non-blank normalised headers, each at its last position. |
| ImportStudents.MissingFields | src/utils/import_students.py:67 | Empty exactly when every required field has one of its alternatives among the headers. |
| ImportStudents.ColumnOf | src/utils/import_students.py:73-78 | The column of the first alternative present. |
| ImportStudents.StrippedNonEmpty | src/utils/import_students.py:87 | Every kept piece is trimmed and non-empty. |
| ImportStudents.SpacedSheetName | src/utils/import_students.py:82-89 | A sheet named `primero a` gives grade `primero` and section `a`. |
| ImportStudents.DashedSheetName | src/utils/import_students.py:82-89 | A sheet named `primero - a` gives the same pair. |
| ImportStudents.MatchCourse | src/utils/import_students.py:90-101 | The first course that fits the sheet, or none exactly when none fits. |
| ImportStudents.PlanImportsWhenComplete | src/utils/import_students.py:66-104 | A sheet is imported exactly when no column is missing and some course fits. |
| ImportStudents.PlanChoosesFirstFit | src/utils/import_students.py:72-105 | An imported sheet goes into the first fitting course, with the columns its headers give. |
| ImportStudents.DefaultEmailHasShape | src/utils/import_students.py:135-141 | The default address passes the e-mail check. |
| ImportStudents.ParseRowSpec | src/utils/import_students.py:115-143 | A row is accepted exactly when its name has at least four words and its e-mail passes. The `apellido` and `nombre` are words 1-2 and 3-4. Missing cells take their defaults. |
| ImportStudents.ImportRowAsWritten | src/utils/import_students.py:146-166 | As written, every row ends in exactly one error and none is imported. |
| ImportStudents.ImportRow | src/utils/import_students.py:112-163 | A rejected row gives its one error and changes nothing. An accepted row is imported exactly when `register_student` accepts it, and then the student is appended and enrolled for `now`'s year unless the insert fails. |
| ImportStudents.ImportRegistration | src/utils/import_students.py:146-163 | Registration, then enrollment of the registered student, with their outcomes. |
| ImportStudents.EnrollRegistered | src/utils/import_students.py:151-160 | The student found by number is the one just added, and is enrolled as `"inscrito"`. |
| ImportStudents.ImportSheetRows | src/utils/import_students.py:112-166 | Every row that is not imported leaves at least one error. Imported students are appended in the sheet's course. Each new enrollment is of a new student, in that course and year, and there is one per import when no insert fails. |
| ImportStudents.PlansTargetCourses | src/utils/import_students.py:90-105 | Every imported sheet goes into an existing course. |
| ImportStudents.ImportSheet | src/utils/import_students.py:66-166 | A failing sheet gives its one error and changes nothing. Otherwise its rows are imported. |
| ImportStudents.ImportSheets | src/utils/import_students.py:59-166 | Counts: imports plus errors lie between the outcomes and the outcomes plus imports, and only rows of passing sheets are imported. |
| ImportStudents.ImportStudentsFromExcel | src/utils/import_students.py:37-167 | An unreadable workbook gives one error and changes nothing. Otherwise the counts above hold, every imported student is in an existing course, and there are no more enrollments than imports. |
| ImportStudents.ImportStudentsFromExcelAsWritten | src/utils/import_students.py:37-167 | As written, nothing is ever imported, and there is one error per failing sheet and per row. |
| ImportStudents.ImportSheetsAsWritten | src/utils/import_students.py:59-166 | One error per failing sheet and one per row of the others. |
| ImportStudents.ImportSheetAsWritten | src/utils/import_students.py:102-166 | A failing sheet's error, or one error per row. |
| ExportStudents.IndexIn | src/utils/export_students.py:48-51 | The first position of the name, or the length when it is absent. |
| ExportStudents.ByCourseIsTotalPreorder | src/utils/export_students.py:45-54 | The `(rank, lower-cased name)` order, with the rank as written, is total and transitive. |
| ExportStudents.ByCourseIntendedIsTotalPreorder | src/utils/export_students.py:45-54 | The same holds with the corrected rank. |
| ExportStudents.TiedCoursesLowerAlike | src/utils/export_students.py:52 | Students that compare equal have course names that lower-case alike. |
| ExportStudents.PreJardinRanksUnknownAsWritten | src/utils/export_students.py:42-51 | As written, `pre-jardin` courses get the unknown rank 14. |
| ExportStudents.PreJardinSortsLastAsWritten | src/utils/export_students.py:42-54 | As written, `pre-jardin` courses sort after `once` courses. |
| ExportStudents.RankAsWrittenOfCourse | src/utils/export_students.py:42-51 | As written, every other grade, with or without a section, gets its position. |
| ExportStudents.RankOfCourse | src/utils/export_students.py:42-51 | Corrected, every grade, `pre-jardin` included, gets its position. |
| ExportStudents.PreJardinSortsFirst | src/utils/export_students.py:42-54 | Corrected, `pre-jardin` courses sort before every later grade. |
| ExportStudents.UnknownGradesSortLast | src/utils/export_students.py:48-52 | An unknown grade gets rank 14 and sorts after every known grade. |
| ExportStudents.SortStudents | src/utils/export_students.py:30-54 | For any total preorder, the copy-then-sort gives a permutation of the input, sorted, with tied students in their original order. |
| ExportStudents.PrepareStudents | src/utils/export_students.py:21-54 | The result is a permutation of the input, sorted by `course_sort_key` as written (so `pre-jardin` after `once`), and stable. |
| ExportStudents.PrepareStudentsIntended | src/utils/export_students.py:21-54 | The same with the corrected rank: `pre-jardin` first. |
| ExportStudents.RunsSpec | src/utils/export_students.py:135 | `groupby`'s runs put back together give the list. Each run is non-empty and of one course, and neighbouring runs differ. |
| ExportStudents.SortedCoursesContiguous | src/utils/export_students.py:45-54 | Sorted, the students of a course stand together, unless two names differ only in case. |
| ExportStudents.WorkbookSheets | src/utils/export_students.py:135-143 | For students already prepared, the sheets are one per run of a course, then `Todos`. |
| ExportStudents.ExportToExcel | src/utils/export_students.py:135-143 | The sheets are one per run of the students sorted as written, then `Todos`. |
| ExportStudents.ExportToExcelIntended | src/utils/export_students.py:135-143 | The same for the students sorted with the corrected rank. |
| ExportStudents.MakeSheets | src/utils/export_students.py:136-139 | One sheet per group, titled `" " + course`, or `Grado_Desconocido` when the course is empty. |
| ExportStudents.ExcelSheetsSpec | src/utils/export_students.py:135-143 | `Todos` comes last with every student, and the course sheets together hold every student once, in order. |
| ExportStudents.CourseSheetsSpec | src/utils/export_students.py:135-139 | Each course sheet holds one course and is titled after it, and neighbouring sheets differ. |
| ExportStudents.OneSheetPerCourse | src/utils/export_students.py:135-139 | When no names differ only in case, each course has exactly one sheet. |
| ExportStudents.ColumnWidths | src/utils/export_students.py:170 | Each width is the largest of three per character of the header and of every cell below it. |
| ExportStudents.Widen | src/utils/export_students.py:229-232 | Each column grows to its cell's width when that is wider. |
| ExportStudents.PdfTable | src/utils/export_students.py:188-232 | For any total preorder, the rows are the stable sort of the students. Each width is at least the header's, covers every cell, and equals the header's width or some cell's. |
| ExportStudents.ExportToPdf | src/utils/export_students.py:188-232 | The rows are the students stable-sorted by `course_sort_key` as written. Each width is at least the header's, covers every cell, and equals the header's width or some cell's. |
| ExportStudents.ExportToPdfIntended | src/utils/export_students.py:188-232 | The same with the rows sorted by the corrected rank. |
| StudentsList.TotalPages | src/views/students_list_frame.py:60-63 | At least 1, exactly 1 for no students, otherwise the fewest pages of ten that hold them all. |
| StudentsList.CeilingPages | src/views/students_list_frame.py:61 | `(n + size - 1) // size` is the ceiling of `n / size`. |
| StudentsList.NextGuardAgrees | src/views/students_list_frame.py:83-84 | `next_page`'s raw page count gives the same answer as the displayed count. |
| StudentsList.PageSlice | src/views/students_list_frame.py:66-68 | At most `size` students: those at positions `(page-1)·size` onwards, as many as the list still has. |
| StudentsList.PagesInRangeNonEmpty | src/views/students_list_frame.py:60-68 | Every page within the count has at least one student when there are any. |
| StudentsList.StudentOnItsPage | src/views/students_list_frame.py:60-68 | Student `i` is on page `i / size + 1`, at position `i % size`, within the count. |
| StudentsList.Search | src/views/students_list_frame.py:44-51 | An empty query keeps every student. Otherwise it keeps exactly the students whose number, name or surname, lower-cased, contains the lower-cased, trimmed query. |
| StudentsList.BlankQueryShowsAll | src/views/students_list_frame.py:45-51 | A blank query shows every student. |
| StudentsList.SearchKeepsOrder | src/views/students_list_frame.py:47-49 | The kept students stay in their original order. |
| StudentsList.StudentsListFrame.constructor | src/views/students_list_frame.py:6-14 | Every student, page 1, with the display in step. |
| StudentsList.StudentsListFrame.PopulateStudentList | src/views/students_list_frame.py:55-74 | The tree shows the current page's slice, and the controls agree. |
| StudentsList.StudentsListFrame.UpdatePaginationControls | src/views/students_list_frame.py:76-79 | The label is `Página p de t`. Previous is enabled iff `p > 1`, and next iff `p < t`. |
| StudentsList.StudentsListFrame.OnSearchStudents | src/views/students_list_frame.py:44-53 | The filtered list becomes `Search`, the page goes back to 1, and the page stays within the count. |
| StudentsList.StudentsListFrame.NextPage | src/views/students_list_frame.py:81-86 | Moves on one page below the last page. On the last page nothing changes. |
| StudentsList.StudentsListFrame.PrevPage | src/views/students_list_frame.py:88-91 | Moves back one page above page 1. On page 1 nothing changes. |
| Dashboard.FirstAppearances | src/views/dashboard_window.py:62-65 | The dict's keys in insertion order, with no repeats. |
| Dashboard.FirstAppearancesMembers | src/views/dashboard_window.py:62-65 | A name is a key exactly when some student carries it. |
| Dashboard.CountMapKeys | src/views/dashboard_window.py:62-65 | The count map has a key exactly for each listed name. |
| Dashboard.CountMapValues | src/views/dashboard_window.py:62-65 | Each count is the number of students carrying that name. |
| Dashboard.CountMapSum | src/views/dashboard_window.py:57-65 | The counts add up to the number of students. |
| Dashboard.CountByCourse | src/views/dashboard_window.py:62-65 | The loop gives the keys in insertion order and each name's number of students, and the counts add up to the total. |
| Dashboard.CountPositiveIffListed | src/views/dashboard_window.py:62-65 | A count is positive exactly when the name is a key. |
| Dashboard.CoursesWithStudentsAreNonEmptyKeys | src/views/dashboard_window.py:53-55 | The number of courses with students is the number of non-empty keys of the count map. |
| Dashboard.NoCourseCountsAsCourse | src/views/dashboard_window.py:53-55 | A student without a course makes `"N/A"` a course with students. |
| Dashboard.WithoutPayment | src/views/dashboard_window.py:80-82 | Exactly the students whose id is not among this month's payers, and no more than all students. |
| Dashboard.WithoutPaymentKeepsOrder | src/views/dashboard_window.py:82 | They keep the order of the full list. |
| Dashboard.LoadStats | src/views/dashboard_window.py:47-82 | The totals of courses and students, the distinct course names in use, the per-course counts adding up to the total, and the students without a payment this month. |

## Left out

- Tk widgets, message boxes and the tree views are not modelled. Each handler's observable result is its return value or its fields. The students list's `sort_by` sorts on-screen rows by `float` parsing and is not modelled.
- The money totals of the dashboard and the report text it builds are not modelled, because amounts are floats.
- File I/O is not modelled: the openpyxl and fpdf calls, the logo, the Excel column auto-width and the saved files. Excel cells are empty, text or whole numbers; floats and dates are not modelled.
- The clock is not modelled: `datetime.now()` is a parameter. The logger is not modelled.
- Python type checks (`isinstance`) are not modelled, because Dafny's types rule out the inputs they refuse.
- `_preparar_students` also accepts tuple records (src/utils/export_students.py:33-39). ExportStudents.PrepareStudents: only the dict records of `get_all_students` are modelled, so tuple conversion and its printed error are not.
- The exports' `get_course_name` would look a course up by `course_id`. The records of `get_all_students` have no `course_id`, so that branch never runs and is not modelled.
- StudentController.CourseName: the `sqlite3.Error` branch that also gives `"N/A"` is not modelled. StudentController.AllStudents: the `[]` on a storage error is not modelled.
- StudentController.RegisterStudent: a storage error other than the UNIQUE conflict is not modelled. StudentController.DeleteStudent and StudentController.DeactivateStudent: the storage-error message is not modelled either.
- CourseController.AddCourse, CourseController.EditCourse and CourseController.DeactivateCourse: only the integrity error is modelled, not other storage errors.
- Queries that fall back to `None` or `[]` on a storage error (course, enrollment, payment and fee look-ups) are modelled without that error path.
- Normalization.Normalize: NFKD folding is given for ASCII and Latin-1 only. Other characters are dropped, as `encode('ASCII', 'ignore')` drops those without a decomposition.
- `str.lower` is modelled for ASCII and Latin-1 capitals only.
- ImportStudents.CellText: `str()` of a float or date cell is not modelled.
- `get_all_courses` (src/controllers/course_controller.py:115-117) is read directly as the courses table.
- `student_controller.get_payments_by_student`, `initialize_payments_table`, the user controller, backup/restore and the other windows are not part of this model.
- The course fees table is `None` until it exists. The corrected schema `Store.Database.CreateTablesWithFees` gives it.
- `get_courses_by_grade` has no `ORDER BY`. Its section order comes from SQLite answering `name = ?` from the index behind `UNIQUE(name, seccion)`, not from anything SQL promises. A different query plan could list the courses in another order and so promote into another section.
- For `ORDER BY` on a column with ties (academic year, payment date) SQLite leaves the order of the tied rows unspecified. The model uses the stable sort, which is one order SQLite may return.
- `str.isdigit` is modelled for ASCII digits and `¹²³` only. Python also accepts the other Unicode decimal and digit characters (Arabic-Indic, Devanagari, circled digits and so on), so a number written in those is refused by the model and accepted by the source.
- The import's rows call `register_student` with the six arguments it takes (`ImportStudents.ImportRow`). The seven-argument call as written is `ImportStudents.ImportRowAsWritten`.

## Findings

| source | as written | input that shows it | evidently intended | confidence | as-written member | corrected member |
|---|---|---|---|---|---|---|
| src/utils/import_students.py:146-148 | Calls `register_student` with seven arguments, but it takes six (src/controllers/student_controller.py:105). Every row that passes the checks raises `TypeError` and ends in the catch-all error, so nothing is imported. | A sheet `primero - a` with one row whose name is `Perez Gomez Ana Maria` and whose other cells are valid | Pass the six arguments, leaving out the e-mail | high, not executed | ImportStudents.ImportRowAsWritten, ImportStudents.ImportStudentsFromExcelAsWritten | ImportStudents.ImportRow, ImportStudents.ImportStudentsFromExcel |
| src/models/database.py:10-89 | `create_tables` never creates `course_fees`, so every `set_fee` fails with "no such table", and `get_fee` and `get_all_fees` find nothing. | `set_fee(1, 2025, 100.0)` on a fresh database | Create `course_fees` with the other tables | high, not executed | Store.Database.CreateTables, CourseFeeController.FeesWithoutTable | Store.Database.CreateTablesWithFees, CourseFeeController.SetThenGet |
| src/utils/export_students.py:42-51 | The grade part of `pre-jardin` is `pre`, the text before its own `-`. `pre` is not in `course_order`, so `pre-jardin` courses get the unknown rank and sort after `once`. | A student whose course is `pre-jardin - A` | `pre-jardin` ranks first, as `course_order` lists it | high, not executed | ExportStudents.PreJardinSortsLastAsWritten, ExportStudents.PreJardinRanksUnknownAsWritten | ExportStudents.PreJardinSortsFirst, ExportStudents.RankOfCourse, ExportStudents.PrepareStudentsIntended |
