/**
 * Student import from a spreadsheet (src/utils/import_students.py). Each
 * sheet names a course, its first row holds the column headers, and each
 * further row one student. Headers, sheet names and course names are
 * compared after `normalize_string`: accents folded away, lower-cased,
 * trimmed. The workbook itself (openpyxl) is not modelled: a sheet is its
 * name, its header cells and its data rows, with each row as wide as the
 * sheet, as openpyxl pads it.
 *
 * As written, every accepted row calls `register_student` with one argument
 * too many, so the call raises `TypeError` before any write and the row
 * ends in the catch-all error; `ImportRowAsWritten` models that.
 * `ImportRow` and the loops above it model the evidently intended call,
 * without the e-mail argument.
 */
module ImportStudents {
  import opened Wrappers
  import opened Text
  import opened Normalization
  import opened Table
  import opened Store
  import opened Timestamp
  import opened StudentController
  import opened EnrollmentController

  // The texts the import reports.
  const MsgLoadError: string := "Error al cargar el archivo Excel: "
  const SheetPrefix: string := "Hoja '"
  const MsgMissingColumns: string := "': Faltan columnas para: "
  const MsgCourseNotFound: string := "': Curso no encontrado en la base de datos."
  const MsgEmptyName: string := "': Fila con 'nombre' vacío, omitiendo."
  const MsgBadName: string := "': Valor en 'nombre' incorrecto: "
  const MsgBadEmail: string := "': Email inválido: "
  const MsgRowId: string := "', ID "
  const MsgEnrollError: string := ": Error en inscripción: "
  const MsgStudentLost: string := ": No se pudo recuperar el estudiante recién creado."
  const MsgUnknownRow: string := "', fila desconocida: "
  /** The text of the `TypeError` the seven-argument call raises. */
  const ArityError: string := "StudentController.register_student() takes 7 positional arguments but 8 were given"
  const DefaultIdentificacion: string := "123456789"
  const DefaultEmail: string := "email@email.com"

  // ---------------------------------------------------------------- cells and headers

  /** A cell value as openpyxl gives it: empty, text, or a whole number. */
  datatype Cell = Empty | Str(s: string) | Num(n: int)

  /** Python truthiness of a cell value. */
  predicate Truthy(c: Cell) {
    match c
    case Empty => false
    case Str(s) => s != ""
    case Num(n) => n != 0
  }

  /** `str(value)`. */
  function CellText(c: Cell): string {
    match c
    case Empty => "None"
    case Str(s) => s
    case Num(n) => IntToString(n)
  }

  /** The cell of a row in a column; a row is as wide as its sheet, so a column past its end is blank. */
  function CellAt(row: seq<Cell>, col: nat): Cell {
    if col < |row| then row[col] else Empty
  }

  /** A worksheet: its name, the header cells of its first row, and the rows after it. */
  datatype Sheet = Sheet(name: string, header: seq<Option<string>>, rows: seq<seq<Cell>>)

  /** The key a header cell gives: its normalised text, or none for a blank cell. */
  function HeaderKey(cell: Option<string>): Option<string> {
    if cell.Some? && cell.value != "" then Some(Normalize(cell.value)) else None
  }

  /** Each position's key together with the position of its last occurrence. */
  function LastPositions(keys: seq<Option<string>>): (m: map<string, nat>)
    ensures forall k :: k in m ==> m[k] < |keys| && keys[m[k]] == Some(k)
    ensures forall k :: k in m ==> forall j :: m[k] < j < |keys| ==> keys[j] != Some(k)
    ensures forall i :: 0 <= i < |keys| && keys[i].Some? ==> keys[i].value in m
    decreases |keys|
  {
    if keys == [] then map[]
    else
      var i := |keys| - 1;
      var m := LastPositions(keys[..i]);
      if keys[i].Some? then m[keys[i].value := i] else m
  }

  /**
   * `{normalize_string(cell): idx for idx, cell in enumerate(header_row) if cell}`:
   * every normalised header with the position of its last occurrence.
   */
  function HeaderMap(header: seq<Option<string>>): (m: map<string, nat>)
  {
    LastPositions(seq(|header|, i requires 0 <= i < |header| => HeaderKey(header[i])))
  }

  /**
   * The header map holds exactly the non-blank headers' keys, each at the
   * last position carrying it.
   */
  lemma HeaderMapSpec(header: seq<Option<string>>)
    ensures forall i :: 0 <= i < |header| && HeaderKey(header[i]).Some? ==> HeaderKey(header[i]).value in HeaderMap(header)
    ensures forall k :: k in HeaderMap(header) ==>
              var i := HeaderMap(header)[k];
              && i < |header| && HeaderKey(header[i]) == Some(k)
              && forall j :: i < j < |header| ==> HeaderKey(header[j]) != Some(k)
  {
    var keys := seq(|header|, i requires 0 <= i < |header| => HeaderKey(header[i]));
    assert forall i :: 0 <= i < |header| ==> keys[i] == HeaderKey(header[i]);
  }

  // ---------------------------------------------------------------- required columns

  /** The five fields every sheet must provide. */
  datatype Field = Nombre | Identificacion | Telefono | Correo | Acudiente

  const RequiredFields: seq<Field> := [Nombre, Identificacion, Telefono, Correo, Acudiente]

  /** The field's key, as the missing-columns error lists it. */
  function FieldName(f: Field): string {
    match f
    case Nombre => "nombre"
    case Identificacion => "identificación"
    case Telefono => "telefono"
    case Correo => "correo electronico"
    case Acudiente => "acudiente"
  }

  /**
   * The header texts accepted for the field, in order of preference, as
   * `normalize_string` leaves them: the listed spellings `identificación`
   * and `correo electrónico` lose their accent (`Normalization.AccentedName`),
   * the others are already in normal form.
   */
  function Alternatives(f: Field): seq<string> {
    match f
    case Nombre => ["nombre del estudiante", "nombre"]
    case Identificacion => ["identificacion"]
    case Telefono => ["telefono"]
    case Correo => ["correo electronico", "correo electronico"]
    case Acudiente => ["acudiente"]
  }

  predicate HasColumn(f: Field, headers: map<string, nat>) {
    exists i :: 0 <= i < |Alternatives(f)| && Alternatives(f)[i] in headers
  }

  function Lacks(headers: map<string, nat>): Field -> bool {
    (f: Field) => !HasColumn(f, headers)
  }

  function InHeaders(headers: map<string, nat>): string -> bool {
    (alt: string) => alt in headers
  }

  /** `missing_cols`: the required fields none of whose alternatives is a header, in order. */
  function MissingFields(headers: map<string, nat>): (r: seq<Field>)
    ensures r == [] <==> forall f :: f in RequiredFields ==> HasColumn(f, headers)
  {
    var r := Filter(RequiredFields, Lacks(headers));
    if r == [] then FilterEmpty(RequiredFields, Lacks(headers)); r
    else assert r[0] in RequiredFields; r
  }

  /** The field's column: the header position of its first alternative present among the headers. */
  function ColumnOf(f: Field, headers: map<string, nat>): (col: nat)
    requires HasColumn(f, headers)
    ensures exists i :: 0 <= i < |Alternatives(f)| && Alternatives(f)[i] in headers &&
              col == headers[Alternatives(f)[i]] &&
              forall j :: 0 <= j < i ==> Alternatives(f)[j] !in headers
  {
    var k := FirstWhere(Alternatives(f), InHeaders(headers));
    assert k.Some?;
    headers[Alternatives(f)[k.value]]
  }

  /** `col_indices`: the column of each field. */
  datatype Columns = Columns(nombre: nat, identificacion: nat, telefono: nat, correo: nat, acudiente: nat)

  function ColumnsOf(headers: map<string, nat>): Columns
    requires MissingFields(headers) == []
  {
    Columns(ColumnOf(Nombre, headers), ColumnOf(Identificacion, headers), ColumnOf(Telefono, headers),
            ColumnOf(Correo, headers), ColumnOf(Acudiente, headers))
  }

  /** `sep.join(parts)` with a separator of any length. */
  function JoinWith(parts: seq<string>, sep: string): string {
    if parts == [] then ""
    else if |parts| == 1 then parts[0]
    else parts[0] + sep + JoinWith(parts[1..], sep)
  }

  function FieldNames(fs: seq<Field>): (names: seq<string>)
    ensures |names| == |fs| && forall i :: 0 <= i < |fs| ==> names[i] == FieldName(fs[i])
  {
    seq(|fs|, i requires 0 <= i < |fs| => FieldName(fs[i]))
  }

  // ---------------------------------------------------------------- sheet name to course

  /** `[p.strip() for p in parts if p.strip()]`. */
  function StrippedNonEmpty(parts: seq<string>): (r: seq<string>)
    ensures forall i :: 0 <= i < |r| ==> r[i] != "" && IsStripped(r[i])
  {
    if parts == [] then []
    else
      StripIsStripped(parts[0]);
      (if Strip(parts[0]) != "" then [Strip(parts[0])] else []) + StrippedNonEmpty(parts[1..])
  }

  /**
   * The grade and section a normalised sheet name names: `pre-jardin` as it
   * stands, otherwise the first two non-blank pieces of the name split on
   * `-` when it has one, on whitespace when not.
   */
  function SheetGrade(sheetName: string): (gs: (string, string))
  {
    if sheetName == "pre-jardin" then ("pre-jardin", "")
    else
      var parts := StrippedNonEmpty(if '-' in sheetName then Split(sheetName, '-') else Words(sheetName));
      (if parts != [] then parts[0] else sheetName, if |parts| > 1 then parts[1] else "")
  }

  /** A sheet may be named by its grade and section with a blank between them: `primero a`. */
  lemma SpacedSheetName(grade: string, section: string)
    requires IsWord(grade) && IsWord(section) && '-' !in grade && '-' !in section
    ensures SheetGrade(grade + " " + section) == (grade, section)
  {
    var spaced := grade + " " + section;
    SpacedPair(grade, section);
    assert spaced != "pre-jardin" by { assert spaced[|grade|] == ' '; }
    StrippedIsFixed(grade);
    StrippedIsFixed(section);
    StrippedPair(grade, section);
  }

  /** Two dash-free words with a blank between them: no dash, and they are its words. */
  lemma SpacedPair(grade: string, section: string)
    requires IsWord(grade) && IsWord(section) && '-' !in grade && '-' !in section
    ensures '-' !in grade + " " + section
    ensures Words(grade + " " + section) == [grade, section]
  {
    JoinCons(grade, [section], ' ');
    WordsJoinSpaced([grade, section]);
    NoDashAround(grade, section);
  }

  lemma NoDashAround(a: string, b: string)
    requires '-' !in a && '-' !in b
    ensures '-' !in a + " " + b
  {
    var s := a + " " + b;
    forall i | 0 <= i < |s| ensures s[i] != '-' {
      if i < |a| { assert s[i] == a[i]; }
      else if i > |a| { assert s[i] == b[i - |a| - 1]; }
    }
  }

  /** ... or with a dash between them: `primero - a` names the same course as `primero a`. */
  lemma DashedSheetName(grade: string, section: string)
    requires IsWord(grade) && IsWord(section) && '-' !in grade && '-' !in section
    ensures SheetGrade(grade + " - " + section) == (grade, section)
  {
    var dashed := grade + " - " + section;
    var left, right := grade + " ", " " + section;
    assert dashed == left + ['-'] + right;
    assert dashed != "pre-jardin" by { assert dashed[|grade|] == ' '; }
    assert '-' in dashed by { assert dashed[|grade| + 1] == '-'; }
    SplitAround(left, '-', right);
    StripTrailingBlank(grade);
    StripLeadingBlank(section);
    StrippedPair(left, right);
  }

  /** Two pieces that are not blank are both kept, trimmed. */
  lemma StrippedPair(a: string, b: string)
    requires Strip(a) != "" && Strip(b) != ""
    ensures StrippedNonEmpty([a, b]) == [Strip(a), Strip(b)]
  {
    var parts := [a, b];
    assert parts[0] == a && parts[1..] == [b] && [b][0] == b && [b][1..] == [];
    assert StrippedNonEmpty([b]) == [Strip(b)] + StrippedNonEmpty([]);
    assert StrippedNonEmpty(parts) == [Strip(a)] + StrippedNonEmpty([b]);
  }

  /** The course matches the sheet: same normalised name, and same section when the sheet names one. */
  predicate FitsSheet(course: Row<Course>, grade: string, section: string) {
    Normalize(course.val.name) == grade && (section == "" || Normalize(course.val.seccion) == section)
  }

  function Fits(grade: string, section: string): Row<Course> -> bool {
    (course: Row<Course>) => FitsSheet(course, grade, section)
  }

  /** The loop over all courses: the position of the first that fits, or none when none does. */
  function MatchCourse(courses: seq<Row<Course>>, grade: string, section: string): (r: Option<nat>)
    ensures r.None? <==> forall k :: 0 <= k < |courses| ==> !FitsSheet(courses[k], grade, section)
    ensures r.Some? ==> r.value < |courses| && FitsSheet(courses[r.value], grade, section) &&
                        forall j :: 0 <= j < r.value ==> !FitsSheet(courses[j], grade, section)
  {
    var r := FirstWhere(courses, Fits(grade, section));
    if r.None? then
      assert forall k :: 0 <= k < |courses| ==> !Fits(grade, section)(courses[k]);
      None
    else Some(r.value)
  }

  /** What a sheet leads to before its rows are read. */
  datatype SheetPlan = SheetError(error: string) | ImportInto(courseId: int, cols: Columns)

  /** The course a normalised sheet name stands for: its grade and its section, `""` for none. */
  function SheetCourseKey(sheetName: string): (string, string) {
    SheetGrade(Normalize(sheetName))
  }

  /**
   * The checks of a sheet, in the source's order: every required field has
   * a column, then a course (of all courses, in rowid order) fits the
   * sheet's name; the sheet's rows go into that course.
   */
  function PlanSheet(sheet: Sheet, courses: seq<Row<Course>>): SheetPlan {
    Plan(sheet.name, HeaderMap(sheet.header), SheetCourseKey(sheet.name), courses)
  }

  /** `PlanSheet` once the headers are read and the sheet's name is parsed into a course key. */
  function Plan(sheetName: string, headers: map<string, nat>, key: (string, string), courses: seq<Row<Course>>)
    : SheetPlan
  {
    var missing := MissingFields(headers);
    if missing != [] then
      SheetError(SheetPrefix + sheetName + MsgMissingColumns + JoinWith(FieldNames(missing), ", "))
    else
      match MatchCourse(courses, key.0, key.1)
      case None => SheetError(SheetPrefix + sheetName + MsgCourseNotFound)
      case Some(k) => ImportInto(courses[k].id, ColumnsOf(headers))
  }

  /** A sheet is imported exactly when no required column is missing and some course fits its name. */
  lemma PlanImportsWhenComplete(sheetName: string, headers: map<string, nat>, key: (string, string), courses: seq<Row<Course>>)
    ensures Plan(sheetName, headers, key, courses).ImportInto? <==>
      MissingFields(headers) == [] && exists k :: 0 <= k < |courses| && FitsSheet(courses[k], key.0, key.1)
  {
    if MissingFields(headers) == [] && MatchCourse(courses, key.0, key.1).Some? {
      var k := MatchCourse(courses, key.0, key.1).value;
      assert FitsSheet(courses[k], key.0, key.1);
    }
  }

  /** An imported sheet goes into the first course that fits its name, with the columns its headers give. */
  lemma PlanChoosesFirstFit(sheetName: string, headers: map<string, nat>, key: (string, string), courses: seq<Row<Course>>)
    requires Plan(sheetName, headers, key, courses).ImportInto?
    ensures var p := Plan(sheetName, headers, key, courses);
      && MissingFields(headers) == [] && p.cols == ColumnsOf(headers)
      && exists k :: 0 <= k < |courses| && courses[k].id == p.courseId && FitsSheet(courses[k], key.0, key.1) &&
           forall j :: 0 <= j < k ==> !FitsSheet(courses[j], key.0, key.1)
  {
    var k := MatchCourse(courses, key.0, key.1).value;
    assert courses[k].id == Plan(sheetName, headers, key, courses).courseId;
  }

  // ---------------------------------------------------------------- one row

  /** `re.match(r"[^@]+@[^@]+\.[^@]+", email)`: some prefix is `x@y.z` with no `@` in `x`, `y` or `z`. */
  predicate EmailShape(s: string) {
    exists p, q :: 0 < p && p + 1 < q && q + 1 < |s| && s[p] == '@' && s[q] == '.' && s[q + 1] != '@' &&
      '@' !in s[..p] && '@' !in s[p + 1..q]
  }

  /** The address filled in for a missing e-mail passes the check. */
  lemma DefaultEmailHasShape()
    ensures EmailShape(DefaultEmail)
  {
    var s := DefaultEmail;
    assert s[5] == '@' && s[11] == '.' && s[12] != '@';
    assert s[..5] == "email" && s[6..11] == "email";
  }

  /** `str(value).strip() if value else fallback`. */
  function FieldOr(c: Cell, fallback: string): string {
    if Truthy(c) then Strip(CellText(c)) else fallback
  }

  /** The arguments a row gives to `register_student`. */
  datatype Registration = Registration(
    identificacion: string, nombre: string, apellido: string, telefono: string, email: string, acudiente: string)

  datatype RowResult = Rejected(error: string) | Accepted(reg: Registration)

  /**
   * The checks of one row: the name cell must be non-empty and have at
   * least four words (the first two are the `apellido`, the next two the
   * `nombre`, the rest are dropped); missing fields take their defaults; an
   * e-mail that is not blank must have the `x@y.z` shape.
   */
  function ParseRow(sheetName: string, row: seq<Cell>, cols: Columns): (r: RowResult)
  {
    var nombreFull := CellAt(row, cols.nombre);
    if !Truthy(nombreFull) then Rejected(SheetPrefix + sheetName + MsgEmptyName)
    else
      var words := Words(CellText(nombreFull));
      if |words| < 4 then Rejected(SheetPrefix + sheetName + MsgBadName + CellText(nombreFull))
      else
        var email := FieldOr(CellAt(row, cols.correo), DefaultEmail);
        if email != "" && !EmailShape(email) then Rejected(SheetPrefix + sheetName + MsgBadEmail + email)
        else
          Accepted(Registration(
            FieldOr(CellAt(row, cols.identificacion), DefaultIdentificacion),
            JoinSpaced(words[2..4]), JoinSpaced(words[..2]),
            FieldOr(CellAt(row, cols.telefono), ""), email,
            FieldOr(CellAt(row, cols.acudiente), "")))
  }

  /**
   * A row is accepted exactly when its name has at least four words and its
   * e-mail passes; the `apellido` and `nombre` it registers split back into
   * the first and the next two words of the name, and missing cells take
   * their defaults.
   */
  lemma ParseRowSpec(sheetName: string, row: seq<Cell>, cols: Columns)
    ensures var nombreFull := CellAt(row, cols.nombre);
      var r := ParseRow(sheetName, row, cols);
      && (r.Accepted? <==> Truthy(nombreFull) && |Words(CellText(nombreFull))| >= 4 &&
                           (FieldOr(CellAt(row, cols.correo), DefaultEmail) == "" ||
                            EmailShape(FieldOr(CellAt(row, cols.correo), DefaultEmail))))
      && (r.Accepted? ==>
           && Words(r.reg.apellido) == Words(CellText(nombreFull))[..2]
           && Words(r.reg.nombre) == Words(CellText(nombreFull))[2..4]
           && r.reg.nombre != "" && r.reg.apellido != ""
           && (!Truthy(CellAt(row, cols.identificacion)) ==> r.reg.identificacion == DefaultIdentificacion)
           && (!Truthy(CellAt(row, cols.correo)) ==> r.reg.email == DefaultEmail))
  {
    var nombreFull := CellAt(row, cols.nombre);
    if ParseRow(sheetName, row, cols).Accepted? {
      var words := Words(CellText(nombreFull));
      WordsJoinSpaced(words[..2]);
      WordsJoinSpaced(words[2..4]);
    }
  }

  /** Whether `register_student` accepts the row's registration. */
  predicate Registers(students: seq<Row<Student>>, reg: Registration) {
    IsDigitString(reg.identificacion) && reg.nombre != "" && reg.apellido != "" &&
    !HasIdentification(students, reg.identificacion)
  }

  /**
   * One row as the import is written: an accepted row reaches the
   * seven-argument call, which raises before anything is written, so every
   * row ends in exactly one error and none is imported.
   */
  method ImportRowAsWritten(sheetName: string, row: seq<Cell>, cols: Columns)
    returns (imported: bool, errs: seq<string>)
    ensures !imported && |errs| == 1
    ensures ParseRow(sheetName, row, cols).Rejected? ==> errs == [ParseRow(sheetName, row, cols).error]
    ensures ParseRow(sheetName, row, cols).Accepted? ==> errs == [SheetPrefix + sheetName + MsgUnknownRow + ArityError]
  {
    var r := ParseRow(sheetName, row, cols);
    if r.Rejected? {
      return false, [r.error];
    }
    return false, [SheetPrefix + sheetName + MsgUnknownRow + ArityError];
  }

  /**
   * One row as intended: register the student with the six arguments
   * `register_student` takes; on success look the student up by
   * identification and enrol them in the sheet's course for `now`'s year
   * with status `"inscrito"`. `enrollFailure` is the storage error of that
   * insert, if it raises one.
   */
  method ImportRow(
    db: Database, sheetName: string, row: seq<Cell>, cols: Columns, courseId: int,
    now: DateTime, enrollFailure: Option<string>)
    returns (imported: bool, errs: seq<string>)
    requires db.Valid() && Valid(now)
    modifies db`students, db`nextStudentId, db`enrollments, db`nextEnrollmentId
    ensures db.Valid()
    ensures var r := ParseRow(sheetName, row, cols);
      && (r.Rejected? ==> !imported && errs == [r.error])
      && (r.Accepted? ==> (imported <==> Registers(old(db.students), r.reg)))
      && (imported ==>
            db.students == old(db.students) +
              [Row(old(db.nextStudentId), Student(r.reg.identificacion, r.reg.nombre, r.reg.apellido, Some(courseId),
                                                   r.reg.acudiente, r.reg.telefono, true))])
    ensures imported ==> db.nextStudentId == old(db.nextStudentId) + 1
    ensures !imported ==> |errs| == 1 && unchanged(db)
    ensures imported && enrollFailure.None? ==>
      && errs == [] && db.nextEnrollmentId == old(db.nextEnrollmentId) + 1
      && db.enrollments == old(db.enrollments) +
           [Row(old(db.nextEnrollmentId), Enrollment(old(db.nextStudentId), Some(courseId), now.year, StatusEnrolled, Format(now)))]
    ensures imported && enrollFailure.Some? ==>
      && |errs| == 1 && db.enrollments == old(db.enrollments) && db.nextEnrollmentId == old(db.nextEnrollmentId)
  {
    var r := ParseRow(sheetName, row, cols);
    if r.Rejected? {
      return false, [r.error];
    }
    imported, errs := ImportRegistration(db, sheetName, r.reg, courseId, now, enrollFailure);
  }

  /** An accepted row: register the student, then enrol them when that succeeds. */
  method ImportRegistration(
    db: Database, sheetName: string, reg: Registration, courseId: int, now: DateTime, enrollFailure: Option<string>)
    returns (imported: bool, errs: seq<string>)
    requires db.Valid() && Valid(now)
    modifies db`students, db`nextStudentId, db`enrollments, db`nextEnrollmentId
    ensures db.Valid()
    ensures imported <==> Registers(old(db.students), reg)
    ensures imported ==>
      && db.students == old(db.students) +
           [Row(old(db.nextStudentId), Student(reg.identificacion, reg.nombre, reg.apellido, Some(courseId),
                                                reg.acudiente, reg.telefono, true))]
      && db.nextStudentId == old(db.nextStudentId) + 1
    ensures !imported ==> |errs| == 1 && unchanged(db)
    ensures imported && enrollFailure.None? ==>
      && errs == [] && db.nextEnrollmentId == old(db.nextEnrollmentId) + 1
      && db.enrollments == old(db.enrollments) +
           [Row(old(db.nextEnrollmentId), Enrollment(old(db.nextStudentId), Some(courseId), now.year, StatusEnrolled, Format(now)))]
    ensures imported && enrollFailure.Some? ==>
      && |errs| == 1 && db.enrollments == old(db.enrollments) && db.nextEnrollmentId == old(db.nextEnrollmentId)
  {
    var ok, msg := RegisterStudent(db, reg.identificacion, reg.nombre, reg.apellido, Some(courseId), reg.acudiente, reg.telefono);
    if !ok {
      return false, [SheetPrefix + sheetName + MsgRowId + reg.identificacion + ": " + msg];
    }
    errs := EnrollRegistered(db, sheetName, reg.identificacion, courseId, now, enrollFailure);
    imported := true;
  }

  /**
   * After a registration: find the student by identification, which under
   * the UNIQUE constraint is the row just added, and enrol them.
   */
  method EnrollRegistered(
    db: Database, sheetName: string, identificacion: string, courseId: int, now: DateTime, enrollFailure: Option<string>)
    returns (errs: seq<string>)
    requires db.Valid() && Valid(now)
    requires |db.students| > 0 && db.students[|db.students| - 1].val.identificacion == identificacion
    modifies db`enrollments, db`nextEnrollmentId
    ensures db.Valid()
    ensures enrollFailure.None? ==>
      && errs == [] && db.nextEnrollmentId == old(db.nextEnrollmentId) + 1
      && db.enrollments == old(db.enrollments) +
           [Row(old(db.nextEnrollmentId),
                Enrollment(db.students[|db.students| - 1].id, Some(courseId), now.year, StatusEnrolled, Format(now)))]
    ensures enrollFailure.Some? ==> |errs| == 1 && unchanged(db)
  {
    IdentificationFindsTheRow(db.students, |db.students| - 1);
    var record := StudentByIdentification(db.students, identificacion);
    match record {
      case None =>
        errs := [SheetPrefix + sheetName + MsgRowId + identificacion + MsgStudentLost];
      case Some(student) =>
        var enrolled, enrollMsg, enrollmentId := CreateEnrollment(db, student.id, Some(courseId), now.year, StatusEnrolled, now, enrollFailure);
        errs := if enrolled then [] else [SheetPrefix + sheetName + MsgRowId + identificacion + MsgEnrollError + enrollMsg];
    }
  }

  /**
   * The rows of a sheet, in order, into its course. `enrollFailure(r)` is
   * the storage error of the enrolment insert of row `r`, if it raises one.
   * Every row that is not imported leaves one error and changes nothing;
   * every imported row adds one student to the course and, unless its
   * enrolment fails, one enrolment of that student in the course for
   * `now`'s year.
   */
  method ImportSheetRows(
    db: Database, sheetName: string, rows: seq<seq<Cell>>, cols: Columns, courseId: int,
    now: DateTime, enrollFailure: int -> Option<string>)
    returns (count: nat, errs: seq<string>)
    requires db.Valid() && Valid(now)
    modifies db`students, db`nextStudentId, db`enrollments, db`nextEnrollmentId
    ensures db.Valid()
    ensures count <= |rows| && |rows| - count <= |errs| <= |rows|
    ensures Grown(old(db.students), db.students, count) && AllInCourse(db.students, |old(db.students)|, courseId)
    ensures |old(db.enrollments)| <= |db.enrollments| <= |old(db.enrollments)| + count
    ensures db.enrollments[..|old(db.enrollments)|] == old(db.enrollments)
    ensures EnrolsNewStudents(db.enrollments, |old(db.enrollments)|, db.students, |old(db.students)|, courseId, now.year)
    ensures (forall r :: 0 <= r < |rows| ==> enrollFailure(r).None?) ==> |db.enrollments| == |old(db.enrollments)| + count
  {
    ghost var students0, enrollments0 := db.students, db.enrollments;
    count, errs := 0, [];
    for r := 0 to |rows|
      invariant db.Valid()
      invariant count <= r && r - count <= |errs| <= r
      invariant Grown(students0, db.students, count) && AllInCourse(db.students, |students0|, courseId)
      invariant |enrollments0| <= |db.enrollments| <= |enrollments0| + count
      invariant db.enrollments[..|enrollments0|] == enrollments0
      invariant EnrolsNewStudents(db.enrollments, |enrollments0|, db.students, |students0|, courseId, now.year)
      invariant (forall q :: 0 <= q < r ==> enrollFailure(q).None?) ==> |db.enrollments| == |enrollments0| + count
    {
      ghost var students1, enrollments1 := db.students, db.enrollments;
      var imported, rowErrs := ImportRow(db, sheetName, rows[r], cols, courseId, now, enrollFailure(r));
      if imported {
        count := count + 1;
        GrowOne(students0, students1, db.students, count - 1, courseId);
        KeepEnrolments(db.enrollments, enrollments1, enrollments0, db.students, students1, |students0|, courseId, now.year);
      }
      errs := errs + rowErrs;
    }
  }

  /** The table is the old one with `count` rows added after it. */
  ghost predicate Grown(old_: seq<Row<Student>>, t: seq<Row<Student>>, count: nat) {
    |t| == |old_| + count && t[..|old_|] == old_
  }

  /** Every student from position `from` on is in the course. */
  ghost predicate AllInCourse(t: seq<Row<Student>>, from: nat, courseId: int) {
    forall i :: from <= i < |t| ==> t[i].val.courseId == Some(courseId)
  }

  /**
   * Every enrolment from position `from` on enrols, in the course and the
   * year with status `"inscrito"`, a student added from position `studentsFrom` on.
   */
  ghost predicate EnrolsNewStudents(
    enrollments: seq<Row<Enrollment>>, from: nat, students: seq<Row<Student>>, studentsFrom: nat, courseId: int, year: int)
  {
    forall i :: from <= i < |enrollments| ==>
      var e := enrollments[i].val;
      && e.courseId == Some(courseId) && e.academicYear == year && e.status == StatusEnrolled
      && exists j :: studentsFrom <= j < |students| && students[j].id == e.studentId
  }

  lemma GrowOne(s0: seq<Row<Student>>, s1: seq<Row<Student>>, s2: seq<Row<Student>>, count: nat, courseId: int)
    requires Grown(s0, s1, count) && AllInCourse(s1, |s0|, courseId)
    requires |s2| == |s1| + 1 && s2[..|s1|] == s1 && s2[|s1|].val.courseId == Some(courseId)
    ensures Grown(s0, s2, count + 1) && AllInCourse(s2, |s0|, courseId)
  {
    assert s2[..|s0|] == s1[..|s0|];
  }

  lemma KeepEnrolments(
    e2: seq<Row<Enrollment>>, e1: seq<Row<Enrollment>>, e0: seq<Row<Enrollment>>,
    s2: seq<Row<Student>>, s1: seq<Row<Student>>, studentsFrom: nat, courseId: int, year: int)
    requires |s2| == |s1| + 1 && s2[..|s1|] == s1 && studentsFrom <= |s1|
    requires |e0| <= |e1| && e1[..|e0|] == e0
    requires EnrolsNewStudents(e1, |e0|, s1, studentsFrom, courseId, year)
    requires e2 == e1 || (exists x :: e2 == e1 + [x] && x.val.courseId == Some(courseId) && x.val.academicYear == year &&
                                         x.val.status == StatusEnrolled && x.val.studentId == s2[|s1|].id)
    ensures e2[..|e0|] == e0
    ensures EnrolsNewStudents(e2, |e0|, s2, studentsFrom, courseId, year)
  {
    forall j | studentsFrom <= j < |s1| ensures s2[j] == s1[j] {
      assert s2[..|s1|][j] == s1[j];
    }
    if e2 != e1 {
      var x :| e2 == e1 + [x] && x.val.studentId == s2[|s1|].id;
      assert e2[..|e0|] == e1[..|e0|];
    }
  }

  // ---------------------------------------------------------------- the workbook

  /** What `openpyxl.load_workbook` gives: the sheets in order, or the text of its error. */
  datatype Workbook = Loaded(sheets: seq<Sheet>) | Unreadable(error: string)

  /**
   * The plan of every sheet against the courses table. The import never
   * changes that table, so each sheet's plan is the same whether it is made
   * when the loop reaches the sheet or before the loop.
   */
  function Plans(sheets: seq<Sheet>, courses: seq<Row<Course>>): seq<SheetPlan> {
    seq(|sheets|, i requires 0 <= i < |sheets| => PlanSheet(sheets[i], courses))
  }

  /** Every sheet the plans import goes into a course of the table. */
  lemma PlansTargetCourses(sheets: seq<Sheet>, courses: seq<Row<Course>>)
    ensures var plans := Plans(sheets, courses);
      forall i :: 0 <= i < |plans| && plans[i].ImportInto? ==> HasId(courses, plans[i].courseId)
  {
    forall i | 0 <= i < |sheets| {
      PlanTargetsCourse(sheets[i], courses);
    }
  }

  /** The rows of the sheets that pass their checks: the most that can be imported. */
  function ImportableRows(sheets: seq<Sheet>, plans: seq<SheetPlan>): nat
    requires |plans| == |sheets|
  {
    if sheets == [] then 0
    else
      var n := |sheets| - 1;
      ImportableRows(sheets[..n], plans[..n]) + if plans[n].ImportInto? then |sheets[n].rows| else 0
  }

  /** One outcome per sheet that fails its checks and one per row of the others. */
  function Outcomes(sheets: seq<Sheet>, plans: seq<SheetPlan>): nat
    requires |plans| == |sheets|
  {
    if sheets == [] then 0
    else
      var n := |sheets| - 1;
      Outcomes(sheets[..n], plans[..n]) + if plans[n].ImportInto? then |sheets[n].rows| else 1
  }

  /** Taking one more sheet into account. */
  lemma CountsStep(sheets: seq<Sheet>, plans: seq<SheetPlan>, i: int)
    requires |plans| == |sheets| && 0 <= i < |sheets|
    ensures var extra := if plans[i].ImportInto? then |sheets[i].rows| else 0;
      ImportableRows(sheets[..i + 1], plans[..i + 1]) == ImportableRows(sheets[..i], plans[..i]) + extra
    ensures var extra := if plans[i].ImportInto? then |sheets[i].rows| else 1;
      Outcomes(sheets[..i + 1], plans[..i + 1]) == Outcomes(sheets[..i], plans[..i]) + extra
  {
    var prefix, planned := sheets[..i + 1], plans[..i + 1];
    assert prefix[..i] == sheets[..i] && prefix[i] == sheets[i];
    assert planned[..i] == plans[..i] && planned[i] == plans[i];
  }

  /** Every student from position `from` on is in a course of the table. */
  ghost predicate InExistingCourses(t: seq<Row<Student>>, from: nat, courses: seq<Row<Course>>) {
    forall i :: from <= i < |t| ==> t[i].val.courseId.Some? && HasId(courses, t[i].val.courseId.value)
  }

  /**
   * `import_students_from_excel`: each sheet in order is checked, then its
   * rows are imported into its course. `enrollFailure(s, r)` is the storage
   * error of the enrolment of row `r` of sheet `s`, if it raises one. An
   * unreadable workbook gives one error and changes nothing. Otherwise every
   * sheet that fails its checks and every row gives an import or at least
   * one error, only the rows of the sheets that pass can be imported, every
   * imported student is in an existing course, and no more enrolments are
   * made than students imported.
   */
  method ImportStudentsFromExcel(db: Database, book: Workbook, now: DateTime, enrollFailure: (int, int) -> Option<string>)
    returns (count: nat, errors: seq<string>)
    requires db.Valid() && Valid(now)
    modifies db`students, db`nextStudentId, db`enrollments, db`nextEnrollmentId
    ensures db.Valid()
    ensures book.Unreadable? ==> count == 0 && errors == [MsgLoadError + book.error] && unchanged(db)
    ensures book.Loaded? ==>
      var plans := Plans(book.sheets, db.courses);
      && count <= ImportableRows(book.sheets, plans)
      && Outcomes(book.sheets, plans) <= count + |errors| <= Outcomes(book.sheets, plans) + count
    ensures Grown(old(db.students), db.students, count) && InExistingCourses(db.students, |old(db.students)|, db.courses)
    ensures |old(db.enrollments)| <= |db.enrollments| <= |old(db.enrollments)| + count
    ensures db.enrollments[..|old(db.enrollments)|] == old(db.enrollments)
  {
    if book.Unreadable? {
      return 0, [MsgLoadError + book.error];
    }
    var plans := Plans(book.sheets, db.courses);
    PlansTargetCourses(book.sheets, db.courses);
    count, errors := ImportSheets(db, book.sheets, plans, now, enrollFailure);
  }

  /** The loop over the sheets, each with its plan. */
  method ImportSheets(
    db: Database, sheets: seq<Sheet>, plans: seq<SheetPlan>, now: DateTime, enrollFailure: (int, int) -> Option<string>)
    returns (count: nat, errors: seq<string>)
    requires db.Valid() && Valid(now) && |plans| == |sheets|
    requires forall i :: 0 <= i < |plans| && plans[i].ImportInto? ==> HasId(db.courses, plans[i].courseId)
    modifies db`students, db`nextStudentId, db`enrollments, db`nextEnrollmentId
    ensures db.Valid()
    ensures count <= ImportableRows(sheets, plans)
    ensures Outcomes(sheets, plans) <= count + |errors| <= Outcomes(sheets, plans) + count
    ensures Grown(old(db.students), db.students, count) && InExistingCourses(db.students, |old(db.students)|, db.courses)
    ensures |old(db.enrollments)| <= |db.enrollments| <= |old(db.enrollments)| + count
    ensures db.enrollments[..|old(db.enrollments)|] == old(db.enrollments)
  {
    ghost var students0, enrollments0 := db.students, db.enrollments;
    count, errors := 0, [];
    for i := 0 to |sheets|
      invariant db.Valid()
      invariant count <= ImportableRows(sheets[..i], plans[..i])
      invariant Outcomes(sheets[..i], plans[..i]) <= count + |errors| <= Outcomes(sheets[..i], plans[..i]) + count
      invariant Grown(students0, db.students, count) && InExistingCourses(db.students, |students0|, db.courses)
      invariant |enrollments0| <= |db.enrollments| <= |enrollments0| + count
      invariant db.enrollments[..|enrollments0|] == enrollments0
    {
      CountsStep(sheets, plans, i);
      var n, sheetErrs := ImportSheet(db, sheets[i].name, sheets[i].rows, plans[i], now, (r: int) => enrollFailure(i, r),
                                      students0, enrollments0, count);
      count, errors := count + n, errors + sheetErrs;
    }
    assert sheets[..|sheets|] == sheets && plans[..|plans|] == plans;
  }

  /**
   * One sheet once planned: its error alone, or its rows into the planned
   * course. `students0`, `enrollments0` and `done` are the tables before the
   * workbook and the students added so far; the sheet's students extend them.
   */
  method ImportSheet(
    db: Database, sheetName: string, rows: seq<seq<Cell>>, plan: SheetPlan, now: DateTime,
    enrollFailure: int -> Option<string>,
    ghost students0: seq<Row<Student>>, ghost enrollments0: seq<Row<Enrollment>>, ghost done: nat)
    returns (n: nat, errs: seq<string>)
    requires db.Valid() && Valid(now)
    requires plan.ImportInto? ==> HasId(db.courses, plan.courseId)
    requires Grown(students0, db.students, done) && InExistingCourses(db.students, |students0|, db.courses)
    requires |enrollments0| <= |db.enrollments| <= |enrollments0| + done
    requires db.enrollments[..|enrollments0|] == enrollments0
    modifies db`students, db`nextStudentId, db`enrollments, db`nextEnrollmentId
    ensures db.Valid()
    ensures plan.SheetError? ==> n == 0 && errs == [plan.error] && unchanged(db)
    ensures plan.ImportInto? ==> n <= |rows| && |rows| - n <= |errs| <= |rows|
    ensures Grown(students0, db.students, done + n) && InExistingCourses(db.students, |students0|, db.courses)
    ensures |enrollments0| <= |db.enrollments| <= |enrollments0| + done + n
    ensures db.enrollments[..|enrollments0|] == enrollments0
  {
    if plan.SheetError? {
      return 0, [plan.error];
    }
    ghost var students1, enrollments1 := db.students, db.enrollments;
    n, errs := ImportSheetRows(db, sheetName, rows, plan.cols, plan.courseId, now, enrollFailure);
    AddSheetStudents(students0, students1, db.students, done, n, db.courses);
    assert db.enrollments[..|enrollments0|] == db.enrollments[..|enrollments1|][..|enrollments0|];
  }

  /** A sheet that is imported is imported into a course of the table. */
  lemma PlanTargetsCourse(sheet: Sheet, courses: seq<Row<Course>>)
    ensures PlanSheet(sheet, courses).ImportInto? ==> HasId(courses, PlanSheet(sheet, courses).courseId)
  {
    if PlanSheet(sheet, courses).ImportInto? {
      PlanChoosesFirstFit(sheet.name, HeaderMap(sheet.header), SheetCourseKey(sheet.name), courses);
    }
  }

  lemma AddSheetStudents(
    s0: seq<Row<Student>>, s1: seq<Row<Student>>, s2: seq<Row<Student>>, count: nat, n: nat, courses: seq<Row<Course>>)
    requires Grown(s0, s1, count) && InExistingCourses(s1, |s0|, courses)
    requires Grown(s1, s2, n) && InExistingCourses(s2, |s1|, courses)
    ensures Grown(s0, s2, count + n) && InExistingCourses(s2, |s0|, courses)
  {
    assert s2[..|s0|] == s2[..|s1|][..|s0|];
    forall i | |s0| <= i < |s1| ensures s2[i] == s1[i] {
      assert s2[..|s1|][i] == s1[i];
    }
  }

  /**
   * The workbook as the import is written: every row that passes its checks
   * reaches the seven-argument call and fails there, so nothing is ever
   * imported and the database is not touched, whatever the workbook holds.
   */
  method ImportStudentsFromExcelAsWritten(courses: seq<Row<Course>>, book: Workbook)
    returns (count: nat, errors: seq<string>)
    ensures count == 0
    ensures book.Unreadable? ==> errors == [MsgLoadError + book.error]
    ensures book.Loaded? ==> |errors| == Outcomes(book.sheets, Plans(book.sheets, courses))
  {
    if book.Unreadable? {
      return 0, [MsgLoadError + book.error];
    }
    count := 0;
    errors := ImportSheetsAsWritten(book.sheets, Plans(book.sheets, courses));
  }

  /** The sheets loop as written: one error per failed sheet and one per row of the others. */
  method ImportSheetsAsWritten(sheets: seq<Sheet>, plans: seq<SheetPlan>) returns (errors: seq<string>)
    requires |plans| == |sheets|
    ensures |errors| == Outcomes(sheets, plans)
  {
    errors := [];
    for i := 0 to |sheets|
      invariant |errors| == Outcomes(sheets[..i], plans[..i])
    {
      CountsStep(sheets, plans, i);
      var errs := ImportSheetAsWritten(sheets[i].name, sheets[i].rows, plans[i]);
      errors := errors + errs;
    }
    assert sheets[..|sheets|] == sheets && plans[..|plans|] == plans;
  }

  /** One sheet as written: its own error when it fails its checks, otherwise one error per row. */
  method ImportSheetAsWritten(sheetName: string, rows: seq<seq<Cell>>, plan: SheetPlan) returns (errs: seq<string>)
    ensures plan.SheetError? ==> errs == [plan.error]
    ensures plan.ImportInto? ==> |errs| == |rows|
  {
    if plan.SheetError? {
      return [plan.error];
    }
    errs := [];
    for r := 0 to |rows|
      invariant |errs| == r
    {
      var imported, rowErrs := ImportRowAsWritten(sheetName, rows[r], plan.cols);
      errs := errs + rowErrs;
    }
  }
}
