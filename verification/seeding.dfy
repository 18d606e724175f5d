/** The `insert_*_data` seeders and `create_database`, which runs them in
    dependency order on an existing or fresh database file. */
module Seeding {
  import opened Wrappers
  import opened Text
  import opened Tables
  import opened Schema
  import Students

  /** `insert_aspect_data`: eight aspects with fixed ids 1..8. */
  const AspectRows: seq<Row<string, ()>> := [
    Row(1, "Teaching quality", ()),
    Row(2, "Support from lecturers", ()),
    Row(3, "Learning environment", ()),
    Row(4, "Course information", ()),
    Row(5, "Organization and management", ()),
    Row(6, "Workload", ()),
    Row(7, "Test and evaluation", ()),
    Row(8, "General review", ())
  ]

  /** `insert_sentiment_data`: ids 0..2. */
  const SentimentRows: seq<Row<string, ()>> := [
    Row(0, "Negative", ()),
    Row(1, "Neutral", ()),
    Row(2, "Positive", ())
  ]

  /** `insert_course_data`: `(code, name)` pairs. */
  const CourseEntries: seq<(string, string)> := [
    ("CS101", "Nhập môn Khoa học Máy tính"),
    ("ML202", "Machine Learning nâng cao"),
    ("DB303", "Cơ sở Dữ liệu"),
    ("AI404", "Trí tuệ Nhân tạo"),
    ("WEB505", "Phát triển Ứng dụng Web"),
    ("NET606", "Mạng Máy tính")
  ]

  /** Python's `range(lo, hi)`. */
  function Range(lo: int, hi: int): (r: seq<int>)
    ensures |r| == if lo < hi then hi - lo else 0
    ensures forall i | 0 <= i < |r| :: r[i] == lo + i
    decreases hi - lo
  {
    if hi <= lo then [] else [lo] + Range(lo + 1, hi)
  }

  /** The years `insert_semester_data` covers. */
  const SemesterYears: seq<int> := Range(2020, 2026)

  /** The start years `insert_academic_year_data` covers. */
  const StartYears: seq<int> := Range(2020, 2025)

  /** The first half-year of `year`: January to May. */
  function FirstHalf(year: int): (string, SemesterDates) {
    var y := IntToString(year);
    (y + "HK1", SemesterDates(y + "-01-01", y + "-05-31"))
  }

  /** The second half-year of `year`: August to December. */
  function SecondHalf(year: int): (string, SemesterDates) {
    var y := IntToString(year);
    (y + "HK2", SemesterDates(y + "-08-01", y + "-12-31"))
  }

  /** The rows the semester loop appends: two per year, in year order. */
  function SemesterEntries(years: seq<int>): (vals: seq<(string, SemesterDates)>)
    ensures |vals| == 2 * |years|
    ensures forall i | 0 <= i < |years| :: vals[2 * i] == FirstHalf(years[i]) && vals[2 * i + 1] == SecondHalf(years[i])
  {
    var vals := seq(2 * |years|, j requires 0 <= j < 2 * |years| =>
      if j % 2 == 0 then FirstHalf(years[j / 2]) else SecondHalf(years[j / 2]));
    assert forall i | 0 <= i < |years| :: (2 * i) / 2 == i && (2 * i + 1) / 2 == i && (2 * i) % 2 == 0 && (2 * i + 1) % 2 == 1;
    vals
  }

  /** `f"{start}-{start+1}"` with its two years. */
  function AcademicYearEntry(start: int): (string, YearSpan) {
    (IntToString(start) + "-" + IntToString(start + 1), YearSpan(start, start + 1))
  }

  /** The name `{s}-{s+1}` of a non-negative start year gives the start year
      back, so distinct start years never clash on the UNIQUE name. */
  lemma YearNameInjective(a: int, b: int)
    requires 0 <= a && 0 <= b
    ensures AcademicYearEntry(a).0 == AcademicYearEntry(b).0 ==> a == b
  {
    if AcademicYearEntry(a).0 == AcademicYearEntry(b).0 {
      SplitAtSeparator(Decimal(a), Decimal(a + 1), Decimal(b), Decimal(b + 1), '-');
      DecimalInjective(a, b);
    }
  }

  lemma YearNamesInjective()
    ensures forall a, b | 0 <= a && 0 <= b :: AcademicYearEntry(a).0 == AcademicYearEntry(b).0 ==> a == b
  {
    forall a, b | 0 <= a && 0 <= b
      ensures AcademicYearEntry(a).0 == AcademicYearEntry(b).0 ==> a == b
    {
      YearNameInjective(a, b);
    }
  }

  /** The rows the academic-year loop appends, one per start year, in order.
      Each spans its start year and the next, and (for non-negative years) its
      name tells the start year apart from every other. */
  function AcademicYearEntries(starts: seq<int>): (vals: seq<(string, YearSpan)>)
    ensures |vals| == |starts|
    ensures forall i | 0 <= i < |starts| :: vals[i] == AcademicYearEntry(starts[i])
    ensures forall i | 0 <= i < |starts| :: vals[i].1.startYear == starts[i] && vals[i].1.endYear == starts[i] + 1
    ensures forall i, j | 0 <= i < |starts| && 0 <= j < |starts| && 0 <= starts[i] && 0 <= starts[j] ::
      vals[i].0 == vals[j].0 ==> starts[i] == starts[j]
  {
    YearNamesInjective();
    seq(|starts|, i requires 0 <= i < |starts| => AcademicYearEntry(starts[i]))
  }

  /** `f"K{start_year - 1976}{char}"`. */
  function ClassName(startYear: int, letter: char): string {
    "K" + IntToString(startYear - 1976) + [letter]
  }

  /** The rows the class loop appends: an `A` and a `B` class for every academic
      year, in the order the years table lists them. */
  function ClassEntries(years: Table<string, YearSpan>): (vals: seq<(ClassKey, ())>)
    ensures |vals| == 2 * |years|
    ensures forall i | 0 <= i < |years| ::
      vals[2 * i] == (ClassKey(ClassName(years[i].payload.startYear, 'A'), years[i].id), ()) &&
      vals[2 * i + 1] == (ClassKey(ClassName(years[i].payload.startYear, 'B'), years[i].id), ())
  {
    var vals := seq(2 * |years|, j requires 0 <= j < 2 * |years| =>
      (ClassKey(ClassName(years[j / 2].payload.startYear, if j % 2 == 0 then 'A' else 'B'), years[j / 2].id), ()));
    assert forall i | 0 <= i < |years| :: (2 * i) / 2 == i && (2 * i + 1) / 2 == i && (2 * i) % 2 == 0 && (2 * i + 1) % 2 == 1;
    vals
  }

  /** Every seeded aspect is present: its id or its name is taken. */
  predicate AspectsSeeded(t: Table<string, ()>) {
    forall k | 0 <= k < |AspectRows| :: Blocked(t, AspectRows[k])
  }

  /** Every seeded sentiment is present: its id or its label is taken. */
  predicate SentimentsSeeded(t: Table<string, ()>) {
    forall k | 0 <= k < |SentimentRows| :: Blocked(t, SentimentRows[k])
  }

  /** Every semester name of 2020..2025 is present. */
  predicate SemestersSeeded(t: Table<string, SemesterDates>) {
    forall k | 0 <= k < |SemesterEntries(SemesterYears)| :: HasKey(t, SemesterEntries(SemesterYears)[k].0)
  }

  /** Every seeded course code is present. */
  predicate CoursesSeeded(t: Table<string, string>) {
    forall k | 0 <= k < |CourseEntries| :: HasKey(t, CourseEntries[k].0)
  }

  /** Every academic year `{s}-{s+1}` for s in 2020..2024 is present. */
  predicate YearsSeeded(t: Table<string, YearSpan>) {
    forall k | 0 <= k < |StartYears| :: HasKey(t, AcademicYearEntry(StartYears[k]).0)
  }

  /** Every academic year of `years` has its `A` and its `B` class. */
  predicate ClassesSeeded(t: Table<ClassKey, ()>, years: Table<string, YearSpan>) {
    forall i | 0 <= i < |years| ::
      HasKey(t, ClassKey(ClassName(years[i].payload.startYear, 'A'), years[i].id)) &&
      HasKey(t, ClassKey(ClassName(years[i].payload.startYear, 'B'), years[i].id))
  }

  /** `insert_aspect_data`: only the aspect table changes, it keeps its rows,
      and afterwards every seeded aspect is present (its id or name was taken). */
  function InsertAspectData(db: Db): (r: Db)
    ensures r == db.(aspects := r.aspects)
    ensures |db.aspects| <= |r.aspects| && r.aspects[..|db.aspects|] == db.aspects
    ensures AspectsSeeded(r.aspects)
    ensures WellFormed(db.aspects) ==> WellFormed(r.aspects)
  {
    InsertManyBlocksEach(db.aspects, AspectRows);
    db.(aspects := InsertManyOrIgnore(db.aspects, AspectRows))
  }

  /** `insert_sentiment_data`, the same for the three sentiment labels. */
  function InsertSentimentData(db: Db): (r: Db)
    ensures r == db.(sentiments := r.sentiments)
    ensures |db.sentiments| <= |r.sentiments| && r.sentiments[..|db.sentiments|] == db.sentiments
    ensures SentimentsSeeded(r.sentiments)
    ensures WellFormed(db.sentiments) ==> WellFormed(r.sentiments)
  {
    InsertManyBlocksEach(db.sentiments, SentimentRows);
    db.(sentiments := InsertManyOrIgnore(db.sentiments, SentimentRows))
  }

  /** `insert_semester_data`: only the semester table changes, it keeps its
      rows, and afterwards every semester name of 2020..2025 is present. */
  function InsertSemesterData(db: Db): (r: Db)
    ensures r == db.(semesters := r.semesters)
    ensures |db.semesters| <= |r.semesters| && r.semesters[..|db.semesters|] == db.semesters
    ensures SemestersSeeded(r.semesters)
  {
    InsertManyAutoCovers(db.semesters, SemesterEntries(SemesterYears));
    db.(semesters := InsertManyAuto(db.semesters, SemesterEntries(SemesterYears)))
  }

  /** `insert_course_data`: only the course table changes, it keeps its rows,
      and afterwards every seeded course code is present. */
  function InsertCourseData(db: Db): (r: Db)
    ensures r == db.(courses := r.courses)
    ensures |db.courses| <= |r.courses| && r.courses[..|db.courses|] == db.courses
    ensures CoursesSeeded(r.courses)
  {
    var vals := CourseEntries;
    InsertManyAutoCovers(db.courses, vals);
    db.(courses := InsertManyAuto(db.courses, vals))
  }

  /** `insert_academic_year_data`: only the academic-year table changes, it
      keeps its rows, and afterwards every year `{s}-{s+1}` for s in 2020..2024
      is present. */
  function InsertAcademicYearData(db: Db): (r: Db)
    ensures r == db.(academicYears := r.academicYears)
    ensures |db.academicYears| <= |r.academicYears| && r.academicYears[..|db.academicYears|] == db.academicYears
    ensures YearsSeeded(r.academicYears)
  {
    InsertManyAutoCovers(db.academicYears, AcademicYearEntries(StartYears));
    db.(academicYears := InsertManyAuto(db.academicYears, AcademicYearEntries(StartYears)))
  }

  /** `insert_class_data`: only the class table changes, it keeps its rows,
      and afterwards every academic year has its `A` and its `B` class. The
      years are read in id order, which is row order since the table only ever
      grows by AUTOINCREMENT. */
  function InsertClassData(db: Db): (r: Db)
    ensures r == db.(classes := r.classes)
    ensures |db.classes| <= |r.classes| && r.classes[..|db.classes|] == db.classes
    ensures ClassesSeeded(r.classes, db.academicYears)
  {
    var vals := ClassEntries(db.academicYears);
    InsertManyAutoCovers(db.classes, vals);
    assert forall i | 0 <= i < |db.academicYears| :: 2 * i + 1 < |vals|;
    db.(classes := InsertManyAuto(db.classes, vals))
  }

  /** `SELECT id, name FROM Class ORDER BY id ASC`. */
  function ClassRefs(classes: Table<ClassKey, ()>): (refs: seq<Students.ClassRef>)
    ensures |refs| == |classes|
    ensures forall c | 0 <= c < |classes| :: refs[c] == Students.ClassRef(classes[c].id, classes[c].key.name)
    ensures forall c | 0 <= c < |refs| :: HasId(classes, refs[c].id)
    ensures IdsIncreasing(classes) ==> forall a, b | 0 <= a < b < |refs| :: refs[a].id < refs[b].id
  {
    seq(|classes|, c requires 0 <= c < |classes| => Students.ClassRef(classes[c].id, classes[c].key.name))
  }

  /** The student batch as `(student_code, (name, class_id))` entries. */
  function StudentEntries(rows: seq<Students.StudentRow>): (vals: seq<(string, StudentInfo)>)
    ensures |vals| == |rows|
    ensures forall j | 0 <= j < |rows| :: vals[j] == (rows[j].code, StudentInfo(rows[j].name, rows[j].classId))
  {
    seq(|rows|, j requires 0 <= j < |rows| => (rows[j].code, StudentInfo(rows[j].name, rows[j].classId)))
  }

  /** The uncaught exception of the student seeder. */
  datatype SeedError = DivisionByZero

  /** `insert_student_data`, given the shuffled generated names. With no class
      the `//` raises; otherwise the batch is inserted with INSERT OR IGNORE
      keyed on the student code and nothing but the student table changes. */
  function InsertStudentData(db: Db, names: seq<string>): (r: Result<Db, SeedError>)
    requires Students.TotalStudents <= |names|
    ensures r.Err? <==> |db.classes| == 0
    ensures r.Ok? ==> r.value == db.(students := r.value.students)
    ensures r.Ok? ==> |db.students| <= |r.value.students| && r.value.students[..|db.students|] == db.students
    ensures r.Ok? ==> var rows := Students.Allocate(ClassRefs(db.classes), names);
      forall j | 0 <= j < |rows| :: HasKey(r.value.students, rows[j].code)
  {
    if |db.classes| == 0 then Err(DivisionByZero)
    else
      var rows := Students.Allocate(ClassRefs(db.classes), names);
      InsertManyAutoCovers(db.students, StudentEntries(rows));
      Ok(db.(students := InsertManyAuto(db.students, StudentEntries(rows))))
  }

  /** Every step of `create_database` before the students. The student table
      is untouched; afterwards every seeded aspect, sentiment, semester, course
      and academic year is present, and every academic year in the table has
      its `A` and `B` class. */
  function SeedReference(db: Db): (r: Db)
    ensures r.students == db.students
    ensures AspectsSeeded(r.aspects)
    ensures SentimentsSeeded(r.sentiments)
    ensures SemestersSeeded(r.semesters)
    ensures CoursesSeeded(r.courses)
    ensures YearsSeeded(r.academicYears)
    ensures ClassesSeeded(r.classes, r.academicYears)
  {
    var db1 := InsertAspectData(db);
    var db2 := InsertSentimentData(db1);
    var db3 := InsertSemesterData(db2);
    var db4 := InsertCourseData(db3);
    var db5 := InsertAcademicYearData(db4);
    InsertClassData(db5)
  }

  /** The seeding steps leave at least one class behind, whatever was there
      before: the academic-year step always leaves a year, and every year gets
      two classes. */
  lemma SeedReferenceHasClasses(db: Db)
    ensures |SeedReference(db).classes| >= 1
  {
    var r := SeedReference(db);
    assert HasKey(r.academicYears, AcademicYearEntry(StartYears[0]).0);
    assert HasKey(r.classes, ClassKey(ClassName(r.academicYears[0].payload.startYear, 'A'), r.academicYears[0].id));
  }

  /** `create_database` on a file whose tables exist (or have just been
      created): the seven seeders in order. The student step never fails here,
      because the class step always leaves a class. */
  function CreateDatabase(db: Db, names: seq<string>): (r: Result<Db, SeedError>)
    requires Students.TotalStudents <= |names|
    ensures r.Ok?
  {
    SeedReferenceHasClasses(db);
    InsertStudentData(SeedReference(db), names)
  }
}
