/** The eight tables of the sentiment database, each as a keyed table whose key
    is the column the schema declares UNIQUE. */
module Schema {
  import opened Wrappers
  import opened Tables

  /** `Semester(start_date, end_date)`, ISO dates as text. */
  datatype SemesterDates = SemesterDates(startDate: string, endDate: string)

  /** `AcademicYear(start_year, end_year)`. */
  datatype YearSpan = YearSpan(startYear: int, endYear: int)

  /** `Class` is unique on the pair `(name, academic_year_id)`. */
  datatype ClassKey = ClassKey(name: string, academicYearId: int)

  /** The class table through its `name` column alone, as `get_lists` and
      `get_id` query it: the same rows and ids, keyed by the name. */
  function ClassesByName(t: Table<ClassKey, ()>): (byName: Table<string, ()>)
    ensures |byName| == |t|
    ensures forall i | 0 <= i < |t| :: byName[i] == Row(t[i].id, t[i].key.name, ())
  {
    seq(|t|, i requires 0 <= i < |t| => Row(t[i].id, t[i].key.name, ()))
  }

  /** `Student(name, class_id)`; the key is `student_code`. */
  datatype StudentInfo = StudentInfo(name: string, classId: int)

  /** A `Sentence` row: a text id, the text, and seven nullable foreign keys. */
  datatype Sentence = Sentence(
    id: string,
    text: string,
    aspectId: Option<int>,
    sentimentId: Option<int>,
    semesterId: Option<int>,
    courseId: Option<int>,
    academicYearId: Option<int>,
    classId: Option<int>,
    studentId: Option<int>)

  /** The database. `Aspect` and `Sentiment` take explicit ids; the other keyed
      tables number their rows with AUTOINCREMENT. `Course` maps its code to its
      name. */
  datatype Db = Db(
    aspects: Table<string, ()>,
    sentiments: Table<string, ()>,
    semesters: Table<string, SemesterDates>,
    courses: Table<string, string>,
    academicYears: Table<string, YearSpan>,
    classes: Table<ClassKey, ()>,
    students: Table<string, StudentInfo>,
    sentences: seq<Sentence>)

  /** A database file in which `CREATE TABLE IF NOT EXISTS` has just created
      every table. */
  const EmptyDb: Db := Db([], [], [], [], [], [], [], [])

  /** Every table of `db` is empty, as in `EmptyDb`. */
  predicate IsEmpty(db: Db) {
    |db.aspects| == 0 && |db.sentiments| == 0 && |db.semesters| == 0 && |db.courses| == 0 &&
    |db.academicYears| == 0 && |db.classes| == 0 && |db.students| == 0 && |db.sentences| == 0
  }
}
