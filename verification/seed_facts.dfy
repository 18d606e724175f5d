/** What seeding guarantees: a second run changes nothing, and a run on a fresh
    database fills every table with the documented number of rows. */
module SeedFacts {
  import opened Wrappers
  import opened Text
  import opened Tables
  import opened Schema
  import opened Seeding
  import Students

  lemma AspectsSettled(s: Db, t: Table<string, ()>)
    requires s.aspects == InsertManyOrIgnore(t, AspectRows)
    ensures InsertAspectData(s) == s
  {
    InsertManyIdempotent(t, AspectRows);
  }

  lemma SentimentsSettled(s: Db, t: Table<string, ()>)
    requires s.sentiments == InsertManyOrIgnore(t, SentimentRows)
    ensures InsertSentimentData(s) == s
  {
    InsertManyIdempotent(t, SentimentRows);
  }

  lemma SemestersSettled(s: Db, t: Table<string, SemesterDates>)
    requires s.semesters == InsertManyAuto(t, SemesterEntries(SemesterYears))
    ensures InsertSemesterData(s) == s
  {
    InsertManyAutoTwice(t, SemesterEntries(SemesterYears));
  }

  lemma CoursesSettled(s: Db, t: Table<string, string>)
    requires s.courses == InsertManyAuto(t, CourseEntries)
    ensures InsertCourseData(s) == s
  {
    InsertManyAutoTwice(t, CourseEntries);
  }

  lemma YearsSettled(s: Db, t: Table<string, YearSpan>)
    requires s.academicYears == InsertManyAuto(t, AcademicYearEntries(StartYears))
    ensures InsertAcademicYearData(s) == s
  {
    InsertManyAutoTwice(t, AcademicYearEntries(StartYears));
  }

  lemma ClassesSettled(s: Db, t: Table<ClassKey, ()>)
    requires s.classes == InsertManyAuto(t, ClassEntries(s.academicYears))
    ensures InsertClassData(s) == s
  {
    InsertManyAutoTwice(t, ClassEntries(s.academicYears));
  }

  /** A database every reference seeder leaves alone is left alone by all of them. */
  lemma SeedReferenceFixed(s: Db)
    requires InsertAspectData(s) == s && InsertSentimentData(s) == s && InsertSemesterData(s) == s
    requires InsertCourseData(s) == s && InsertAcademicYearData(s) == s && InsertClassData(s) == s
    ensures SeedReference(s) == s
  {
  }

  lemma SeededAspectsSettled(db: Db)
    ensures InsertAspectData(SeedReference(db)) == SeedReference(db)
  {
    AspectsSettled(SeedReference(db), db.aspects);
  }

  lemma SeededSentimentsSettled(db: Db)
    ensures InsertSentimentData(SeedReference(db)) == SeedReference(db)
  {
    SentimentsSettled(SeedReference(db), InsertAspectData(db).sentiments);
  }

  lemma SeededSemestersSettled(db: Db)
    ensures InsertSemesterData(SeedReference(db)) == SeedReference(db)
  {
    var d2 := InsertSentimentData(InsertAspectData(db));
    SemestersSettled(SeedReference(db), d2.semesters);
  }

  lemma SeededCoursesSettled(db: Db)
    ensures InsertCourseData(SeedReference(db)) == SeedReference(db)
  {
    var d3 := InsertSemesterData(InsertSentimentData(InsertAspectData(db)));
    CoursesSettled(SeedReference(db), d3.courses);
  }

  lemma SeededYearsSettled(db: Db)
    ensures InsertAcademicYearData(SeedReference(db)) == SeedReference(db)
  {
    var d4 := InsertCourseData(InsertSemesterData(InsertSentimentData(InsertAspectData(db))));
    YearsSettled(SeedReference(db), d4.academicYears);
  }

  lemma SeededClassesSettled(db: Db)
    ensures InsertClassData(SeedReference(db)) == SeedReference(db)
  {
    var d5 := InsertAcademicYearData(InsertCourseData(InsertSemesterData(InsertSentimentData(InsertAspectData(db)))));
    ClassesSettled(SeedReference(db), d5.classes);
  }

  /** Each reference seeder is a no-op on its own output. */
  lemma SeedReferenceIdempotent(db: Db)
    ensures SeedReference(SeedReference(db)) == SeedReference(db)
  {
    SeededAspectsSettled(db);
    SeededSentimentsSettled(db);
    SeededSemestersSettled(db);
    SeededCoursesSettled(db);
    SeededYearsSettled(db);
    SeededClassesSettled(db);
    SeedReferenceFixed(SeedReference(db));
  }

  /** The reference seeders never look at or touch the students. */
  lemma SeedReferenceIgnoresStudents(db: Db, students: Table<string, StudentInfo>)
    ensures SeedReference(db.(students := students)) == SeedReference(db).(students := students)
  {
  }

  /** What `create_database` leaves: the reference tables as seeded, and the
      student batch drawn from `names` added to the students. */
  lemma CreateDatabaseResult(db: Db, names: seq<string>)
    requires Students.TotalStudents <= |names|
    ensures var s := SeedReference(db);
      CreateDatabase(db, names).value
        == s.(students := InsertManyAuto(s.students, StudentEntries(Students.Allocate(ClassRefs(s.classes), names))))
  {
    SeedReferenceHasClasses(db);
  }

  /** After `create_database` the reference seeders have nothing left to do,
      and the reference tables are what seeding alone leaves. */
  lemma CreatedIsSeeded(db: Db, names: seq<string>)
    requires Students.TotalStudents <= |names|
    ensures var d := CreateDatabase(db, names).value;
      SeedReference(d) == d && d == SeedReference(db).(students := d.students)
  {
    var d := CreateDatabase(db, names).value;
    CreateDatabaseResult(db, names);
    SeedReferenceIdempotent(db);
    SeedReferenceIgnoresStudents(SeedReference(db), d.students);
  }

  /** Running `create_database` a second time, with any other draw of names,
      leaves every table as the first run left it. */
  lemma CreateDatabaseIdempotent(db: Db, n1: seq<string>, n2: seq<string>)
    requires Students.TotalStudents <= |n1| && Students.TotalStudents <= |n2|
    ensures CreateDatabase(CreateDatabase(db, n1).value, n2) == CreateDatabase(db, n1)
  {
    var s := SeedReference(db);
    SeedReferenceHasClasses(db);
    var refs := ClassRefs(s.classes);
    var vals1 := StudentEntries(Students.Allocate(refs, n1));
    var vals2 := StudentEntries(Students.Allocate(refs, n2));
    var d := CreateDatabase(db, n1).value;
    CreateDatabaseResult(db, n1);
    CreatedIsSeeded(db, n1);
    CreateDatabaseResult(d, n2);
    StudentKeysAgree(refs, n1, n2);
    ReinsertStudents(d, s, vals1, vals2);
  }

  /** A student batch whose codes were all inserted before adds nothing. */
  lemma ReinsertStudents(d: Db, s: Db, vals1: seq<(string, StudentInfo)>, vals2: seq<(string, StudentInfo)>)
    requires d == s.(students := InsertManyAuto(s.students, vals1))
    requires |vals2| <= |vals1| && forall i | 0 <= i < |vals2| :: vals1[i].0 == vals2[i].0
    ensures d.(students := InsertManyAuto(d.students, vals2)) == d
  {
    InsertManyAutoIdempotent(s.students, vals1, vals2);
  }

  /** Two draws of names give student batches with the same codes, position
      by position. */
  lemma StudentKeysAgree(refs: seq<Students.ClassRef>, n1: seq<string>, n2: seq<string>)
    requires 1 <= |refs| && Students.TotalStudents <= |n1| && Students.TotalStudents <= |n2|
    ensures var vals1 := StudentEntries(Students.Allocate(refs, n1));
      var vals2 := StudentEntries(Students.Allocate(refs, n2));
      |vals2| <= |vals1| && forall i | 0 <= i < |vals2| :: vals1[i].0 == vals2[i].0
  {
    var vals1 := StudentEntries(Students.Allocate(refs, n1));
    var vals2 := StudentEntries(Students.Allocate(refs, n2));
    Students.AllocateCodesAgree(refs, n1, n2);
    assert |vals1| == |vals2|;
    forall i | 0 <= i < |vals2|
      ensures vals1[i].0 == vals2[i].0
    {
      assert Students.Codes(Students.Allocate(refs, n1))[i] == Students.Codes(Students.Allocate(refs, n2))[i];
    }
  }

  // ---- a fresh database ----

  lemma AspectsFresh(t: Table<string, ()>)
    requires |t| == 0
    ensures InsertManyOrIgnore(t, AspectRows) == AspectRows
  {
    assert DistinctRows(AspectRows);
    InsertManyFresh(t, AspectRows);
    assert t + AspectRows == AspectRows;
  }

  lemma SentimentsFresh(t: Table<string, ()>)
    requires |t| == 0
    ensures InsertManyOrIgnore(t, SentimentRows) == SentimentRows
  {
    assert DistinctRows(SentimentRows);
    InsertManyFresh(t, SentimentRows);
    assert t + SentimentRows == SentimentRows;
  }

  lemma CourseCodesDistinct()
    ensures DistinctKeys(CourseEntries)
  {
  }

  /** Position `j` of the semester rows is the first or second half of year `j / 2`. */
  lemma SemesterEntryAt(years: seq<int>, j: nat)
    requires j < 2 * |years|
    ensures SemesterEntries(years)[j].0 == IntToString(years[j / 2]) + (if j % 2 == 0 then "HK1" else "HK2")
  {
    var i := j / 2;
    assert j == 2 * i || j == 2 * i + 1;
  }

  /** `f"{y}{suffix}"` for four-digit years and suffixes of one length
      determines both the year and the suffix. */
  lemma YearPrefixInjective(y1: int, h1: string, y2: int, h2: string)
    requires 1000 <= y1 < 10000 && 1000 <= y2 < 10000 && |h1| == |h2|
    ensures IntToString(y1) + h1 == IntToString(y2) + h2 ==> y1 == y2 && h1 == h2
  {
    FourDigits(y1);
    FourDigits(y2);
    if IntToString(y1) + h1 == IntToString(y2) + h2 {
      SplitSameLength(Decimal(y1), h1, Decimal(y2), h2);
      DecimalInjective(y1, y2);
    }
  }

  lemma SemesterPairDistinct(a: nat, b: nat)
    requires a < b < 2 * |SemesterYears|
    ensures SemesterEntries(SemesterYears)[a].0 != SemesterEntries(SemesterYears)[b].0
  {
    var years := SemesterYears;
    SemesterEntryAt(years, a);
    SemesterEntryAt(years, b);
    var ha := if a % 2 == 0 then "HK1" else "HK2";
    var hb := if b % 2 == 0 then "HK1" else "HK2";
    assert ha == hb ==> a % 2 == b % 2;
    YearPrefixInjective(years[a / 2], ha, years[b / 2], hb);
  }

  lemma SemesterNamesDistinct()
    ensures DistinctKeys(SemesterEntries(SemesterYears))
  {
    forall a, b | 0 <= a < b < |SemesterEntries(SemesterYears)|
      ensures SemesterEntries(SemesterYears)[a].0 != SemesterEntries(SemesterYears)[b].0
    {
      SemesterPairDistinct(a, b);
    }
  }

  lemma YearPairDistinct(a: nat, b: nat)
    requires a < b < |StartYears|
    ensures AcademicYearEntries(StartYears)[a].0 != AcademicYearEntries(StartYears)[b].0
  {
    var starts := StartYears;
    assert starts[a] == 2020 + a && starts[b] == 2020 + b;
    YearNameInjective(starts[a], starts[b]);
  }

  lemma YearNamesDistinct()
    ensures DistinctKeys(AcademicYearEntries(StartYears))
  {
    forall a, b | 0 <= a < b < |AcademicYearEntries(StartYears)|
      ensures AcademicYearEntries(StartYears)[a].0 != AcademicYearEntries(StartYears)[b].0
    {
      YearPairDistinct(a, b);
    }
  }

  /** The academic-year table a fresh database ends up with. */
  function FreshYears(): Table<string, YearSpan> {
    AutoRows(1, AcademicYearEntries(StartYears))
  }

  lemma FreshYearAt(i: nat)
    requires i < 5
    ensures |FreshYears()| == 5
    ensures FreshYears()[i] == Row(1 + i, AcademicYearEntry(2020 + i).0, YearSpan(2020 + i, 2021 + i))
  {
    AutoRowsAt(1, AcademicYearEntries(StartYears), i);
  }

  lemma ClassEntryAt(years: Table<string, YearSpan>, j: nat)
    requires j < 2 * |years|
    ensures ClassEntries(years)[j].0
      == ClassKey(ClassName(years[j / 2].payload.startYear, if j % 2 == 0 then 'A' else 'B'), years[j / 2].id)
  {
    var i := j / 2;
    assert j == 2 * i || j == 2 * i + 1;
  }

  lemma ClassKeyPairDistinct(a: nat, b: nat)
    requires a < b < 2 * |FreshYears()|
    ensures ClassEntries(FreshYears())[a].0 != ClassEntries(FreshYears())[b].0
  {
    var years := FreshYears();
    ClassEntryAt(years, a);
    ClassEntryAt(years, b);
    FreshYearAt(a / 2);
    FreshYearAt(b / 2);
    if a / 2 == b / 2 {
      var ka := ClassEntries(years)[a].0.name;
      var kb := ClassEntries(years)[b].0.name;
      assert ka[|ka| - 1] != kb[|kb| - 1];
    }
  }

  lemma ClassKeysDistinct()
    ensures DistinctKeys(ClassEntries(FreshYears()))
  {
    var vals := ClassEntries(FreshYears());
    forall a, b | 0 <= a < b < |vals|
      ensures vals[a].0 != vals[b].0
    {
      ClassKeyPairDistinct(a, b);
    }
  }

  /** The class table a fresh database ends up with. */
  function FreshClasses(): Table<ClassKey, ()> {
    AutoRows(1, ClassEntries(FreshYears()))
  }

  /** Class `c` of a fresh database is `K{44 + c / 2}` followed by `A` or `B`. */
  lemma FreshClassAt(c: nat)
    requires c < 10
    ensures |FreshClasses()| == 10
    ensures FreshClasses()[c].key.name == FreshClassName(c)
  {
    FreshYearAt(c / 2);
    ClassRowAt(FreshYears(), c);
  }

  /** Row `c` of the class table built over `years`. */
  lemma ClassRowAt(years: Table<string, YearSpan>, c: nat)
    requires c < 2 * |years|
    ensures var rows := AutoRows(1, ClassEntries(years));
      |rows| == 2 * |years| &&
      rows[c].key.name == ClassName(years[c / 2].payload.startYear, if c % 2 == 0 then 'A' else 'B')
  {
    AutoRowsAt(1, ClassEntries(years), c);
    ClassEntryAt(years, c);
  }

  /** `K{k}{letter}` for two-digit `k` determines `k` and the letter. */
  lemma ClassNameInjective(k1: nat, l1: char, k2: nat, l2: char)
    requires 10 <= k1 < 100 && 10 <= k2 < 100
    ensures "K" + Decimal(k1) + [l1] == "K" + Decimal(k2) + [l2] ==> k1 == k2 && l1 == l2
  {
    TwoDigits(k1);
    TwoDigits(k2);
    if "K" + Decimal(k1) + [l1] == "K" + Decimal(k2) + [l2] {
      SplitSameLength("K" + Decimal(k1), [l1], "K" + Decimal(k2), [l2]);
      SplitSameLength("K", Decimal(k1), "K", Decimal(k2));
      DecimalInjective(k1, k2);
    }
  }

  /** The name class `c` gets on a fresh database. */
  function FreshClassName(c: nat): string {
    "K" + Decimal(44 + c / 2) + [if c % 2 == 0 then 'A' else 'B']
  }

  lemma FreshClassNamesDiffer(a: nat, b: nat)
    requires a < b < 10
    ensures FreshClassName(a) != FreshClassName(b)
  {
    var la := if a % 2 == 0 then 'A' else 'B';
    var lb := if b % 2 == 0 then 'A' else 'B';
    assert la == lb ==> a % 2 == b % 2;
    ClassNameInjective(44 + a / 2, la, 44 + b / 2, lb);
  }

  /** Any class table named like a fresh one has distinct class names, which is
      what the student codes need. */
  lemma NamesDistinctWhenFresh(t: Table<ClassKey, ()>)
    requires |t| == 10 && forall c | 0 <= c < 10 :: t[c].key.name == FreshClassName(c)
    ensures Students.DistinctClassNames(ClassRefs(t))
  {
    var refs := ClassRefs(t);
    forall a, b | 0 <= a < b < |refs|
      ensures refs[a].name != refs[b].name
    {
      FreshClassNamesDiffer(a, b);
    }
  }

  lemma FreshClassNamesDistinct()
    ensures Students.DistinctClassNames(ClassRefs(FreshClasses()))
  {
    FreshClassAt(0);
    forall c | 0 <= c < 10
      ensures FreshClasses()[c].key.name == FreshClassName(c)
    {
      FreshClassAt(c);
    }
    NamesDistinctWhenFresh(FreshClasses());
  }

  lemma StudentCodesDistinct(names: seq<string>)
    requires Students.TotalStudents <= |names|
    ensures |FreshClasses()| == 10
    ensures DistinctKeys(StudentEntries(Students.Allocate(ClassRefs(FreshClasses()), names)))
  {
    FreshClassAt(0);
    var refs := ClassRefs(FreshClasses());
    FreshClassNamesDistinct();
    Students.AllocateDistinctCodes(refs, names);
  }

  /** The semester table a fresh database ends up with. */
  function FreshSemesters(): Table<string, SemesterDates> {
    AutoRows(1, SemesterEntries(SemesterYears))
  }

  /** The course table a fresh database ends up with. */
  function FreshCourses(): Table<string, string> {
    AutoRows(1, CourseEntries)
  }

  /** The student table a fresh database ends up with, for a given draw of names. */
  function FreshStudents(names: seq<string>): Table<string, StudentInfo>
    requires Students.TotalStudents <= |names|
  {
    AutoRows(1, StudentEntries(Students.Allocate(ClassRefs(FreshClasses()), names)))
  }

  lemma SemestersFresh(t: Table<string, SemesterDates>)
    requires |t| == 0
    ensures InsertManyAuto(t, SemesterEntries(SemesterYears)) == FreshSemesters()
  {
    SemesterNamesDistinct();
    FromEmpty(t, SemesterEntries(SemesterYears));
  }

  lemma CoursesFresh(t: Table<string, string>)
    requires |t| == 0
    ensures InsertManyAuto(t, CourseEntries) == FreshCourses()
  {
    CourseCodesDistinct();
    FromEmpty(t, CourseEntries);
  }

  lemma YearsFresh(t: Table<string, YearSpan>)
    requires |t| == 0
    ensures InsertManyAuto(t, AcademicYearEntries(StartYears)) == FreshYears()
  {
    YearNamesDistinct();
    FromEmpty(t, AcademicYearEntries(StartYears));
  }

  lemma ClassesFresh(t: Table<ClassKey, ()>)
    requires |t| == 0
    ensures InsertManyAuto(t, ClassEntries(FreshYears())) == FreshClasses()
  {
    ClassKeysDistinct();
    FromEmpty(t, ClassEntries(FreshYears()));
  }

  lemma StudentsFresh(t: Table<string, StudentInfo>, names: seq<string>)
    requires |t| == 0 && Students.TotalStudents <= |names|
    ensures InsertManyAuto(t, StudentEntries(Students.Allocate(ClassRefs(FreshClasses()), names))) == FreshStudents(names)
    ensures |FreshStudents(names)| == 200
  {
    StudentCodesDistinct(names);
    FromEmpty(t, StudentEntries(Students.Allocate(ClassRefs(FreshClasses()), names)));
  }

  lemma FreshSizes()
    ensures |FreshSemesters()| == 12
    ensures |FreshCourses()| == 6
    ensures |FreshYears()| == 5 && |FreshClasses()| == 10
  {
    FreshClassAt(0);
  }

  /** The reference seeders on an empty database. */
  lemma SeedReferenceFresh(db: Db)
    requires IsEmpty(db)
    ensures var s := SeedReference(db);
      s.aspects == AspectRows && s.sentiments == SentimentRows &&
      s.semesters == FreshSemesters() && s.courses == FreshCourses() &&
      s.academicYears == FreshYears() && s.classes == FreshClasses() &&
      s.students == db.students && s.sentences == db.sentences
  {
    AspectsFresh(db.aspects);
    SentimentsFresh(db.sentiments);
    SemestersFresh(db.semesters);
    CoursesFresh(db.courses);
    YearsFresh(db.academicYears);
    ClassesFresh(db.classes);
  }

  /** On an empty database the student step adds exactly the fresh student rows. */
  lemma CreateDatabaseFreshDb(db: Db, names: seq<string>)
    requires IsEmpty(db) && Students.TotalStudents <= |names|
    ensures CreateDatabase(db, names).value == SeedReference(db).(students := FreshStudents(names))
  {
    var s := SeedReference(db);
    SeedReferenceFresh(db);
    SeedReferenceHasClasses(db);
    StudentsFresh(s.students, names);
  }

  /** `create_database` on a fresh file: every seed row is stored, in order,
      with ids 1, 2, ... (Aspect and Sentiment keep their explicit ids), which
      gives 8 aspects, 3 sentiments, 12 semesters, 6 courses, 5 academic years,
      10 classes and 200 students, and no sentence. */
  lemma CreateDatabaseFresh(db: Db, names: seq<string>)
    requires IsEmpty(db) && Students.TotalStudents <= |names|
    ensures var d := CreateDatabase(db, names).value;
      d.aspects == AspectRows && |d.aspects| == 8 &&
      d.sentiments == SentimentRows && |d.sentiments| == 3 &&
      d.semesters == FreshSemesters() && |d.semesters| == 12 &&
      d.courses == FreshCourses() && |d.courses| == 6 &&
      d.academicYears == FreshYears() && |d.academicYears| == 5 &&
      d.classes == FreshClasses() && |d.classes| == 10 &&
      d.students == FreshStudents(names) && |d.students| == 200 &&
      |d.sentences| == 0
  {
    CreateDatabaseFreshDb(db, names);
    SeedReferenceFresh(db);
    StudentsFresh(db.students, names);
    FreshSizes();
  }
}
