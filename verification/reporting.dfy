/** The statistics page: the denormalised sentence view, the sidebar filter,
    the two value counts, the cross analysis and the trend. */
module Reporting {
  import opened Wrappers
  import opened Tables
  import opened Schema
  import opened Seqs
  import opened Counting
  import SentenceStore

  /** One row of the `LEFT JOIN` query; a label is missing when its foreign key
      is NULL or points at no row. */
  datatype ViewRow = ViewRow(
    text: string,
    aspect: Option<string>,
    sentiment: Option<string>,
    semester: Option<string>,
    course: Option<string>,
    cls: Option<string>)

  /** `Cou.code||' – '||Cou.name`: the label starts with the code and ends with
      the name, with the three characters ` – ` between them. */
  function CourseLabel(code: string, name: string): (l: string)
    ensures |l| == |code| + 3 + |name|
    ensures l[..|code|] == code && l[|code|..|code| + 3] == " – " && l[|code| + 3..] == name
  {
    code + " – " + name
  }

  /** The UNIQUE name of the row a foreign key joins with. */
  function NameOf<P>(t: Table<string, P>, fk: Option<int>): (r: Option<string>)
    ensures r.None? <==> fk.None? || !HasId(t, fk.value)
    ensures r.Some? ==> exists i | 0 <= i < |t| :: t[i].id == fk.value && t[i].key == r.value
  {
    match RowById(t, fk)
    case None => None
    case Some(row) => Some(row.key)
  }

  function CourseOf(t: Table<string, string>, fk: Option<int>): (r: Option<string>)
    ensures r.None? <==> fk.None? || !HasId(t, fk.value)
    ensures r.Some? ==> exists i | 0 <= i < |t| :: t[i].id == fk.value && r.value == CourseLabel(t[i].key, t[i].payload)
  {
    match RowById(t, fk)
    case None => None
    case Some(row) => Some(CourseLabel(row.key, row.payload))
  }

  function ClassOf(t: Table<ClassKey, ()>, fk: Option<int>): (r: Option<string>)
    ensures r.None? <==> fk.None? || !HasId(t, fk.value)
    ensures r.Some? ==> exists i | 0 <= i < |t| :: t[i].id == fk.value && t[i].key.name == r.value
  {
    match RowById(t, fk)
    case None => None
    case Some(row) => Some(row.key.name)
  }

  /** The view row of one sentence: its text, and each label missing exactly
      when its foreign key is NULL or dangles. */
  function ViewOf(db: Db, s: Sentence): (r: ViewRow)
    ensures r.text == s.text
    ensures r.aspect.None? <==> s.aspectId.None? || !HasId(db.aspects, s.aspectId.value)
    ensures r.sentiment.None? <==> s.sentimentId.None? || !HasId(db.sentiments, s.sentimentId.value)
    ensures r.semester.None? <==> s.semesterId.None? || !HasId(db.semesters, s.semesterId.value)
    ensures r.course.None? <==> s.courseId.None? || !HasId(db.courses, s.courseId.value)
    ensures r.cls.None? <==> s.classId.None? || !HasId(db.classes, s.classId.value)
  {
    ViewRow(
      s.text,
      NameOf(db.aspects, s.aspectId),
      NameOf(db.sentiments, s.sentimentId),
      NameOf(db.semesters, s.semesterId),
      CourseOf(db.courses, s.courseId),
      ClassOf(db.classes, s.classId))
  }

  /** `df_full`: one row per sentence, taken in rowid order. Ids are primary
      keys, so each join matches at most one row. */
  function View(db: Db): (v: seq<ViewRow>)
    ensures |v| == |db.sentences|
    ensures forall i | 0 <= i < |v| :: v[i] == ViewOf(db, db.sentences[i])
  {
    seq(|db.sentences|, i requires 0 <= i < |db.sentences| => ViewOf(db, db.sentences[i]))
  }

  /** The view row of a freshly resolved sentence: each label shows exactly
      when it was found at insertion. */
  lemma ViewOfResolved(db: Db, id: string, text: string, l: SentenceStore.Labels)
    requires WellFormed(db.aspects) && WellFormed(db.sentiments) && WellFormed(db.semesters)
    requires WellFormed(db.courses) && WellFormed(db.academicYears) && WellFormed(db.students)
    requires UniqueIds(db.classes)
    ensures var r := ViewOf(db, SentenceStore.Resolve(db, id, text, l));
      r.text == text &&
      (r.aspect == if HasKey(db.aspects, l.aspect) then Some(l.aspect) else None) &&
      (r.sentiment == if HasKey(db.sentiments, l.sentiment) then Some(l.sentiment) else None) &&
      (r.semester == if HasKey(db.semesters, l.semester) then Some(l.semester) else None) &&
      (r.course.Some? <==> HasKey(db.courses, l.courseCode)) &&
      (r.course.Some? ==> exists i | 0 <= i < |db.courses| ::
        db.courses[i].key == l.courseCode && r.course.value == CourseLabel(l.courseCode, db.courses[i].payload)) &&
      (r.cls.Some? <==> exists i | 0 <= i < |db.classes| :: db.classes[i].key.name == l.className) &&
      (r.cls.Some? ==> r.cls.value == l.className)
  {
    SentenceStore.ResolveJoinsBack(db, id, text, l);
    SentenceStore.ResolveClassJoinsBack(db, id, text, l);
    ResolvedCourse(db, SentenceStore.Resolve(db, id, text, l), l.courseCode);
  }

  /** A course key resolved from `code` shows as `code – name` of that course. */
  lemma ResolvedCourse(db: Db, s: Sentence, code: string)
    requires s.courseId.Some? ==> RowById(db.courses, s.courseId).Some? && RowById(db.courses, s.courseId).value.key == code
    ensures var c := CourseOf(db.courses, s.courseId);
      c.Some? ==> exists i | 0 <= i < |db.courses| :: db.courses[i].key == code && c.value == CourseLabel(code, db.courses[i].payload)
  {
    if s.courseId.Some? {
      var row := RowById(db.courses, s.courseId).value;
      var i :| 0 <= i < |db.courses| && db.courses[i] == row;
      assert db.courses[i].key == code;
    }
  }

  /** Filing a sentence with `insert_sentence` under a new id adds its row at
      the end of the view and leaves the other rows as they were. */
  lemma InsertThenView(db: Db, id: string, text: string, l: SentenceStore.Labels)
    requires !SentenceStore.IdTaken(db.sentences, id)
    ensures View(SentenceStore.InsertSentence(db, id, text, l)) == View(db) + [ViewOf(db, SentenceStore.Resolve(db, id, text, l))]
  {
    var d := SentenceStore.InsertSentence(db, id, text, l);
    var x := ViewOf(db, SentenceStore.Resolve(db, id, text, l));
    var v := View(d);
    var w := View(db) + [x];
    assert d == db.(sentences := db.sentences + [SentenceStore.Resolve(db, id, text, l)]);
    assert |v| == |w|;
    forall i | 0 <= i < |v|
      ensures v[i] == w[i]
    {
      if i < |db.sentences| {
        assert d.sentences[i] == db.sentences[i];
        assert v[i] == ViewOf(db, db.sentences[i]);
      }
    }
  }

  // ---- sidebar options and the general filter ----

  /** The placeholder the cross and trend selectors put first. */
  const AllLabel: string := "Tất cả"

  /** `xs[:8]`. */
  function Cap8<T>(xs: seq<T>): (r: seq<T>)
    ensures |r| == if |xs| < 8 then |xs| else 8
    ensures r == xs[..|r|]
  {
    if |xs| < 8 then xs else xs[..8]
  }

  function CourseLabels(t: Table<string, string>): (ls: seq<string>)
    ensures |ls| == |t|
    ensures forall i | 0 <= i < |t| :: ls[i] == CourseLabel(t[i].key, t[i].payload)
  {
    seq(|t|, i requires 0 <= i < |t| => CourseLabel(t[i].key, t[i].payload))
  }

  /** Five lists of labels, one per filtered column: what the sidebar offers, and
      what the user keeps selected. */
  datatype Choices = Choices(
    aspects: seq<string>,
    sentiments: seq<string>,
    semesters: seq<string>,
    courses: seq<string>,
    classes: seq<string>)

  /** The sidebar options, which are also the default selection. Semesters and
      classes are cut to the first eight. */
  function Options(db: Db): (o: Choices)
    ensures |o.aspects| == |db.aspects| && forall x :: x in o.aspects <==> HasKey(db.aspects, x)
    ensures |o.sentiments| == |db.sentiments| && forall x :: x in o.sentiments <==> HasKey(db.sentiments, x)
    ensures |o.courses| == |db.courses| &&
      forall x :: x in o.courses <==> exists i | 0 <= i < |db.courses| :: x == CourseLabel(db.courses[i].key, db.courses[i].payload)
    ensures |o.semesters| == (if |db.semesters| < 8 then |db.semesters| else 8) &&
      forall i | 0 <= i < |o.semesters| :: o.semesters[i] == db.semesters[i].key
    ensures |o.classes| == (if |db.classes| < 8 then |db.classes| else 8) &&
      forall i | 0 <= i < |o.classes| :: o.classes[i] == db.classes[i].key.name
  {
    var o := Choices(
      KeyColumn(db.aspects),
      KeyColumn(db.sentiments),
      Cap8(KeyColumn(db.semesters)),
      CourseLabels(db.courses),
      Cap8(KeyColumn(ClassesByName(db.classes))));
    KeyColumnMembers(db.aspects);
    KeyColumnMembers(db.sentiments);
    CourseLabelMembers(db.courses);
    o
  }

  /** A value is in the name column iff some row holds it. */
  lemma KeyColumnMembers(t: Table<string, ()>)
    ensures forall x :: x in KeyColumn(t) <==> HasKey(t, x)
  {
    forall x
      ensures x in KeyColumn(t) <==> HasKey(t, x)
    {
      if HasKey(t, x) {
        var i :| 0 <= i < |t| && t[i].key == x;
        assert KeyColumn(t)[i] == x;
      }
    }
  }

  /** A label is offered iff some course carries it. */
  lemma CourseLabelMembers(t: Table<string, string>)
    ensures forall x :: x in CourseLabels(t) <==> exists i | 0 <= i < |t| :: x == CourseLabel(t[i].key, t[i].payload)
  {
    forall x
      ensures x in CourseLabels(t) <==> exists i | 0 <= i < |t| :: x == CourseLabel(t[i].key, t[i].payload)
    {
      if exists i | 0 <= i < |t| :: x == CourseLabel(t[i].key, t[i].payload) {
        var i :| 0 <= i < |t| && x == CourseLabel(t[i].key, t[i].payload);
        assert CourseLabels(t)[i] == x;
      }
    }
  }

  /** `series.isin(selected)`: a missing label is never selected. */
  predicate Selected(x: Option<string>, selected: seq<string>) {
    x.Some? && x.value in selected
  }

  predicate Keep(r: ViewRow, sel: Choices) {
    Selected(r.aspect, sel.aspects) && Selected(r.sentiment, sel.sentiments) &&
    Selected(r.semester, sel.semesters) && Selected(r.course, sel.courses) &&
    Selected(r.cls, sel.classes)
  }

  /** `df1`: the rows whose five labels are all selected. */
  function GeneralFilter(rows: seq<ViewRow>, sel: Choices): (r: seq<ViewRow>)
    ensures forall i | 0 <= i < |r| :: r[i] in rows && Keep(r[i], sel)
    ensures forall i | 0 <= i < |rows| && Keep(rows[i], sel) :: rows[i] in r
  {
    Filter(x => Keep(x, sel), rows)
  }

  /** The kept rows stay in view order. */
  lemma GeneralFilterOrdered(rows: seq<ViewRow>, sel: Choices)
    ensures IsSubsequence(GeneralFilter(rows, sel), rows)
    ensures forall a, b :: GeneralFilter(a + b, sel) == GeneralFilter(a, sel) + GeneralFilter(b, sel)
  {
    FilterIsSubsequence(x => Keep(x, sel), rows);
    forall a, b
      ensures GeneralFilter(a + b, sel) == GeneralFilter(a, sel) + GeneralFilter(b, sel)
    {
      FilterConcat(x => Keep(x, sel), a, b);
    }
  }

  /** No kept row has a missing label. */
  lemma GeneralFilterDropsMissing(rows: seq<ViewRow>, sel: Choices, i: nat)
    requires i < |GeneralFilter(rows, sel)|
    ensures var r := GeneralFilter(rows, sel)[i];
      r.aspect.Some? && r.sentiment.Some? && r.semester.Some? && r.course.Some? && r.cls.Some?
  {
  }

  /** Deselecting every value of any one column empties the result. */
  lemma GeneralFilterEmptySelection(rows: seq<ViewRow>, sel: Choices)
    requires |sel.aspects| == 0 || |sel.sentiments| == 0 || |sel.semesters| == 0 ||
             |sel.courses| == 0 || |sel.classes| == 0
    ensures |GeneralFilter(rows, sel)| == 0
  {
    var r := GeneralFilter(rows, sel);
    assert |r| > 0 ==> Keep(r[0], sel);
  }

  /** `x` is one of the first eight of `keys`. */
  predicate AmongFirstEight(x: Option<string>, keys: seq<string>) {
    exists k | 0 <= k < |keys| && k < 8 :: x == Some(keys[k])
  }

  /** Being selected from the first eight keys is being among the first eight. */
  lemma SelectedFromFirstEight(x: Option<string>, o: seq<string>, keys: seq<string>)
    requires |o| == (if |keys| < 8 then |keys| else 8)
    requires forall i | 0 <= i < |o| :: o[i] == keys[i]
    ensures Selected(x, o) <==> AmongFirstEight(x, keys)
  {
    if Selected(x, o) {
      var k :| 0 <= k < |o| && o[k] == x.value;
      assert x == Some(keys[k]);
    }
    if AmongFirstEight(x, keys) {
      var k :| 0 <= k < |keys| && k < 8 && x == Some(keys[k]);
      assert o[k] == x.value;
    }
  }

  /** With the default selection a sentence is shown exactly when all five of
      its labels resolve and its semester and class are among the first eight
      rows of their tables. */
  lemma DefaultSelection(db: Db, i: nat)
    requires i < |db.sentences|
    ensures var r := View(db)[i];
      Keep(r, Options(db)) <==>
        r.aspect.Some? && r.sentiment.Some? && r.course.Some? &&
        AmongFirstEight(r.semester, KeyColumn(db.semesters)) &&
        AmongFirstEight(r.cls, KeyColumn(ClassesByName(db.classes)))
  {
    var r := View(db)[i];
    var s := db.sentences[i];
    assert r == ViewOf(db, s);
    if r.aspect.Some? {
      var k :| 0 <= k < |db.aspects| && db.aspects[k].key == r.aspect.value;
    }
    if r.sentiment.Some? {
      var k :| 0 <= k < |db.sentiments| && db.sentiments[k].key == r.sentiment.value;
    }
    KeepOptions(db, r);
  }

  /** `DefaultSelection` for any row whose aspect, sentiment and course labels,
      when present, come from their tables. */
  lemma KeepOptions(db: Db, r: ViewRow)
    requires r.aspect.Some? ==> HasKey(db.aspects, r.aspect.value)
    requires r.sentiment.Some? ==> HasKey(db.sentiments, r.sentiment.value)
    requires r.course.Some? ==> exists k | 0 <= k < |db.courses| :: r.course.value == CourseLabel(db.courses[k].key, db.courses[k].payload)
    ensures Keep(r, Options(db)) <==>
      r.aspect.Some? && r.sentiment.Some? && r.course.Some? &&
      AmongFirstEight(r.semester, KeyColumn(db.semesters)) &&
      AmongFirstEight(r.cls, KeyColumn(ClassesByName(db.classes)))
  {
    var o := Options(db);
    SelectedFromFirstEight(r.semester, o.semesters, KeyColumn(db.semesters));
    SelectedFromFirstEight(r.cls, o.classes, KeyColumn(ClassesByName(db.classes)));
  }

  // ---- the two value counts ----

  datatype Dim = AspectDim | SentimentDim | SemesterDim | CourseDim | ClassDim

  function Label(r: ViewRow, d: Dim): Option<string> {
    match d
    case AspectDim => r.aspect
    case SentimentDim => r.sentiment
    case SemesterDim => r.semester
    case CourseDim => r.course
    case ClassDim => r.cls
  }

  /** `df[column]`. */
  function Column(rows: seq<ViewRow>, d: Dim): (c: seq<Option<string>>)
    ensures |c| == |rows|
    ensures forall i | 0 <= i < |rows| :: c[i] == Label(rows[i], d)
  {
    seq(|rows|, i requires 0 <= i < |rows| => Label(rows[i], d))
  }

  /** What the top of the page shows: the row count always, then either the
      warning alone when the filter kept no row, or the sentiment and aspect
      counts. */
  datatype Summary =
    | NoData(total: nat)
    | Summary(total: nat, sentimentCounts: seq<(string, nat)>, aspectCounts: seq<(string, nat)>)

  function Summarize(rows: seq<ViewRow>): (s: Summary)
    ensures s.total == |rows|
    ensures s.NoData? <==> |rows| == 0
  {
    if |rows| == 0 then NoData(|rows|)
    else Summary(|rows|, ValueCounts(Column(rows, SentimentDim)), ValueCounts(Column(rows, AspectDim)))
  }

  /** After the general filter, both counts add up to the number of rows shown,
      and each count is that of the rows holding the label. */
  lemma SummaryTotals(rows: seq<ViewRow>, sel: Choices)
    requires |GeneralFilter(rows, sel)| > 0
    ensures var s := Summarize(GeneralFilter(rows, sel));
      s.Summary? &&
      Sum(Seconds(s.sentimentCounts)) == s.total && Sum(Seconds(s.aspectCounts)) == s.total &&
      (forall i | 0 <= i < |s.sentimentCounts| ::
        s.sentimentCounts[i].1 == Count(Column(GeneralFilter(rows, sel), SentimentDim), Some(s.sentimentCounts[i].0))) &&
      (forall i | 0 <= i < |s.aspectCounts| ::
        s.aspectCounts[i].1 == Count(Column(GeneralFilter(rows, sel), AspectDim), Some(s.aspectCounts[i].0)))
  {
    var kept := GeneralFilter(rows, sel);
    var sc := Column(kept, SentimentDim);
    var ac := Column(kept, AspectDim);
    assert forall i | 0 <= i < |kept| :: Keep(kept[i], sel);
    PresentAll(sc);
    PresentAll(ac);
    ValueCountsTotal(sc);
    ValueCountsTotal(ac);
  }

  // ---- cross analysis ----

  /** A selector value: the placeholder, or one label to match exactly. */
  datatype Choice = All | Only(wanted: string)

  function ChoiceOf(picked: string): Choice {
    if picked == AllLabel then All else Only(picked)
  }

  /** `["Tất cả"] + options`. */
  function SelectorOptions(options: seq<string>): seq<string> {
    [AllLabel] + options
  }

  /** A value a selectbox over `["Tất cả"] + options` can produce. */
  predicate OfferedBy(c: Choice, options: seq<string>) {
    exists k | 0 <= k < |SelectorOptions(options)| :: c == ChoiceOf(SelectorOptions(options)[k])
  }

  /** Such a value is the placeholder or one of the options. */
  lemma OfferedChoice(c: Choice, options: seq<string>)
    requires OfferedBy(c, options)
    ensures c.All? || c.wanted in options
  {
    var k :| 0 <= k < |SelectorOptions(options)| && c == ChoiceOf(SelectorOptions(options)[k]);
    if k > 0 {
      assert SelectorOptions(options)[k] == options[k - 1];
    }
  }

  /** The first entry means "no filter"; every other entry filters on itself,
      unless a label happens to equal the placeholder. */
  lemma SelectorChoices(options: seq<string>, k: nat)
    requires k < |SelectorOptions(options)|
    requires AllLabel !in options
    ensures ChoiceOf(SelectorOptions(options)[k]) == if k == 0 then All else Only(options[k - 1])
  {
    if k > 0 {
      assert SelectorOptions(options)[k] == options[k - 1];
    }
  }

  predicate Matches(r: ViewRow, d: Dim, c: Choice) {
    c.All? || Label(r, d) == Some(c.wanted)
  }

  /** `df[df[column] == choice]` unless the choice is the placeholder. */
  function SubFilter(rows: seq<ViewRow>, d: Dim, c: Choice): (r: seq<ViewRow>)
    ensures forall i | 0 <= i < |r| :: r[i] in rows && Matches(r[i], d, c)
    ensures forall i | 0 <= i < |rows| && Matches(rows[i], d, c) :: rows[i] in r
  {
    Filter(x => Matches(x, d, c), rows)
  }

  /** The placeholder leaves the rows alone; a label keeps exactly the rows
      holding it, so a missing label never matches. */
  lemma SubFilterAll(rows: seq<ViewRow>, d: Dim)
    ensures SubFilter(rows, d, All) == rows
  {
    FilterAll(x => Matches(x, d, All), rows);
  }

  /** `df2`: semester, then course, then class. A row is kept iff it matches
      all three selectors. */
  function CrossFilter(rows: seq<ViewRow>, sem: Choice, course: Choice, cls: Choice): (r: seq<ViewRow>)
    ensures forall i | 0 <= i < |r| ::
      r[i] in rows && Matches(r[i], SemesterDim, sem) && Matches(r[i], CourseDim, course) && Matches(r[i], ClassDim, cls)
    ensures forall i | 0 <= i < |rows| ::
      Matches(rows[i], SemesterDim, sem) && Matches(rows[i], CourseDim, course) && Matches(rows[i], ClassDim, cls) ==> rows[i] in r
  {
    SubFiltersKeep(rows, sem, course, cls);
    SubFilter(SubFilter(SubFilter(rows, SemesterDim, sem), CourseDim, course), ClassDim, cls)
  }

  /** Membership through the three sub-filters in turn. */
  lemma SubFiltersKeep(rows: seq<ViewRow>, sem: Choice, course: Choice, cls: Choice)
    ensures var r := SubFilter(SubFilter(SubFilter(rows, SemesterDim, sem), CourseDim, course), ClassDim, cls);
      (forall i | 0 <= i < |r| ::
        r[i] in rows && Matches(r[i], SemesterDim, sem) && Matches(r[i], CourseDim, course) && Matches(r[i], ClassDim, cls)) &&
      (forall i | 0 <= i < |rows| ::
        Matches(rows[i], SemesterDim, sem) && Matches(rows[i], CourseDim, course) && Matches(rows[i], ClassDim, cls) ==> rows[i] in r)
  {
    SubFiltersSound(rows, sem, course, cls);
    SubFiltersComplete(rows, sem, course, cls);
  }

  /** A row the three sub-filters keep comes from the input and matches all three. */
  lemma SubFiltersSound(rows: seq<ViewRow>, sem: Choice, course: Choice, cls: Choice)
    ensures var r := SubFilter(SubFilter(SubFilter(rows, SemesterDim, sem), CourseDim, course), ClassDim, cls);
      forall i | 0 <= i < |r| ::
        r[i] in rows && Matches(r[i], SemesterDim, sem) && Matches(r[i], CourseDim, course) && Matches(r[i], ClassDim, cls)
  {
    var s1 := SubFilter(rows, SemesterDim, sem);
    var s2 := SubFilter(s1, CourseDim, course);
    var s3 := SubFilter(s2, ClassDim, cls);
    forall i | 0 <= i < |s2|
      ensures s2[i] in rows && Matches(s2[i], SemesterDim, sem)
    {
      var k :| 0 <= k < |s1| && s1[k] == s2[i];
    }
    forall i | 0 <= i < |s3|
      ensures s3[i] in rows && Matches(s3[i], SemesterDim, sem) && Matches(s3[i], CourseDim, course)
    {
      var k :| 0 <= k < |s2| && s2[k] == s3[i];
    }
  }

  /** A row matching all three selectors survives the three sub-filters. */
  lemma SubFiltersComplete(rows: seq<ViewRow>, sem: Choice, course: Choice, cls: Choice)
    ensures var r := SubFilter(SubFilter(SubFilter(rows, SemesterDim, sem), CourseDim, course), ClassDim, cls);
      forall i | 0 <= i < |rows| ::
        Matches(rows[i], SemesterDim, sem) && Matches(rows[i], CourseDim, course) && Matches(rows[i], ClassDim, cls) ==> rows[i] in r
  {
    var s1 := SubFilter(rows, SemesterDim, sem);
    var s2 := SubFilter(s1, CourseDim, course);
    var s3 := SubFilter(s2, ClassDim, cls);
    forall i | 0 <= i < |rows| && Matches(rows[i], SemesterDim, sem) && Matches(rows[i], CourseDim, course)
      ensures rows[i] in s2
    {
      var k :| 0 <= k < |s1| && s1[k] == rows[i];
    }
    forall i | 0 <= i < |rows| && Matches(rows[i], SemesterDim, sem) && Matches(rows[i], CourseDim, course) && Matches(rows[i], ClassDim, cls)
      ensures rows[i] in s3
    {
      var k :| 0 <= k < |s2| && s2[k] == rows[i];
    }
  }

  /** The three sub-filters compose by conjunction, so their order is immaterial. */
  lemma CrossFilterConjunction(rows: seq<ViewRow>, sem: Choice, course: Choice, cls: Choice)
    ensures CrossFilter(rows, sem, course, cls) ==
      Filter(x => Matches(x, SemesterDim, sem) && Matches(x, CourseDim, course) && Matches(x, ClassDim, cls), rows)
  {
    var f := (x: ViewRow) => Matches(x, SemesterDim, sem);
    var g := (x: ViewRow) => Matches(x, CourseDim, course);
    var h := (x: ViewRow) => Matches(x, ClassDim, cls);
    var fg := (x: ViewRow) => Matches(x, SemesterDim, sem) && Matches(x, CourseDim, course);
    var fgh := (x: ViewRow) => Matches(x, SemesterDim, sem) && Matches(x, CourseDim, course) && Matches(x, ClassDim, cls);
    FilterFilter(f, g, fg, rows);
    var s2 := Filter(fg, rows);
    FilterFilter(fg, h, fgh, rows);
  }

  /** The `(label, sentiment)` pairs `groupby` sees: rows where either is
      missing are dropped. */
  predicate BothPresent(r: ViewRow, d: Dim) {
    Label(r, d).Some? && r.sentiment.Some?
  }

  function KeyPairs(rows: seq<ViewRow>, d: Dim): (pairs: seq<(string, string)>)
    ensures var kept := Filter(x => BothPresent(x, d), rows);
      |pairs| == |kept| &&
      forall i | 0 <= i < |pairs| :: BothPresent(kept[i], d) && pairs[i] == (Label(kept[i], d).value, kept[i].sentiment.value)
  {
    var kept := Filter(x => BothPresent(x, d), rows);
    seq(|kept|, i requires 0 <= i < |kept| => (Label(kept[i], d).value, kept[i].sentiment.value))
  }

  /** The cross chart, or the "not enough data" note when the matrix is empty. */
  datatype CrossResult = NotEnoughData | CrossChart(m: Matrix<string, string>)

  /** The X dimension is one of aspect, semester, course or class. */
  function CrossAnalysis(rows: seq<ViewRow>, d: Dim): (r: CrossResult)
    requires d != SentimentDim
    ensures r.NotEnoughData? <==> |Filter(x => BothPresent(x, d), rows)| == 0
    ensures r.CrossChart? ==> Total(r.m.cells) == |Filter(x => BothPresent(x, d), rows)|
  {
    var pairs := KeyPairs(rows, d);
    var m := CrossTab(pairs);
    CrossTabEmpty(pairs);
    CrossTabTotal(pairs);
    if |m.rows| == 0 then NotEnoughData else CrossChart(m)
  }

  // ---- trend ----

  datatype TrendResult = NoTrendData | TooFewSemesters | TrendChart(m: Matrix<string, string>)

  /** `df_tr`: the optional course and class filters, then the chosen aspect. */
  function TrendRows(rows: seq<ViewRow>, course: Choice, cls: Choice, aspect: string): (r: seq<ViewRow>)
    ensures forall i | 0 <= i < |r| :: r[i] in rows && Matches(r[i], CourseDim, course) && Matches(r[i], ClassDim, cls) && r[i].aspect == Some(aspect)
    ensures forall i | 0 <= i < |rows| && Matches(rows[i], CourseDim, course) && Matches(rows[i], ClassDim, cls) && rows[i].aspect == Some(aspect) :: rows[i] in r
  {
    var df3 := SubFilter(SubFilter(rows, CourseDim, course), ClassDim, cls);
    Filter((x: ViewRow) => x.aspect == Some(aspect), df3)
  }

  /** The trend section: a note when no row is left, a note when the semester by
      sentiment table has fewer than two rows, otherwise the chart. */
  function Trend(rows: seq<ViewRow>, course: Choice, cls: Choice, aspect: string): (r: TrendResult)
    ensures r.NoTrendData? <==> |TrendRows(rows, course, cls, aspect)| == 0
    ensures r.TrendChart? <==>
      |TrendRows(rows, course, cls, aspect)| > 0 &&
      |CrossTab(KeyPairs(TrendRows(rows, course, cls, aspect), SemesterDim)).rows| >= 2
  {
    var tr := TrendRows(rows, course, cls, aspect);
    if |tr| == 0 then NoTrendData
    else
      var m := CrossTab(KeyPairs(tr, SemesterDim));
      if |m.rows| > 1 then TrendChart(m) else TooFewSemesters
  }

  /** Two different semesters among rows that also carry a sentiment. */
  predicate TwoSemesters(tr: seq<ViewRow>) {
    exists a, b | 0 <= a < |tr| && 0 <= b < |tr| ::
      BothPresent(tr[a], SemesterDim) && BothPresent(tr[b], SemesterDim) && tr[a].semester != tr[b].semester
  }

  /** Every row with both labels contributes a pair. */
  lemma PairOfRow(tr: seq<ViewRow>, d: Dim, a: nat) returns (i: nat)
    requires a < |tr| && BothPresent(tr[a], d)
    ensures i < |KeyPairs(tr, d)| && KeyPairs(tr, d)[i].0 == Label(tr[a], d).value
  {
    var kept := Filter(x => BothPresent(x, d), tr);
    assert tr[a] in kept;
    var k :| 0 <= k < |kept| && kept[k] == tr[a];
    i := k;
  }

  lemma TwoSemestersGivePairs(tr: seq<ViewRow>)
    requires TwoSemesters(tr)
    ensures var pairs := KeyPairs(tr, SemesterDim);
      exists i, j | 0 <= i < |pairs| && 0 <= j < |pairs| :: pairs[i].0 != pairs[j].0
  {
    var a, b :| 0 <= a < |tr| && 0 <= b < |tr| &&
      BothPresent(tr[a], SemesterDim) && BothPresent(tr[b], SemesterDim) && tr[a].semester != tr[b].semester;
    var i := PairOfRow(tr, SemesterDim, a);
    var j := PairOfRow(tr, SemesterDim, b);
  }

  lemma PairsGiveTwoSemesters(tr: seq<ViewRow>, i: nat, j: nat)
    requires i < |KeyPairs(tr, SemesterDim)| && j < |KeyPairs(tr, SemesterDim)|
    requires KeyPairs(tr, SemesterDim)[i].0 != KeyPairs(tr, SemesterDim)[j].0
    ensures TwoSemesters(tr)
  {
    var kept := Filter(x => BothPresent(x, SemesterDim), tr);
    assert kept[i] in tr && kept[j] in tr;
    var a :| 0 <= a < |tr| && tr[a] == kept[i];
    var b :| 0 <= b < |tr| && tr[b] == kept[j];
    assert BothPresent(tr[a], SemesterDim) && BothPresent(tr[b], SemesterDim) && tr[a].semester != tr[b].semester;
  }

  /** The semester by sentiment table has two rows or more exactly when the rows
      show two different semesters, each alongside a sentiment. */
  lemma SemesterRows(tr: seq<ViewRow>)
    ensures |CrossTab(KeyPairs(tr, SemesterDim)).rows| >= 2 <==> TwoSemesters(tr)
  {
    CrossTabTwoRows(KeyPairs(tr, SemesterDim));
    PairsShowTwoSemesters(tr);
  }

  /** Two pairs differ in their semester exactly when two rows do. */
  lemma PairsShowTwoSemesters(tr: seq<ViewRow>)
    ensures var pairs := KeyPairs(tr, SemesterDim);
      (exists i, j | 0 <= i < |pairs| && 0 <= j < |pairs| :: pairs[i].0 != pairs[j].0) <==> TwoSemesters(tr)
  {
    var pairs := KeyPairs(tr, SemesterDim);
    if TwoSemesters(tr) {
      TwoSemestersGivePairs(tr);
    }
    if exists i, j | 0 <= i < |pairs| && 0 <= j < |pairs| :: pairs[i].0 != pairs[j].0 {
      var i, j :| 0 <= i < |pairs| && 0 <= j < |pairs| && pairs[i].0 != pairs[j].0;
      PairsGiveTwoSemesters(tr, i, j);
    }
  }

  /** A chart is drawn exactly when rows are left and they show two different
      semesters, each alongside a sentiment; with rows left but fewer
      semesters the page reports too few semesters. */
  lemma TrendNeedsTwoSemesters(rows: seq<ViewRow>, course: Choice, cls: Choice, aspect: string)
    ensures var tr := TrendRows(rows, course, cls, aspect);
      (Trend(rows, course, cls, aspect).TrendChart? <==> TwoSemesters(tr)) &&
      (Trend(rows, course, cls, aspect).TooFewSemesters? <==> |tr| > 0 && !TwoSemesters(tr))
  {
    var tr := TrendRows(rows, course, cls, aspect);
    SemesterRows(tr);
    if TwoSemesters(tr) {
      var a, b :| 0 <= a < |tr| && 0 <= b < |tr| && tr[a].semester != tr[b].semester;
    }
  }

  // ---- the page as a whole ----

  /** What the page shows below the sidebar: the row count (then 0) and the
      warning when the general filter keeps nothing (the early `return`),
      otherwise the three sections. */
  datatype PageResult =
    | FilterWarning(total: nat)
    | Sections(summary: Summary, cross: CrossResult, trend: TrendResult)

  /** The widget values the page reads after the sidebar: the three cross
      selectors, the X dimension, the two trend selectors and the trend aspect. */
  datatype Widgets = Widgets(
    crossSemester: Choice, crossCourse: Choice, crossClass: Choice, dim: Dim,
    trendCourse: Choice, trendClass: Choice, trendAspect: string)

  /** `stats_page`: the summary reads the filtered rows, while the cross and
      trend sections start again from the whole view (`df_full.copy()`). */
  function StatsPage(db: Db, sel: Choices, w: Widgets): (p: PageResult)
    requires w.dim != SentimentDim
    ensures p.FilterWarning? <==> |GeneralFilter(View(db), sel)| == 0
    ensures p.FilterWarning? ==> p.total == 0
    ensures p.Sections? ==> p.summary.Summary? && p.summary.total == |GeneralFilter(View(db), sel)|
  {
    var df1 := GeneralFilter(View(db), sel);
    if |df1| == 0 then FilterWarning(|df1|)
    else
      var df2 := CrossFilter(View(db), w.crossSemester, w.crossCourse, w.crossClass);
      Sections(Summarize(df1), CrossAnalysis(df2, w.dim), Trend(View(db), w.trendCourse, w.trendClass, w.trendAspect))
  }

  /** Once the page gets past the warning, the cross and trend sections do not
      depend on the sidebar selection. */
  lemma SectionsIgnoreSidebar(db: Db, sel1: Choices, sel2: Choices, w: Widgets)
    requires w.dim != SentimentDim
    requires |GeneralFilter(View(db), sel1)| > 0 && |GeneralFilter(View(db), sel2)| > 0
    ensures StatsPage(db, sel1, w).Sections? && StatsPage(db, sel2, w).Sections?
    ensures StatsPage(db, sel1, w).cross == StatsPage(db, sel2, w).cross
    ensures StatsPage(db, sel1, w).trend == StatsPage(db, sel2, w).trend
  {
  }

  /** A sentence the sidebar hides still counts in the cross analysis: the cross
      total is the number of sentences matching the three cross selectors whose
      X label and sentiment are both present. */
  lemma CrossSeesWholeView(db: Db, sel: Choices, w: Widgets)
    requires w.dim != SentimentDim
    requires |GeneralFilter(View(db), sel)| > 0
    ensures var p := StatsPage(db, sel, w);
      var df2 := CrossFilter(View(db), w.crossSemester, w.crossCourse, w.crossClass);
      p.Sections? &&
      (p.cross.NotEnoughData? <==> |Filter(x => BothPresent(x, w.dim), df2)| == 0) &&
      (p.cross.CrossChart? ==> Total(p.cross.m.cells) == |Filter(x => BothPresent(x, w.dim), df2)|)
  {
  }

  /** The selector values the page can actually receive: the cross and trend
      selectors list "Tất cả" and then the sidebar's option lists, so the
      semester and class selectors reach only the first eight of each. */
  predicate WidgetsOffered(db: Db, w: Widgets) {
    var semesters := Cap8(KeyColumn(db.semesters));
    var classes := Cap8(KeyColumn(ClassesByName(db.classes)));
    var courses := CourseLabels(db.courses);
    OfferedBy(w.crossSemester, semesters) && OfferedBy(w.crossCourse, courses) &&
    OfferedBy(w.crossClass, classes) && w.dim != SentimentDim &&
    OfferedBy(w.trendCourse, courses) && OfferedBy(w.trendClass, classes)
  }

  /** A sentence whose semester is not among the first eight reaches the cross
      analysis only while its semester selector is on "Tất cả"; likewise a
      sentence whose class is not among the first eight, for the class
      selectors of the cross analysis and of the trend. */
  lemma CappedSelectors(db: Db, w: Widgets)
    requires WidgetsOffered(db, w)
    ensures var df2 := CrossFilter(View(db), w.crossSemester, w.crossCourse, w.crossClass);
      forall i | 0 <= i < |df2| ::
        (w.crossSemester.All? || Selected(df2[i].semester, Cap8(KeyColumn(db.semesters)))) &&
        (w.crossClass.All? || Selected(df2[i].cls, Cap8(KeyColumn(ClassesByName(db.classes)))))
    ensures var tr := TrendRows(View(db), w.trendCourse, w.trendClass, w.trendAspect);
      forall i | 0 <= i < |tr| :: w.trendClass.All? || Selected(tr[i].cls, Cap8(KeyColumn(ClassesByName(db.classes))))
  {
    CappedRows(View(db), w, Cap8(KeyColumn(db.semesters)), Cap8(KeyColumn(ClassesByName(db.classes))));
  }

  /** `CappedSelectors` for any rows and any offered lists. */
  lemma CappedRows(rows: seq<ViewRow>, w: Widgets, semesters: seq<string>, classes: seq<string>)
    requires OfferedBy(w.crossSemester, semesters) && OfferedBy(w.crossClass, classes) && OfferedBy(w.trendClass, classes)
    ensures var df2 := CrossFilter(rows, w.crossSemester, w.crossCourse, w.crossClass);
      forall i | 0 <= i < |df2| ::
        (w.crossSemester.All? || Selected(df2[i].semester, semesters)) &&
        (w.crossClass.All? || Selected(df2[i].cls, classes))
    ensures var tr := TrendRows(rows, w.trendCourse, w.trendClass, w.trendAspect);
      forall i | 0 <= i < |tr| :: w.trendClass.All? || Selected(tr[i].cls, classes)
  {
    var df2 := CrossFilter(rows, w.crossSemester, w.crossCourse, w.crossClass);
    var tr := TrendRows(rows, w.trendCourse, w.trendClass, w.trendAspect);
    OfferedChoice(w.crossSemester, semesters);
    OfferedChoice(w.crossClass, classes);
    OfferedChoice(w.trendClass, classes);
    CappedMatches(df2, w.crossSemester, w.crossClass, semesters, classes);
    CappedMatches(tr, All, w.trendClass, semesters, classes);
  }

  /** Rows matching offered semester and class choices carry offered labels. */
  lemma CappedMatches(rows: seq<ViewRow>, sem: Choice, cls: Choice, semesters: seq<string>, classes: seq<string>)
    requires sem.All? || sem.wanted in semesters
    requires cls.All? || cls.wanted in classes
    requires forall i | 0 <= i < |rows| :: Matches(rows[i], SemesterDim, sem) && Matches(rows[i], ClassDim, cls)
    ensures forall i | 0 <= i < |rows| ::
      (sem.All? || Selected(rows[i].semester, semesters)) && (cls.All? || Selected(rows[i].cls, classes))
  {
  }
}
