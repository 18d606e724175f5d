/** `insert_sentence`: resolve seven labels to ids with `get_id`, then insert one
    `Sentence` row under a freshly generated id. */
module SentenceStore {
  import opened Wrappers
  import opened Tables
  import opened Schema

  /** The labels a sentence is filed under, as the analysis page passes them. */
  datatype Labels = Labels(
    aspect: string,
    sentiment: string,
    semester: string,
    courseCode: string,
    academicYear: string,
    className: string,
    studentCode: string)

  /** `get_id(conn, "Class", "name", name)`. The class table is unique only on
      (name, academic year), so a name can match several rows; the lookup takes
      the first in row order. */
  function ClassIdByName(t: Table<ClassKey, ()>, name: string): (r: Option<int>)
    ensures r.None? <==> forall i | 0 <= i < |t| :: t[i].key.name != name
    ensures r.Some? ==> exists i | 0 <= i < |t| :: t[i].key.name == name && t[i].id == r.value
  {
    var byName := ClassesByName(t);
    var r := LookupId(byName, name);
    assert HasKey(byName, name) <==> exists i | 0 <= i < |t| :: t[i].key.name == name by {
      if HasKey(byName, name) {
        var i :| 0 <= i < |byName| && byName[i].key == name;
        assert t[i].key.name == name;
      }
    }
    assert r.Some? ==> exists i | 0 <= i < |t| :: t[i].key.name == name && t[i].id == r.value by {
      if r.Some? {
        var i :| 0 <= i < |byName| && byName[i].key == name && byName[i].id == r.value;
        assert t[i].key.name == name && t[i].id == r.value;
      }
    }
    r
  }

  /** When class names are unique, the lookup finds the one class with that name. */
  lemma ClassIdByNameUnique(t: Table<ClassKey, ()>, i: nat)
    requires i < |t|
    requires forall a, b | 0 <= a < b < |t| :: t[a].key.name != t[b].key.name
    ensures ClassIdByName(t, t[i].key.name) == Some(t[i].id)
  {
    var r := ClassIdByName(t, t[i].key.name);
    var k :| 0 <= k < |t| && t[k].key.name == t[i].key.name && t[k].id == r.value;
    assert k == i;
  }

  /** The row `insert_sentence` builds: every label goes through `get_id`, and a
      label that matches nothing becomes a NULL foreign key. */
  function Resolve(db: Db, id: string, text: string, l: Labels): (s: Sentence)
    ensures s.id == id && s.text == text
    ensures s.aspectId.None? <==> !HasKey(db.aspects, l.aspect)
    ensures s.sentimentId.None? <==> !HasKey(db.sentiments, l.sentiment)
    ensures s.semesterId.None? <==> !HasKey(db.semesters, l.semester)
    ensures s.courseId.None? <==> !HasKey(db.courses, l.courseCode)
    ensures s.academicYearId.None? <==> !HasKey(db.academicYears, l.academicYear)
    ensures s.classId.None? <==> forall i | 0 <= i < |db.classes| :: db.classes[i].key.name != l.className
    ensures s.studentId.None? <==> !HasKey(db.students, l.studentCode)
  {
    Sentence(
      id, text,
      LookupId(db.aspects, l.aspect),
      LookupId(db.sentiments, l.sentiment),
      LookupId(db.semesters, l.semester),
      LookupId(db.courses, l.courseCode),
      LookupId(db.academicYears, l.academicYear),
      ClassIdByName(db.classes, l.className),
      LookupId(db.students, l.studentCode))
  }

  predicate IdTaken(sentences: seq<Sentence>, id: string) {
    exists i | 0 <= i < |sentences| :: sentences[i].id == id
  }

  /** `Sentence.id` is the primary key. */
  predicate UniqueSentenceIds(sentences: seq<Sentence>) {
    forall i, j | 0 <= i < j < |sentences| :: sentences[i].id != sentences[j].id
  }

  /** `insert_sentence` with `id` standing for the generated UUID. The INSERT
      is a plain one: an id already in use makes it fail, `run_sql` reports the
      error and nothing changes. Otherwise exactly one row is appended. No other
      table is touched either way. */
  function InsertSentence(db: Db, id: string, text: string, l: Labels): (r: Db)
    ensures r == db.(sentences := r.sentences)
    ensures IdTaken(db.sentences, id) ==> r == db
    ensures !IdTaken(db.sentences, id) ==> r.sentences == db.sentences + [Resolve(db, id, text, l)]
  {
    if IdTaken(db.sentences, id) then db
    else db.(sentences := db.sentences + [Resolve(db, id, text, l)])
  }

  /** The primary key stays a key, and the table grows by one row exactly when
      the generated id is new. */
  lemma InsertSentenceKeepsKey(db: Db, id: string, text: string, l: Labels)
    requires UniqueSentenceIds(db.sentences)
    ensures UniqueSentenceIds(InsertSentence(db, id, text, l).sentences)
    ensures |InsertSentence(db, id, text, l).sentences| == |db.sentences| + (if IdTaken(db.sentences, id) then 0 else 1)
  {
    var r := InsertSentence(db, id, text, l).sentences;
    if !IdTaken(db.sentences, id) {
      forall i, j | 0 <= i < j < |r|
        ensures r[i].id != r[j].id
      {
        if j == |db.sentences| {
          assert r[i] == db.sentences[i];
        }
      }
    }
  }

  /** Existing rows are never rewritten: the old table is a prefix of the new. */
  lemma InsertSentenceKeepsRows(db: Db, id: string, text: string, l: Labels)
    ensures var r := InsertSentence(db, id, text, l).sentences;
      |db.sentences| <= |r| && r[..|db.sentences|] == db.sentences
  {
  }

  /** A resolved foreign key points back at the row carrying the label it was
      resolved from, in every keyed lookup table. */
  lemma ResolveJoinsBack(db: Db, id: string, text: string, l: Labels)
    requires WellFormed(db.aspects) && WellFormed(db.sentiments) && WellFormed(db.semesters)
    requires WellFormed(db.courses) && WellFormed(db.academicYears) && WellFormed(db.students)
    ensures var s := Resolve(db, id, text, l);
      (s.aspectId.Some? ==> RowById(db.aspects, s.aspectId).Some? && RowById(db.aspects, s.aspectId).value.key == l.aspect) &&
      (s.sentimentId.Some? ==> RowById(db.sentiments, s.sentimentId).Some? && RowById(db.sentiments, s.sentimentId).value.key == l.sentiment) &&
      (s.semesterId.Some? ==> RowById(db.semesters, s.semesterId).Some? && RowById(db.semesters, s.semesterId).value.key == l.semester) &&
      (s.courseId.Some? ==> RowById(db.courses, s.courseId).Some? && RowById(db.courses, s.courseId).value.key == l.courseCode) &&
      (s.academicYearId.Some? ==> RowById(db.academicYears, s.academicYearId).Some? && RowById(db.academicYears, s.academicYearId).value.key == l.academicYear) &&
      (s.studentId.Some? ==> RowById(db.students, s.studentId).Some? && RowById(db.students, s.studentId).value.key == l.studentCode)
  {
    if HasKey(db.aspects, l.aspect) { LookupThenJoin(db.aspects, l.aspect); }
    if HasKey(db.sentiments, l.sentiment) { LookupThenJoin(db.sentiments, l.sentiment); }
    if HasKey(db.semesters, l.semester) { LookupThenJoin(db.semesters, l.semester); }
    if HasKey(db.courses, l.courseCode) { LookupThenJoin(db.courses, l.courseCode); }
    if HasKey(db.academicYears, l.academicYear) { LookupThenJoin(db.academicYears, l.academicYear); }
    if HasKey(db.students, l.studentCode) { LookupThenJoin(db.students, l.studentCode); }
  }

  /** The class key resolves to a class of that name, when the ids are unique. */
  lemma ResolveClassJoinsBack(db: Db, id: string, text: string, l: Labels)
    requires UniqueIds(db.classes)
    ensures var s := Resolve(db, id, text, l);
      s.classId.Some? ==> RowById(db.classes, s.classId).Some? && RowById(db.classes, s.classId).value.key.name == l.className
  {
    var s := Resolve(db, id, text, l);
    if s.classId.Some? {
      var k :| 0 <= k < |db.classes| && db.classes[k].key.name == l.className && db.classes[k].id == s.classId.value;
      var row := RowById(db.classes, s.classId).value;
      var j :| 0 <= j < |db.classes| && db.classes[j] == row;
      assert j == k;
    }
  }
}
