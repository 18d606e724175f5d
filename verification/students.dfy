/** How `insert_student_data` deals 200 synthetic students out to the classes:
    class sizes by the `//` / `%` rule, one generated name per student in
    order, and codes `SV<class><index:03d>`. */
module Students {
  import opened Text

  /** `total_students` in the seeder. */
  const TotalStudents: nat := 200

  /** A class as `SELECT id, name FROM Class ORDER BY id ASC` returns it. */
  datatype ClassRef = ClassRef(id: int, name: string)

  /** One `(student_code, name, class_id)` tuple of the insert batch. */
  datatype StudentRow = StudentRow(code: string, name: string, classId: int)

  /** `f"SV{class_name}{idx+1:03d}"`, with `n` the 1-based index in the class. */
  function StudentCode(className: string, n: nat): string {
    "SV" + className + Pad3(n)
  }

  /** `students_per_class` and `remainder`: the quotient and remainder of the
      total by the number of classes. */
  datatype Quota = Quota(perClass: nat, remainder: nat, classes: nat)

  function QuotaOf(total: nat, k: nat): (qt: Quota)
    requires 1 <= k
    ensures qt.classes == k && qt.remainder < k
    ensures qt.perClass * k + qt.remainder == total
  {
    Quota(total / k, total % k, k)
  }

  /** The split of the 200 students over `classes`. */
  function QuotaFor(classes: seq<ClassRef>): Quota
    requires 1 <= |classes|
  {
    QuotaOf(TotalStudents, |classes|)
  }

  /** `students_per_class + (1 if class_idx < remainder else 0)`. */
  function ClassSize(qt: Quota, c: nat): nat {
    qt.perClass + (if c < qt.remainder then 1 else 0)
  }

  /** The number of students dealt to the classes before class `c`, which is
      also the value of `student_idx` when class `c` starts. */
  function Offset(qt: Quota, c: nat): nat {
    if c == 0 then 0 else Offset(qt, c - 1) + ClassSize(qt, c - 1)
  }

  lemma {:induction false} OffsetClosedForm(qt: Quota, c: nat)
    ensures Offset(qt, c) == c * qt.perClass + (if c < qt.remainder then c else qt.remainder)
  {
    if c > 0 {
      OffsetClosedForm(qt, c - 1);
      assert c * qt.perClass == (c - 1) * qt.perClass + qt.perClass;
    }
  }

  /** The class sizes add up to the requested total whatever the number of classes. */
  lemma AllocationTotal(total: nat, k: nat)
    requires 1 <= k
    ensures Offset(QuotaOf(total, k), k) == total
  {
    OffsetClosedForm(QuotaOf(total, k), k);
  }

  lemma {:induction false} OffsetMonotone(qt: Quota, a: nat, b: nat)
    requires a <= b
    ensures Offset(qt, a) <= Offset(qt, b)
    decreases b - a
  {
    if a < b {
      OffsetMonotone(qt, a, b - 1);
    }
  }

  /** Any two classes differ by at most one student, and earlier classes never
      get fewer than later ones. */
  lemma SizesBalanced(total: nat, k: nat, c1: nat, c2: nat)
    requires 1 <= k && c1 < k && c2 < k
    ensures total / k <= ClassSize(QuotaOf(total, k), c1) <= total / k + 1
    ensures ClassSize(QuotaOf(total, k), c1) == total / k + 1 <==> c1 < total % k
    ensures ClassSize(QuotaOf(total, k), c1) <= ClassSize(QuotaOf(total, k), c2) + 1
    ensures c1 <= c2 ==> ClassSize(QuotaOf(total, k), c2) <= ClassSize(QuotaOf(total, k), c1)
  {
  }

  /** The rows of one class: indices 1..size, names taken from `start` on. */
  function ClassBlock(cls: ClassRef, names: seq<string>, start: nat, size: nat): (rows: seq<StudentRow>)
    requires start + size <= |names|
    ensures |rows| == size
    ensures forall i | 0 <= i < size ::
      rows[i] == StudentRow(StudentCode(cls.name, i + 1), names[start + i], cls.id)
  {
    seq(size, i requires 0 <= i < size => StudentRow(StudentCode(cls.name, i + 1), names[start + i], cls.id))
  }

  /** The rows the inner loop writes for class `c`. */
  function Block(classes: seq<ClassRef>, names: seq<string>, c: nat): (rows: seq<StudentRow>)
    requires 1 <= |classes| && c < |classes| && TotalStudents <= |names|
    ensures |rows| == ClassSize(QuotaFor(classes), c)
  {
    var k := |classes|;
    AllocationTotal(TotalStudents, k);
    OffsetMonotone(QuotaFor(classes), c + 1, k);
    ClassBlock(classes[c], names, Offset(QuotaFor(classes), c), ClassSize(QuotaFor(classes), c))
  }

  /** The rows of classes `c..` (the outer loop from class `c` on). */
  function AllocateFrom(classes: seq<ClassRef>, names: seq<string>, c: nat): (rows: seq<StudentRow>)
    requires 1 <= |classes| && c <= |classes| && TotalStudents <= |names|
    ensures Offset(QuotaFor(classes), c) + |rows| == TotalStudents
    decreases |classes| - c
  {
    var k := |classes|;
    AllocationTotal(TotalStudents, k);
    if c == k then []
    else
      Block(classes, names, c) + AllocateFrom(classes, names, c + 1)
  }

  /** The whole insert batch of `insert_student_data`. */
  function Allocate(classes: seq<ClassRef>, names: seq<string>): (rows: seq<StudentRow>)
    requires 1 <= |classes| && TotalStudents <= |names|
  {
    AllocateFrom(classes, names, 0)
  }

  /** `x` occurs in `rows` starting at position `lo`. */
  predicate SliceAt<T(==)>(rows: seq<T>, lo: nat, x: seq<T>) {
    lo + |x| <= |rows| && rows[lo..lo + |x|] == x
  }

  lemma SliceAtAfter<T>(a: seq<T>, b: seq<T>, lo: nat, x: seq<T>)
    requires SliceAt(b, lo, x)
    ensures SliceAt(a + b, |a| + lo, x)
  {
    assert (a + b)[|a| + lo..|a| + lo + |x|] == b[lo..lo + |x|];
  }

  /** `SliceAtAfter` with the concatenation and the shifted position named. */
  lemma SliceAtShift<T>(whole: seq<T>, a: seq<T>, b: seq<T>, lo: nat, lo': nat, x: seq<T>)
    requires whole == a + b && lo' == |a| + lo && SliceAt(b, lo, x)
    ensures SliceAt(whole, lo', x)
  {
    SliceAtAfter(a, b, lo, x);
  }

  lemma SliceAtFront<T>(a: seq<T>, b: seq<T>)
    ensures SliceAt(a + b, 0, a)
  {
    assert (a + b)[..|a|] == a;
  }

  /** Where class `c`'s block sits in the rows of classes `from..`. */
  lemma {:induction false} BlockInAllocateFrom(classes: seq<ClassRef>, names: seq<string>, from: nat, c: nat)
    requires 1 <= |classes| && from <= c < |classes| && TotalStudents <= |names|
    ensures Offset(QuotaFor(classes), from) <= Offset(QuotaFor(classes), c)
    ensures SliceAt(AllocateFrom(classes, names, from),
                    Offset(QuotaFor(classes), c) - Offset(QuotaFor(classes), from),
                    Block(classes, names, c))
    decreases c - from
  {
    OffsetMonotone(QuotaFor(classes), from, c);
    if c == from {
      BlockAtStart(classes, names, from);
    } else {
      BlockInAllocateFrom(classes, names, from + 1, c);
      BlockAfterStart(classes, names, from, c);
    }
  }

  lemma BlockAtStart(classes: seq<ClassRef>, names: seq<string>, from: nat)
    requires 1 <= |classes| && from < |classes| && TotalStudents <= |names|
    ensures SliceAt(AllocateFrom(classes, names, from), 0, Block(classes, names, from))
  {
    AllocateFromStep(classes, names, from);
    SliceAtFront(Block(classes, names, from), AllocateFrom(classes, names, from + 1));
  }

  /** A block found after class `from` is found, shifted by class `from`'s
      block, in the rows of classes `from..`. */
  lemma BlockAfterStart(classes: seq<ClassRef>, names: seq<string>, from: nat, c: nat)
    requires 1 <= |classes| && from < c < |classes| && TotalStudents <= |names|
    requires Offset(QuotaFor(classes), from + 1) <= Offset(QuotaFor(classes), c)
    requires SliceAt(AllocateFrom(classes, names, from + 1),
                     Offset(QuotaFor(classes), c) - Offset(QuotaFor(classes), from + 1),
                     Block(classes, names, c))
    ensures Offset(QuotaFor(classes), from) <= Offset(QuotaFor(classes), c)
    ensures SliceAt(AllocateFrom(classes, names, from),
                    Offset(QuotaFor(classes), c) - Offset(QuotaFor(classes), from),
                    Block(classes, names, c))
  {
    var qt := QuotaFor(classes);
    var lo, lo' := Offset(qt, c) - Offset(qt, from + 1), Offset(qt, c) - Offset(qt, from);
    AllocateFromStep(classes, names, from);
    assert lo' == |Block(classes, names, from)| + lo;
    SliceAtShift(AllocateFrom(classes, names, from), Block(classes, names, from), AllocateFrom(classes, names, from + 1),
                 lo, lo', Block(classes, names, c));
  }

  /** The rows of classes `from..` are class `from`'s block followed by the
      rest, and the next class starts right after that block. */
  lemma AllocateFromStep(classes: seq<ClassRef>, names: seq<string>, from: nat)
    requires 1 <= |classes| && from < |classes| && TotalStudents <= |names|
    ensures AllocateFrom(classes, names, from) == Block(classes, names, from) + AllocateFrom(classes, names, from + 1)
    ensures Offset(QuotaFor(classes), from + 1) == Offset(QuotaFor(classes), from) + |Block(classes, names, from)|
  {
  }

  /** `rows` carries the names `names[start..]` in order. */
  predicate NamesFrom(rows: seq<StudentRow>, names: seq<string>, start: nat) {
    start + |rows| <= |names| && forall j | 0 <= j < |rows| :: rows[j].name == names[start + j]
  }

  /** Two runs of consecutive names placed one after the other form one run. */
  lemma NamesConcat(block: seq<StudentRow>, rest: seq<StudentRow>, names: seq<string>, start: nat)
    requires NamesFrom(block, names, start) && NamesFrom(rest, names, start + |block|)
    ensures NamesFrom(block + rest, names, start)
  {
    forall j | 0 <= j < |block + rest|
      ensures (block + rest)[j].name == names[start + j]
    {
      if j < |block| {
        assert (block + rest)[j] == block[j];
      } else {
        assert (block + rest)[j] == rest[j - |block|];
      }
    }
  }

  lemma BlockNames(classes: seq<ClassRef>, names: seq<string>, c: nat)
    requires 1 <= |classes| && c < |classes| && TotalStudents <= |names|
    ensures NamesFrom(Block(classes, names, c), names, Offset(QuotaFor(classes), c))
  {
    AllocationTotal(TotalStudents, |classes|);
    OffsetMonotone(QuotaFor(classes), c + 1, |classes|);
    var rows := Block(classes, names, c);
    forall j | 0 <= j < |rows|
      ensures rows[j].name == names[Offset(QuotaFor(classes), c) + j]
    {
    }
  }

  /** Row `j` of the classes `c..` carries the name at `student_idx`. */
  lemma {:induction false} AllocateFromNames(classes: seq<ClassRef>, names: seq<string>, c: nat)
    requires 1 <= |classes| && c <= |classes| && TotalStudents <= |names|
    ensures NamesFrom(AllocateFrom(classes, names, c), names, Offset(QuotaFor(classes), c))
    decreases |classes| - c
  {
    var k := |classes|;
    AllocationTotal(TotalStudents, k);
    if c < k {
      var block := Block(classes, names, c);
      var rest := AllocateFrom(classes, names, c + 1);
      AllocateFromNames(classes, names, c + 1);
      BlockNames(classes, names, c);
      assert Offset(QuotaFor(classes), c) + |block| == Offset(QuotaFor(classes), c + 1);
      NamesConcat(block, rest, names, Offset(QuotaFor(classes), c));
    }
  }

  /** Class `c`'s students, in `Allocate`, in terms of what the inner loop writes. */
  lemma AllocateBlock(classes: seq<ClassRef>, names: seq<string>, c: nat)
    requires 1 <= |classes| && c < |classes| && TotalStudents <= |names|
    ensures var lo := Offset(QuotaFor(classes), c);
      var n := ClassSize(QuotaFor(classes), c);
      lo + n <= TotalStudents && lo + n <= |names| &&
      Allocate(classes, names)[lo..lo + n] == ClassBlock(classes[c], names, lo, n)
  {
    BlockInAllocateFrom(classes, names, 0, c);
    assert Block(classes, names, c) == ClassBlock(classes[c], names, Offset(QuotaFor(classes), c), ClassSize(QuotaFor(classes), c));
  }

  /** The batch has exactly 200 rows; row `j` carries `names[j]`, so every name
      is used once and in order; and class `c` receives its `ClassSize` students
      as one block, numbered from 1, right after the classes before it. */
  lemma AllocateSpec(classes: seq<ClassRef>, names: seq<string>)
    requires 1 <= |classes| && TotalStudents <= |names|
    ensures |Allocate(classes, names)| == TotalStudents
    ensures forall j | 0 <= j < TotalStudents :: Allocate(classes, names)[j].name == names[j]
    ensures forall c | 0 <= c < |classes| ::
      var lo := Offset(QuotaFor(classes), c);
      var n := ClassSize(QuotaFor(classes), c);
      lo + n <= TotalStudents && lo + n <= |names| &&
      Allocate(classes, names)[lo..lo + n] == ClassBlock(classes[c], names, lo, n)
  {
    AllocateFromNames(classes, names, 0);
    assert NamesFrom(Allocate(classes, names), names, 0);
    forall c | 0 <= c < |classes|
      ensures var lo := Offset(QuotaFor(classes), c);
        var n := ClassSize(QuotaFor(classes), c);
        lo + n <= TotalStudents && lo + n <= |names| &&
        Allocate(classes, names)[lo..lo + n] == ClassBlock(classes[c], names, lo, n)
    {
      AllocateBlock(classes, names, c);
    }
  }

  /** The class part of a student code: what lies between the `SV` prefix and
      the three-digit index. */
  function CodeClass(code: string): string {
    if |code| < 5 then "" else code[2..|code| - 3]
  }

  /** Reading the class back out of a code gives the class it was made for,
      whatever the class is called, as long as the index has three digits. */
  lemma CodeClassRoundTrip(name: string, n: nat)
    requires n < 1000
    ensures CodeClass(StudentCode(name, n)) == name
  {
    var code := StudentCode(name, n);
    assert code[2..|code| - 3] == name;
  }

  /** Within one class, different indices give different codes, whatever the
      class is called. */
  lemma ClassCodesDiffer(name: string, i: nat, j: nat)
    ensures StudentCode(name, i) == StudentCode(name, j) ==> i == j
  {
    if StudentCode(name, i) == StudentCode(name, j) {
      SplitSameLength("SV" + name, Pad3(i), "SV" + name, Pad3(j));
      Pad3Injective(i, j);
    }
  }

  /** Two codes with indices below 1000 coincide only for the same class name
      and the same index. */
  lemma StudentCodeInjective(a: string, i: nat, b: string, j: nat)
    requires i < 1000 && j < 1000
    requires StudentCode(a, i) == StudentCode(b, j)
    ensures a == b && i == j
  {
    SplitSameLength("SV" + a, Pad3(i), "SV" + b, Pad3(j));
    SplitSameLength("SV", a, "SV", b);
    Pad3Injective(i, j);
  }

  function ClassNames(classes: seq<ClassRef>): (ns: seq<string>)
    ensures |ns| == |classes|
    ensures forall c | 0 <= c < |classes| :: ns[c] == classes[c].name
  {
    seq(|classes|, c requires 0 <= c < |classes| => classes[c].name)
  }

  /** No two classes share a name. The table's unique key is the pair
      `(name, academic_year_id)`, so this is a property of the seeded names,
      and the one the codes need. */
  predicate DistinctClassNames(classes: seq<ClassRef>) {
    forall a, b | 0 <= a < b < |classes| :: classes[a].name != classes[b].name
  }

  predicate DistinctCodes(rows: seq<StudentRow>) {
    forall a, b | 0 <= a < b < |rows| :: rows[a].code != rows[b].code
  }

  /** Every code in `rows` belongs to one of the classes named in `ns`. */
  predicate CodesWithin(rows: seq<StudentRow>, ns: seq<string>) {
    forall j | 0 <= j < |rows| :: CodeClass(rows[j].code) in ns
  }

  lemma BlockCodes(cls: ClassRef, names: seq<string>, start: nat, size: nat)
    requires start + size <= |names| && size < 1000
    ensures DistinctCodes(ClassBlock(cls, names, start, size))
    ensures forall j | 0 <= j < size :: CodeClass(ClassBlock(cls, names, start, size)[j].code) == cls.name
  {
    var rows := ClassBlock(cls, names, start, size);
    forall a, b | 0 <= a < b < size
      ensures rows[a].code != rows[b].code
    {
      ClassCodesDiffer(cls.name, a + 1, b + 1);
    }
    forall j | 0 <= j < size
      ensures CodeClass(rows[j].code) == cls.name
    {
      CodeClassRoundTrip(cls.name, j + 1);
    }
  }

  lemma DistinctConcat(block: seq<StudentRow>, rest: seq<StudentRow>)
    requires DistinctCodes(block) && DistinctCodes(rest)
    requires forall a, b | 0 <= a < |block| && 0 <= b < |rest| :: block[a].code != rest[b].code
    ensures DistinctCodes(block + rest)
  {
    var all := block + rest;
    forall a, b | 0 <= a < b < |all|
      ensures all[a].code != all[b].code
    {
      if b < |block| {
        assert all[a] == block[a] && all[b] == block[b];
      } else if a < |block| {
        assert all[a] == block[a] && all[b] == rest[b - |block|];
      } else {
        assert all[a] == rest[a - |block|] && all[b] == rest[b - |block|];
      }
    }
  }

  lemma CodesWithinConcat(block: seq<StudentRow>, rest: seq<StudentRow>, ns: seq<string>)
    requires CodesWithin(block, ns) && CodesWithin(rest, ns)
    ensures CodesWithin(block + rest, ns)
  {
    forall j | 0 <= j < |block + rest|
      ensures CodeClass((block + rest)[j].code) in ns
    {
      if j < |block| {
        assert (block + rest)[j] == block[j];
      } else {
        assert (block + rest)[j] == rest[j - |block|];
      }
    }
  }

  /** One class's block in front of the later classes keeps the codes apart. */
  lemma CodesStep(name: string, block: seq<StudentRow>, rest: seq<StudentRow>, later: seq<string>)
    requires DistinctCodes(block) && forall j | 0 <= j < |block| :: CodeClass(block[j].code) == name
    requires DistinctCodes(rest) && CodesWithin(rest, later) && name !in later
    ensures DistinctCodes(block + rest) && CodesWithin(block + rest, [name] + later)
  {
    forall a, b | 0 <= a < |block| && 0 <= b < |rest|
      ensures block[a].code != rest[b].code
    {
      assert CodeClass(rest[b].code) in later;
    }
    DistinctConcat(block, rest);
    assert CodesWithin(block, [name] + later);
    assert CodesWithin(rest, [name] + later) by {
      forall j | 0 <= j < |rest|
        ensures CodeClass(rest[j].code) in [name] + later
      {
        assert CodeClass(rest[j].code) in later;
      }
    }
    CodesWithinConcat(block, rest, [name] + later);
  }

  lemma NameNotLater(classes: seq<ClassRef>, c: nat)
    requires DistinctClassNames(classes) && c < |classes|
    ensures classes[c].name !in ClassNames(classes)[c + 1..]
    ensures ClassNames(classes)[c..] == [classes[c].name] + ClassNames(classes)[c + 1..]
  {
    var ns := ClassNames(classes);
    forall d | c + 1 <= d < |classes|
      ensures ns[d] != classes[c].name
    {
    }
  }

  lemma {:induction false} AllocateFromCodes(classes: seq<ClassRef>, names: seq<string>, c: nat)
    requires 1 <= |classes| && c <= |classes| && TotalStudents <= |names|
    requires DistinctClassNames(classes)
    ensures DistinctCodes(AllocateFrom(classes, names, c))
    ensures CodesWithin(AllocateFrom(classes, names, c), ClassNames(classes)[c..])
    decreases |classes| - c
  {
    var k := |classes|;
    if c < k {
      AllocationTotal(TotalStudents, k);
      OffsetMonotone(QuotaFor(classes), c + 1, k);
      var start := Offset(QuotaFor(classes), c);
      var size := ClassSize(QuotaFor(classes), c);
      var block: seq<StudentRow> := ClassBlock(classes[c], names, start, size);
      var rest: seq<StudentRow> := AllocateFrom(classes, names, c + 1);
      assert AllocateFrom(classes, names, c) == block + rest;
      AllocateFromCodes(classes, names, c + 1);
      BlockCodes(classes[c], names, start, size);
      NameNotLater(classes, c);
      CodesStep(classes[c].name, block, rest, ClassNames(classes)[c + 1..]);
    }
  }

  /** With distinct class names, no two students of the batch share a code, so
      `INSERT OR IGNORE` drops none of them. */
  lemma AllocateDistinctCodes(classes: seq<ClassRef>, names: seq<string>)
    requires 1 <= |classes| && TotalStudents <= |names| && DistinctClassNames(classes)
    ensures DistinctCodes(Allocate(classes, names))
  {
    AllocateFromCodes(classes, names, 0);
  }

  /** The row `student_idx` of the batch, read off class `c`'s block. */
  lemma AllocateAt(classes: seq<ClassRef>, names: seq<string>, c: nat, i: nat)
    requires 1 <= |classes| && c < |classes| && TotalStudents <= |names|
    requires i < ClassSize(QuotaFor(classes), c)
    ensures Offset(QuotaFor(classes), c) + i < |Allocate(classes, names)|
    ensures Offset(QuotaFor(classes), c) + i < |names|
    ensures Allocate(classes, names)[Offset(QuotaFor(classes), c) + i]
      == StudentRow(StudentCode(classes[c].name, i + 1), names[Offset(QuotaFor(classes), c) + i], classes[c].id)
  {
    var lo := Offset(QuotaFor(classes), c);
    var n := ClassSize(QuotaFor(classes), c);
    AllocateBlock(classes, names, c);
    var block := ClassBlock(classes[c], names, lo, n);
    SliceIndex(Allocate(classes, names), lo, block, i);
    assert block[i] == StudentRow(StudentCode(classes[c].name, i + 1), names[lo + i], classes[c].id);
  }

  lemma SliceIndex<T>(s: seq<T>, lo: nat, x: seq<T>, i: nat)
    requires lo + |x| <= |s| && s[lo..lo + |x|] == x && i < |x|
    ensures s[lo + i] == x[i]
  {
    assert s[lo..lo + |x|][i] == s[lo + i];
  }

  /** The code column of a batch. */
  function Codes(rows: seq<StudentRow>): (codes: seq<string>)
    ensures |codes| == |rows|
    ensures forall j | 0 <= j < |rows| :: codes[j] == rows[j].code
  {
    seq(|rows|, j requires 0 <= j < |rows| => rows[j].code)
  }

  lemma CodesConcat(a: seq<StudentRow>, b: seq<StudentRow>)
    ensures Codes(a + b) == Codes(a) + Codes(b)
  {
  }

  /** Codes depend on the classes only, never on the names drawn. */
  lemma {:induction false} AllocateFromCodesAgree(classes: seq<ClassRef>, n1: seq<string>, n2: seq<string>, c: nat)
    requires 1 <= |classes| && c <= |classes| && TotalStudents <= |n1| && TotalStudents <= |n2|
    ensures Codes(AllocateFrom(classes, n1, c)) == Codes(AllocateFrom(classes, n2, c))
    decreases |classes| - c
  {
    if c < |classes| {
      AllocateFromCodesAgree(classes, n1, n2, c + 1);
      CodesConcat(Block(classes, n1, c), AllocateFrom(classes, n1, c + 1));
      CodesConcat(Block(classes, n2, c), AllocateFrom(classes, n2, c + 1));
      assert Codes(Block(classes, n1, c)) == Codes(Block(classes, n2, c));
    }
  }

  /** Two runs of the allocation over the same classes hand out the same codes
      in the same order, whatever names they were given. */
  lemma AllocateCodesAgree(classes: seq<ClassRef>, n1: seq<string>, n2: seq<string>)
    requires 1 <= |classes| && TotalStudents <= |n1| && TotalStudents <= |n2|
    ensures Codes(Allocate(classes, n1)) == Codes(Allocate(classes, n2))
  {
    AllocateFromCodesAgree(classes, n1, n2, 0);
  }

  lemma TakeOneMore<T>(s: seq<T>, n: nat)
    requires n < |s|
    ensures s[..n + 1] == s[..n] + [s[n]]
  {
  }

  /** The two nested loops of `insert_student_data`, which build the batch one
      row at a time, produce exactly `Allocate`. */
  method BuildStudentRows(classes: seq<ClassRef>, names: seq<string>) returns (data: seq<StudentRow>)
    requires 1 <= |classes| && TotalStudents <= |names|
    ensures data == Allocate(classes, names)
  {
    var k := |classes|;
    var perClass := TotalStudents / k;
    var remainder := TotalStudents % k;
    ghost var qt := QuotaFor(classes);
    ghost var all := Allocate(classes, names);
    AllocationTotal(TotalStudents, k);
    assert perClass == qt.perClass && remainder == qt.remainder;
    data := [];
    var studentIdx := 0;
    var classIdx := 0;
    while classIdx < k
      invariant 0 <= classIdx <= k
      invariant studentIdx == Offset(qt, classIdx) <= |all|
      invariant data == all[..studentIdx]
    {
      var numStudents := perClass + (if classIdx < remainder then 1 else 0);
      OffsetMonotone(qt, classIdx + 1, k);
      var idx := 0;
      while idx < numStudents
        invariant 0 <= idx <= numStudents
        invariant studentIdx == Offset(qt, classIdx) + idx <= |all|
        invariant data == all[..studentIdx]
      {
        AllocateAt(classes, names, classIdx, idx);
        var code := StudentCode(classes[classIdx].name, idx + 1);
        data := data + [StudentRow(code, names[studentIdx], classes[classIdx].id)];
        TakeOneMore(all, studentIdx);
        studentIdx := studentIdx + 1;
        idx := idx + 1;
      }
      classIdx := classIdx + 1;
    }
    assert all[..studentIdx] == all;
  }
}
