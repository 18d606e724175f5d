# Student-feedback sentiment dashboard — a Dafny model of its core

The dashboard stores student feedback sentences in SQLite. Each sentence is
labelled with an aspect and a sentiment and filed under a semester, course,
academic year, class and student. A statistics page then filters and counts
the sentences. This project models the deterministic core of that system as
pure Dafny functions over immutable data and proves what the code promises.

**Database and seeding (`utils.py`)**

- Tables are modelled as sequences of rows in rowid order (`Tables`). Each row
  has an id and the column the schema declares UNIQUE.
- `INSERT OR IGNORE` skips a row that clashes on the key or the id.
  An AUTOINCREMENT insert is given `max id + 1`. SQLite may hand out a larger
  id (see `Tables.NextId` under "## Left out").
- Seeding is modelled step by step (`Seeding`, `SeedFacts`): aspects,
  sentiments, semesters, courses, academic years, classes and students.
- Student allocation (`Students`): 200 students are spread over the classes by
  the `//` / `%` rule. Names are dealt in order. Codes are
  `SV<class><index:03d>`.
- The name generator (`Names`) is modelled over an explicit stream of random
  draws.
- `get_id` and `insert_sentence` (`SentenceStore`) resolve the seven labels
  leniently and append one row.

**Statistics page (`stats_page.py`)**

All of this lives in `Reporting`, with the counting machinery in `Counting` and
`Seqs`:

- the LEFT JOIN view;
- the sidebar options and the five-way `isin` filter;
- the two `value_counts`;
- the cross analysis: its sub-filters, then `groupby(...).size().unstack(fill_value=0)`;
- the trend section;
- the page as a whole: the early return on an empty filter result, and the
  cross and trend sections reading the unfiltered view.

`get_palette_hex` is modelled in `Palette`.

**What stands in for the outside world**

- The random draws of the name generator are the `picks` parameter.
- The shuffled name list is the `names` parameter.
- `np.random.permutation(n)` after the fixed seed is the `perm` parameter.
- The generated UUID is the `id` parameter.
- The seaborn base palette is the `base` parameter. Colours are an opaque type
  parameter.

**Selector lists use the capped option lists**

The selectors of the cross analysis and the trend list "Tất cả" followed by the
**capped** semester and class lists. These are the first eight entries
(stats_page.py:55-56, 158-160, 187-188), not all semesters and classes. So a
semester or class beyond the first eight can never be picked in those
selectors (`Reporting.CappedSelectors`).

## Model

| member | source | states |
|---|---|---|
| Tables.InsertOrIgnore | utils.py:135 | after the insert the row is blocked; the old table is a prefix of the new one; the table grows by exactly one row iff the row clashed with no key and no id, and that row is the one given; well-formedness (unique keys and ids) is preserved |
| Tables.InsertManyOrIgnore | utils.py:143 | existing rows are kept as a prefix; afterwards every given row is blocked; every added row is one of the given rows; unique keys and ids are preserved |
| Tables.InsertManyAuto | utils.py:150 | an AUTOINCREMENT batch keeps the old rows as a prefix and adds at most one row per entry |
| Tables.InsertManyAutoTwice | utils.py:145-178 | running an AUTOINCREMENT seeding batch twice gives the table one run gives |
| Tables.InsertManyBlockedIsNoop | utils.py:135 | a batch whose every row already clashes leaves the table unchanged |
| Tables.InsertManyIdempotent | utils.py:135 | running an `INSERT OR IGNORE` batch twice gives the same table as running it once |
| Tables.InsertManyFresh | utils.py:135 | a batch of rows that clash neither with the table nor with each other is appended whole and in order |
| Tables.InsertAuto | utils.py:150 | afterwards the key is present; a present key leaves the table unchanged; a new key is appended with an id above every id in use |
| Tables.InsertManyAutoCovers | utils.py:150 | after an AUTOINCREMENT batch every key of the batch is in the table |
| Tables.InsertManyAutoKeepsOrder | utils.py:171 | an AUTOINCREMENT batch keeps keys unique and ids increasing in row order, so `ORDER BY id` is row order |
| Tables.InsertManyAutoIdempotent | utils.py:150 | re-inserting keys that were already inserted changes nothing |
| Tables.InsertManyAutoFresh | utils.py:150 | distinct new keys are appended in order with consecutive ids starting at max id + 1 |
| Tables.FromEmpty | utils.py:167 | distinct keys inserted into an empty table get ids 1, 2, … in batch order |
| Tables.NextId | utils.py:150 | the next AUTOINCREMENT id is positive, unused, and above every id in the table |
| Tables.LookupId | utils.py:282-286 | `get_id` gives no id iff no row has the key; otherwise it gives the id of a row with that key, and the only such id when keys are unique |
| Tables.RowById | stats_page.py:43-47 | a join finds no row iff the foreign key is NULL or no row has that id; otherwise it finds a stored row with that id |
| Tables.LookupThenJoin | utils.py:282-286 | in a well-formed table, looking a key up and joining its id back finds a row carrying that key |
| Text.ParseDecimalRoundTrip | utils.py:148 | reading back the decimal text of a number gives the number |
| Text.Pad3 | utils.py:229 | `:03d` gives all digits, at least three of them, exactly three below 1000, and the digits read back as the number |
| Text.Pad3Injective | utils.py:229 | different indices give different `:03d` texts |
| Text.IntToString | utils.py:148 | Python's `str` of an int: the decimal digits, with a leading `-` for negatives |
| Students.QuotaOf | utils.py:217-218 | `students_per_class * k + remainder == 200` and `remainder < k` |
| Students.OffsetClosedForm | utils.py:225-232 | the running `student_idx` at class `c` is `c * per_class + min(c, remainder)` |
| Students.AllocationTotal | utils.py:216-227 | the class sizes add up to exactly the 200 students, for any number of classes k ≥ 1 |
| Students.SizesBalanced | utils.py:217-227 | each class gets `200 // k` or `200 // k + 1` students, the larger iff its index is below `200 % k`; two classes differ by at most one; sizes never increase in class order |
| Students.AllocateSpec | utils.py:224-232 | the batch has 200 rows; row `j` carries `names[j]`, so every name is used once, in order; class `c` owns the contiguous block starting at its offset, with codes `SV<class><i:03d>` for 1-based `i` and its class id |
| Students.AllocateAt | utils.py:226-231 | the `i`-th student of class `c` sits at position offset(c) + i with the code, name and class id the loop gives it |
| Students.CodeClassRoundTrip | utils.py:229 | the class name can be read back out of a student code whose index is below 1000, whatever the name |
| Students.StudentCodeInjective | utils.py:229 | two codes with indices below 1000 are equal only for the same class name and index, whatever the names |
| Students.ClassCodesDiffer | utils.py:228-229 | within one class, different indices give different codes, for any class name |
| Students.AllocateDistinctCodes | utils.py:226-233 | with distinct class names, all 200 codes differ, so no row of the batch is ignored on the key |
| Students.AllocateCodesAgree | utils.py:221-229 | the codes do not depend on which names were drawn |
| Students.BuildStudentRows | utils.py:224-232 | the nested loop builds exactly the allocation above |
| Names.ParseFullName | utils.py:205-208 | a full name splits back into surname, middle part and given name, with or without a middle part |
| Names.FullNameInjective | utils.py:205-208 | two full names are equal iff their three parts are |
| Names.PickNameInjective | utils.py:202-209 | two draws give the same name iff they draw the same three strings |
| Names.GenNames | utils.py:199-210 | it returns iff the draws hold at least `n` distinct names; it then returns a set of exactly `n` names, namely the names of a prefix of the draws |
| Seeding.Range | utils.py:147 | Python's `range(lo, hi)`: `hi - lo` consecutive integers from `lo`, or none |
| Seeding.YearNameInjective | utils.py:165-166 | the name `{s}-{s+1}` of a non-negative start year determines the start year |
| Seeding.SemesterEntries | utils.py:145-150 | two semesters per year in year order: `{y}HK1` (January to May) and `{y}HK2` (August to December) |
| Seeding.AcademicYearEntries | utils.py:163-167 | one entry per start year, in order; each spans its start year and the next; for non-negative start years two entries share a name only when they share the start year, so no year row is lost to the UNIQUE name |
| Seeding.ClassEntries | utils.py:169-178 | an `A` and a `B` class, `K{start-1976}`, per academic year in id order, each tied to that year's id |
| Seeding.ClassRefs | utils.py:214-215 | one `(id, name)` per class row, in row order; every id it lists is a stored class id; when class ids increase in row order (as AUTOINCREMENT leaves them) the list is in `ORDER BY id ASC` order |
| Seeding.InsertAspectData | utils.py:124-135 | only the aspect table changes; its old rows stay as a prefix; afterwards every seeded aspect has its id or name taken; unique ids and names are kept |
| Seeding.InsertSentimentData | utils.py:137-143 | only the sentiment table changes; its old rows stay as a prefix; afterwards every seeded sentiment has its id or label taken; unique ids and labels are kept |
| Seeding.InsertSemesterData | utils.py:145-150 | only the semester table changes; its old rows stay as a prefix; afterwards every semester name of 2020..2025 is present |
| Seeding.InsertCourseData | utils.py:152-161 | only the course table changes; its old rows stay as a prefix; afterwards every seeded course code is present |
| Seeding.InsertAcademicYearData | utils.py:163-167 | only the academic-year table changes; its old rows stay as a prefix; afterwards every year `{s}-{s+1}` for s in 2020..2024 is present |
| Seeding.InsertClassData | utils.py:169-178 | only the class table changes; its old rows stay as a prefix; afterwards every academic year has its `A` and its `B` class |
| Seeding.SeedReference | utils.py:253-259 | the reference seeders leave the student table alone and leave every seeded aspect, sentiment, semester, course and year present, with both classes of every year |
| Seeding.InsertStudentData | utils.py:212-233 | it fails (division by zero) iff there is no class; otherwise only the student table changes, it only grows, and every allocated student code is present afterwards |
| Seeding.SeedReferenceHasClasses | utils.py:258-260 | after the year and class seeders there is always a class, whatever the file held before |
| Seeding.CreateDatabase | utils.py:237-262 | running every seeder in dependency order never hits the zero-class error |
| SeedFacts.SeedReferenceIdempotent | utils.py:254-259 | running the reference seeders a second time changes nothing |
| SeedFacts.SeedReferenceIgnoresStudents | utils.py:254-259 | the reference seeders neither read nor write the student table |
| SeedFacts.CreateDatabaseIdempotent | utils.py:253-260 | running `create_database` again leaves the database as the first run left it, whatever names the second run draws |
| SeedFacts.SemesterNamesDistinct | utils.py:147-149 | the 12 semester names are pairwise distinct, so none is ignored |
| SeedFacts.YearNamesDistinct | utils.py:165-166 | the 5 academic-year names are pairwise distinct |
| SeedFacts.ClassKeysDistinct | utils.py:173-177 | on a fresh file the 10 class keys are pairwise distinct |
| SeedFacts.FreshYearAt | utils.py:165-166 | on a fresh file the academic year at position `i` has id `i + 1`, name `{2020+i}-{2021+i}` and spans `2020+i` to `2021+i` |
| SeedFacts.FreshClassAt | utils.py:173-177 | on a fresh file there are 10 classes, and class `c` is `K{44 + c/2}A` or `…B` by the parity of `c` |
| SeedFacts.FreshClassNamesDiffer | utils.py:176 | the ten fresh class names are pairwise different |
| SeedFacts.FreshClassNamesDistinct | utils.py:176 | the class list read back from a fresh file has distinct names, as the code uniqueness needs |
| SeedFacts.StudentCodesDistinct | utils.py:226-233 | on a fresh file the 200 student codes are pairwise distinct |
| SeedFacts.FreshSizes | utils.py:145-178 | a fresh file gets 12 semesters, 6 courses, 5 academic years and 10 classes |
| SeedFacts.SeedReferenceFresh | utils.py:254-259 | on an empty file each reference table becomes exactly its seed list, in order, with ids from 1 |
| SeedFacts.CreateDatabaseFresh | utils.py:237-260 | on an empty file: 8 aspects, 3 sentiments, 12 semesters, 6 courses, 5 years, 10 classes, 200 students, no sentences, each table exactly its seed rows |
| SentenceStore.ClassIdByName | utils.py:299 | the class lookup by name finds nothing iff no class has the name; otherwise it gives the id of a class with that name |
| SentenceStore.ClassIdByNameUnique | utils.py:299 | when class names are unique the lookup finds the one class with that name |
| SentenceStore.Resolve | utils.py:294-300 | each of the seven foreign keys is NULL exactly when its label is absent from its lookup table; a miss is not an error |
| SentenceStore.InsertSentence | utils.py:302-311 | only the sentence table changes; a used id makes the INSERT fail and leaves the database as it was; otherwise exactly the resolved row is appended |
| SentenceStore.InsertSentenceKeepsKey | utils.py:103 | the sentence id stays a primary key, and the table grows by one row exactly when the generated id is new |
| SentenceStore.InsertSentenceKeepsRows | utils.py:302-311 | existing sentence rows are never rewritten: the old table is a prefix of the new |
| SentenceStore.ResolveJoinsBack | utils.py:294-300 | every resolved key joins back to a row carrying the label it came from |
| SentenceStore.ResolveClassJoinsBack | utils.py:299 | a resolved class key joins back to a class of that name |
| Reporting.NameOf | stats_page.py:43-45 | a joined label is missing iff the foreign key is NULL or dangles; otherwise it is the name of the row with that id |
| Reporting.CourseOf | stats_page.py:40-46 | a course label is missing iff the key is NULL or dangles; otherwise it is `code – name` of that course |
| Reporting.ClassOf | stats_page.py:41-47 | a class label is missing iff the key is NULL or dangles; otherwise it is that class's name |
| Reporting.View | stats_page.py:35-49 | the view has exactly one row per sentence, in table order, each the left join of that sentence |
| Reporting.ViewOf | stats_page.py:35-49 | a view row keeps the sentence text, and each label is missing exactly when its foreign key is NULL or dangles |
| Reporting.CourseLabel | stats_page.py:40 | the course label is the code, then ` – `, then the name, so both parts can be read back |
| Reporting.ViewOfResolved | stats_page.py:35-49 | a sentence filed by `insert_sentence` shows each label exactly when the label was found at insertion, and then shows that label; its course shows as `code – name` of a course with the looked-up code |
| Reporting.InsertThenView | stats_page.py:35-49 | filing a sentence under a new id appends its row to the view and leaves every other row as it was |
| Reporting.Cap8 | stats_page.py:55-56 | `xs[:8]`: the first `min(8, len)` entries |
| Reporting.Options | stats_page.py:53-58 | the sidebar offers exactly the stored aspects, sentiments and `code – name` course labels; semesters and classes are the first `min(8, n)` rows' names, in row order |
| Reporting.GeneralFilter | stats_page.py:92-98 | a view row is kept iff all five of its labels are present and selected |
| Reporting.GeneralFilterOrdered | stats_page.py:92-98 | the kept rows are a subsequence of the view, and filtering distributes over concatenation |
| Reporting.GeneralFilterDropsMissing | stats_page.py:92-98 | no kept row has a missing label |
| Reporting.GeneralFilterEmptySelection | stats_page.py:92-98 | an empty selection in any one column empties the result |
| Reporting.DefaultSelection | stats_page.py:60-64 | with the default selection a sentence shows iff its aspect, sentiment and course resolve and its semester and class are among the first eight |
| Reporting.Summarize | stats_page.py:102-105 | the total shown is always the number of kept rows, so 0 before the warning; the warning shows iff no row was kept; otherwise the two counts follow |
| Reporting.SummaryTotals | stats_page.py:111-112 | after the filter the sentiment counts and the aspect counts each add up to the number of kept rows, and each count is that label's number of rows |
| Reporting.SelectorChoices | stats_page.py:158-160 | the first selector entry means no filter, and entry `k` filters on option `k - 1` |
| Reporting.OfferedChoice | stats_page.py:158-160 | a selector value is the placeholder or one of the listed options |
| Reporting.SubFilter | stats_page.py:163-165 | a row is kept iff the choice is "Tất cả" or the row's label equals the choice; a missing label never matches |
| Reporting.SubFilterAll | stats_page.py:163 | "Tất cả" leaves the rows unchanged |
| Reporting.CrossFilter | stats_page.py:162-165 | `df2` keeps a row of the view iff the row matches all three cross selectors |
| Reporting.CrossFilterConjunction | stats_page.py:162-165 | the three sub-filters in sequence equal one filter on their conjunction |
| Reporting.KeyPairs | stats_page.py:169 | `groupby` sees exactly the rows whose chosen label and sentiment are both present, each as its pair of labels |
| Reporting.CrossAnalysis | stats_page.py:169-172 | the "not enough data" note shows iff no row has both labels; otherwise the matrix cells add up to the number of such rows |
| Reporting.TrendRows | stats_page.py:191-194 | a row is kept iff it passes the course and class selectors and has the chosen aspect |
| Reporting.Trend | stats_page.py:196-211 | "no trend data" iff no row is left; a chart iff rows are left and the semester-by-sentiment table has two or more rows |
| Reporting.SemesterRows | stats_page.py:199-200 | the semester-by-sentiment table has two or more rows iff two kept rows show different semesters, each with a sentiment |
| Reporting.TrendNeedsTwoSemesters | stats_page.py:196-211 | the chart is drawn iff two different semesters each appear with a sentiment; "too few semesters" iff rows are left but not two such semesters |
| Reporting.StatsPage | stats_page.py:92-105 | the page stops at the warning, with a total of 0, iff the general filter keeps no row; otherwise it shows all three sections, and the summary total is the number of kept rows |
| Reporting.SectionsIgnoreSidebar | stats_page.py:162-194 | past the warning, the cross and trend sections are the same whatever the sidebar selection |
| Reporting.CappedSelectors | stats_page.py:55-56 | with the selector values the page offers (lines 158-160 and 187-188), a semester or class selector other than "Tất cả" keeps only rows whose label is among the first eight, in the cross analysis and in the trend |
| Reporting.CrossSeesWholeView | stats_page.py:162-172 | the cross analysis counts every sentence that matches the three cross selectors and has both labels, including sentences the sidebar hides |
| Counting.CountPresent | stats_page.py:111 | dropping missing labels keeps the count of every present label |
| Counting.ValueCounts | stats_page.py:111-112 | one entry per distinct present label, no label twice, every present label listed, each count that label's number of rows and positive |
| Counting.ValueCountsTotal | stats_page.py:111-112 | the counts add up to the number of rows with a present label |
| Counting.CrossTab | stats_page.py:169 | every pair's labels are a row and a column key; every row (column) key is the first (second) label of some pair; no key repeats; the matrix is a full rectangle whose cells are the pair counts, zero where a pair never occurs |
| Counting.CrossTabTotal | stats_page.py:169 | the cells add up to the number of pairs |
| Counting.CrossTabRowNotZero | stats_page.py:169 | every row of the matrix has a nonzero cell |
| Counting.CrossTabColumnNotZero | stats_page.py:169 | every column of the matrix has a nonzero cell |
| Counting.CrossTabTwoRows | stats_page.py:199-200 | the matrix has two or more rows iff two pairs have different first labels |
| Counting.CrossTabEmpty | stats_page.py:171-172 | the matrix is empty iff there are no pairs |
| Seqs.Filter | stats_page.py:92-98 | a boolean mask keeps the rows it accepts and only those, never more rows than given |
| Seqs.FilterIsSubsequence | stats_page.py:92-98 | a mask keeps relative order |
| Seqs.FilterFilter | stats_page.py:162-165 | two masks applied in turn are one mask on their conjunction |
| Seqs.Distinct | stats_page.py:169 | the distinct values, each once, exactly those of the input |
| Palette.GetPalette | stats_page.py:12-24 | it fails (division by zero) iff the base is empty and `n > 0`; otherwise it gives exactly `n` colours, the first `n` base colours when they suffice, else colour `i` is base colour `perm[i] mod len(base)` |
| Palette.RepeatAt | stats_page.py:19-20 | `(base * k)[i]` is `base[i mod len(base)]` |
| Palette.GatherPermuted | stats_page.py:22-23 | indexing through two index lists that are permutations of each other gives the same colours with the same multiplicities |
| Palette.ShuffledCycle | stats_page.py:19-23 | a palette longer than the base has the same colours, with the same multiplicities, as the base cycled to length `n` |
| Palette.EveryColourUsed | stats_page.py:19-23 | every base colour appears in a palette longer than the base |

## Left out

- Streamlit widgets, CSS injection, page layout and session state (app.py, setting_page.py, stats_page.py:51-89): presentation only.
- Charts, pie percentages, radar angles and `to_hex`: floating point and plotting-library internals. Colours are an opaque type.
- `get_predictions` (utils.py:266-280): an HTTP call to an external service.
- analysis_page.py (batch loop, Stop button, progress bar): control flow driven by the UI.
- Real SQLite: connections, commits, `CREATE TABLE`, the failed-connection branch of `create_database`, and how `run_sql` reports errors. The keyed-table model replaces them. A failed INSERT is modelled as "nothing changes".
- `random.choice`, `random.shuffle`, `np.random.permutation` and `uuid4`: these are parameters. The permutation is required to be a permutation of `0..n-1`, which is what numpy guarantees.
- Names.GenNames: consumes a finite stream of draws and returns `None` when the stream runs out first. The source would keep drawing forever when `n` exceeds the 16000 distinct names (a rather theoretical case). It returns a set; the order `list(set)` gives does not matter because the list is shuffled next, and the shuffled list is the `names` parameter of the allocation.
- Counting.ValueCounts: lists labels in first-occurrence order; the descending-count order of `value_counts` is not modelled.
- Counting.CrossTab: keys come in first-occurrence order; the sorted key order of `groupby` is not modelled. Only the counts and key sets are stated.
- Tables.NextId: an AUTOINCREMENT insert gets `max id + 1`. SQLite takes the larger of the max rowid and the `sqlite_sequence` counter, and an insert ignored after the counter moved can leave a gap. So "consecutive ids from max id + 1" (InsertManyAutoFresh, FromEmpty) is exact only for a table that never saw such a gap. In this program no new key is inserted after an ignored one, so the stated results hold for the flows it runs.
- Reporting.View: the view query has no `ORDER BY`. The model assumes the rows come in sentence rowid order, which is what SQLite does for this plan but does not promise.
- Reporting.Options: `get_lists` runs `SELECT name` without `ORDER BY`, so its order is up to the SQLite engine; it is modelled as row order.
- SentenceStore.ClassIdByName: classes are unique only on (name, academic year), so `get_id` by name alone may match several rows. SQLite then returns one of them, unspecified; the model takes the first in row order and proves uniqueness only when names are unique.
- The trend selector's aspect is a parameter. An empty aspect list, where the select box yields `None`, is not modelled.
- The `melt` to long form before plotting is not modelled; it only reshapes the matrix for the chart.
