/** An SQLite table as the program uses it: rows in insertion (rowid) order,
    an integer primary key, and one UNIQUE column (or column pair) that
    `INSERT OR IGNORE` consults. */
module Tables {
  import opened Wrappers

  /** One stored row: its primary key `id`, its UNIQUE value `key`, and the
      remaining columns. */
  datatype Row<K, P> = Row(id: int, key: K, payload: P)

  type Table<K, P> = seq<Row<K, P>>

  predicate HasKey<K(==), P>(t: Table<K, P>, k: K) {
    exists i | 0 <= i < |t| :: t[i].key == k
  }

  predicate HasId<K(==), P>(t: Table<K, P>, id: int) {
    exists i | 0 <= i < |t| :: t[i].id == id
  }

  /** `INSERT OR IGNORE` skips a row that clashes with the primary key or with
      the UNIQUE constraint. */
  predicate Blocked<K(==), P>(t: Table<K, P>, r: Row<K, P>) {
    HasKey(t, r.key) || HasId(t, r.id)
  }

  predicate UniqueKeys<K(==), P>(t: Table<K, P>) {
    forall i, j | 0 <= i < j < |t| :: t[i].key != t[j].key
  }

  predicate UniqueIds<K(==), P>(t: Table<K, P>) {
    forall i, j | 0 <= i < j < |t| :: t[i].id != t[j].id
  }

  /** What the two constraints guarantee of every stored table. */
  predicate WellFormed<K(==), P>(t: Table<K, P>) {
    UniqueKeys(t) && UniqueIds(t)
  }

  /** Ids handed out by AUTOINCREMENT grow with insertion order. */
  predicate IdsIncreasing<K(==), P>(t: Table<K, P>) {
    forall i, j | 0 <= i < j < |t| :: t[i].id < t[j].id
  }

  /** The largest id in use, 0 for an empty table. */
  function MaxId<K(==), P>(t: Table<K, P>): (m: int)
    ensures 0 <= m
    ensures forall i | 0 <= i < |t| :: t[i].id <= m
  {
    if t == [] then 0
    else
      var m := MaxId(t[..|t| - 1]);
      if t[|t| - 1].id > m then t[|t| - 1].id else m
  }

  /** The id AUTOINCREMENT assigns to the next row (rows are never deleted). */
  function NextId<K(==), P>(t: Table<K, P>): (id: int)
    ensures 1 <= id && !HasId(t, id)
    ensures forall i | 0 <= i < |t| :: t[i].id < id
  {
    MaxId(t) + 1
  }

  lemma MaxIdAppend<K, P>(t: Table<K, P>, r: Row<K, P>)
    ensures MaxId(t + [r]) == if r.id > MaxId(t) then r.id else MaxId(t)
  {
    assert (t + [r])[..|t|] == t;
  }

  /** A row clashing with neither the table nor the appended row does not clash
      with their concatenation. */
  lemma AppendKeepsUnblocked<K, P>(t: Table<K, P>, r0: Row<K, P>, r: Row<K, P>)
    requires !Blocked(t, r) && r.key != r0.key && r.id != r0.id
    ensures !Blocked(t + [r0], r)
  {
  }

  /** A longer table that starts with `t` keeps every key and id of `t`. */
  lemma ExtensionKeepsRows<K, P>(t: Table<K, P>, t': Table<K, P>, r: Row<K, P>)
    requires |t| <= |t'| && t'[..|t|] == t
    ensures HasKey(t, r.key) ==> HasKey(t', r.key)
    ensures HasId(t, r.id) ==> HasId(t', r.id)
  {
    if HasKey(t, r.key) {
      var i :| 0 <= i < |t| && t[i].key == r.key;
      assert t'[i] == t[i];
    }
    if HasId(t, r.id) {
      var i :| 0 <= i < |t| && t[i].id == r.id;
      assert t'[i] == t[i];
    }
  }

  /** `INSERT OR IGNORE` of one row: appended unless its id or key is taken. */
  function InsertOrIgnore<K(==), P>(t: Table<K, P>, r: Row<K, P>): (t': Table<K, P>)
    ensures Blocked(t', r)
    ensures |t| <= |t'| <= |t| + 1 && t'[..|t|] == t
    ensures |t'| == |t| + 1 <==> !Blocked(t, r)
    ensures |t'| == |t| + 1 ==> t'[|t|] == r
    ensures WellFormed(t) ==> WellFormed(t')
  {
    if Blocked(t, r) then t
    else
      var t' := t + [r];
      assert t'[|t|] == r;
      t'
  }

  /** `executemany("INSERT OR IGNORE ...", rows)`: the rows one after another. */
  function InsertManyOrIgnore<K(==), P>(t: Table<K, P>, rows: seq<Row<K, P>>): (t': Table<K, P>)
    ensures |t| <= |t'| && t'[..|t|] == t
    ensures forall r | r in rows :: Blocked(t', r)
    ensures forall i | |t| <= i < |t'| :: t'[i] in rows
    ensures WellFormed(t) ==> WellFormed(t')
    decreases |rows|
  {
    if rows == [] then t
    else
      var t1 := InsertOrIgnore(t, rows[0]);
      var t' := InsertManyOrIgnore(t1, rows[1..]);
      ExtensionKeepsRows(t1, t', rows[0]);
      assert forall r | r in rows :: r == rows[0] || r in rows[1..];
      t'
  }

  /** After the batch every row of it is blocked, by position. */
  lemma InsertManyBlocksEach<K, P>(t: Table<K, P>, rows: seq<Row<K, P>>)
    ensures forall k | 0 <= k < |rows| :: Blocked(InsertManyOrIgnore(t, rows), rows[k])
  {
    assert forall k | 0 <= k < |rows| :: rows[k] in rows;
  }

  /** Inserting rows that are all already blocked changes nothing. */
  lemma {:induction false} InsertManyBlockedIsNoop<K, P>(t: Table<K, P>, rows: seq<Row<K, P>>)
    requires forall r | r in rows :: Blocked(t, r)
    ensures InsertManyOrIgnore(t, rows) == t
    decreases |rows|
  {
    if rows != [] {
      assert rows[0] in rows;
      assert forall r | r in rows[1..] :: r in rows;
      InsertManyBlockedIsNoop(t, rows[1..]);
    }
  }

  /** Running the same `INSERT OR IGNORE` batch twice equals running it once. */
  lemma InsertManyIdempotent<K, P>(t: Table<K, P>, rows: seq<Row<K, P>>)
    ensures InsertManyOrIgnore(InsertManyOrIgnore(t, rows), rows) == InsertManyOrIgnore(t, rows)
  {
    InsertManyBlockedIsNoop(InsertManyOrIgnore(t, rows), rows);
  }

  predicate DistinctRows<K(==), P>(rows: seq<Row<K, P>>) {
    forall i, j | 0 <= i < j < |rows| :: rows[i].key != rows[j].key && rows[i].id != rows[j].id
  }

  /** Rows that clash neither with the table nor with each other are all stored, in order. */
  lemma {:induction false} InsertManyFresh<K, P>(t: Table<K, P>, rows: seq<Row<K, P>>)
    requires DistinctRows(rows)
    requires forall r | r in rows :: !Blocked(t, r)
    ensures InsertManyOrIgnore(t, rows) == t + rows
    decreases |rows|
  {
    if rows != [] {
      var t1 := t + [rows[0]];
      assert rows[0] in rows;
      assert InsertOrIgnore(t, rows[0]) == t1;
      forall k | 1 <= k < |rows|
        ensures !Blocked(t1, rows[k])
      {
        assert rows[k] in rows;
        AppendKeepsUnblocked(t, rows[0], rows[k]);
      }
      assert forall r | r in rows[1..] :: exists k | 1 <= k < |rows| :: r == rows[k];
      InsertManyFresh(t1, rows[1..]);
      AppendHeadTail(t, rows);
    }
  }

  /** `INSERT OR IGNORE` into an AUTOINCREMENT table: the id is the next free one,
      so only the UNIQUE value can make the row be skipped. */
  function InsertAuto<K(==), P>(t: Table<K, P>, k: K, p: P): (t': Table<K, P>)
    ensures HasKey(t', k)
    ensures HasKey(t, k) ==> t' == t
    ensures !HasKey(t, k) ==> t' == t + [Row(NextId(t), k, p)]
  {
    InsertOrIgnore(t, Row(NextId(t), k, p))
  }

  /** `executemany` of `INSERT OR IGNORE` into an AUTOINCREMENT table. */
  function InsertManyAuto<K(==), P>(t: Table<K, P>, vals: seq<(K, P)>): (t': Table<K, P>)
    ensures |t| <= |t'| <= |t| + |vals| && t'[..|t|] == t
    decreases |vals|
  {
    if vals == [] then t
    else
      var t1 := InsertAuto(t, vals[0].0, vals[0].1);
      var t' := InsertManyAuto(t1, vals[1..]);
      assert forall k | 0 <= k < |vals| - 1 :: vals[1..][k] == vals[k + 1];
      t'
  }

  /** After the batch every value's key is in the table, inserted now or before. */
  lemma {:induction false} InsertManyAutoCovers<K, P>(t: Table<K, P>, vals: seq<(K, P)>)
    ensures forall i | 0 <= i < |vals| :: HasKey(InsertManyAuto(t, vals), vals[i].0)
    decreases |vals|
  {
    if vals != [] {
      var t1 := InsertAuto(t, vals[0].0, vals[0].1);
      var t' := InsertManyAuto(t1, vals[1..]);
      InsertManyAutoCovers(t1, vals[1..]);
      ExtensionKeepsRows(t1, t', Row(0, vals[0].0, vals[0].1));
      assert forall i | 1 <= i < |vals| :: vals[i] == vals[1..][i - 1];
    }
  }

  /** AUTOINCREMENT inserts keep the UNIQUE column unique and the ids growing
      with row order, so `ORDER BY id` is row order. */
  lemma {:induction false} InsertManyAutoKeepsOrder<K, P>(t: Table<K, P>, vals: seq<(K, P)>)
    ensures UniqueKeys(t) ==> UniqueKeys(InsertManyAuto(t, vals))
    ensures IdsIncreasing(t) ==> IdsIncreasing(InsertManyAuto(t, vals))
    decreases |vals|
  {
    if vals != [] {
      var t1 := InsertAuto(t, vals[0].0, vals[0].1);
      InsertManyAutoKeepsOrder(t1, vals[1..]);
      assert UniqueKeys(t) ==> UniqueKeys(t1);
    }
  }

  /** Values whose keys are all present already are all skipped. */
  lemma {:induction false} InsertManyAutoPresentIsNoop<K, P>(t: Table<K, P>, vals: seq<(K, P)>)
    requires forall i | 0 <= i < |vals| :: HasKey(t, vals[i].0)
    ensures InsertManyAuto(t, vals) == t
    decreases |vals|
  {
    if vals != [] {
      assert forall i | 0 <= i < |vals| - 1 :: vals[1..][i] == vals[i + 1];
      InsertManyAutoPresentIsNoop(t, vals[1..]);
    }
  }

  /** Running the same AUTOINCREMENT batch twice equals running it once. */
  lemma InsertManyAutoTwice<K, P>(t: Table<K, P>, vals: seq<(K, P)>)
    ensures InsertManyAuto(InsertManyAuto(t, vals), vals) == InsertManyAuto(t, vals)
  {
    InsertManyAutoCovers(t, vals);
    InsertManyAutoPresentIsNoop(InsertManyAuto(t, vals), vals);
  }

  /** Re-running a seeding batch, even with other payloads for the same keys,
      leaves the table as the first run left it. */
  lemma InsertManyAutoIdempotent<K, P>(t: Table<K, P>, vals: seq<(K, P)>, again: seq<(K, P)>)
    requires forall i | 0 <= i < |again| :: exists j | 0 <= j < |vals| :: vals[j].0 == again[i].0
    ensures InsertManyAuto(InsertManyAuto(t, vals), again) == InsertManyAuto(t, vals)
  {
    InsertManyAutoCovers(t, vals);
    InsertManyAutoPresentIsNoop(InsertManyAuto(t, vals), again);
  }

  predicate DistinctKeys<K(==), P>(vals: seq<(K, P)>) {
    forall i, j | 0 <= i < j < |vals| :: vals[i].0 != vals[j].0
  }

  /** The rows AUTOINCREMENT builds for `vals` when none is skipped. */
  function AutoRows<K, P>(first: int, vals: seq<(K, P)>): (rows: seq<Row<K, P>>)
    ensures |rows| == |vals|
    decreases |vals|
  {
    if vals == [] then [] else [Row(first, vals[0].0, vals[0].1)] + AutoRows(first + 1, vals[1..])
  }

  lemma {:induction false} AutoRowsAt<K, P>(first: int, vals: seq<(K, P)>, i: nat)
    requires i < |vals|
    ensures AutoRows(first, vals)[i] == Row(first + i, vals[i].0, vals[i].1)
    decreases i
  {
    if i > 0 {
      AutoRowsAt(first + 1, vals[1..], i - 1);
    }
  }

  lemma AppendAssoc<T>(a: seq<T>, b: seq<T>, c: seq<T>)
    ensures (a + b) + c == a + (b + c)
  {
  }

  lemma AppendHeadTail<T>(t: seq<T>, s: seq<T>)
    requires |s| > 0
    ensures (t + [s[0]]) + s[1..] == t + s
  {
    assert s == [s[0]] + s[1..];
  }

  lemma AppendKeepsKeyAbsent<K, P>(t: Table<K, P>, r0: Row<K, P>, k: K)
    requires !HasKey(t, k) && k != r0.key
    ensures !HasKey(t + [r0], k)
  {
  }

  /** The keys of `vals` are distinct and none is in `t`. */
  predicate FreshKeys<K(==), P>(t: Table<K, P>, vals: seq<(K, P)>) {
    DistinctKeys(vals) && forall i | 0 <= i < |vals| :: !HasKey(t, vals[i].0)
  }

  lemma FreshKeysTail<K, P>(t: Table<K, P>, vals: seq<(K, P)>, r: Row<K, P>)
    requires |vals| > 0 && FreshKeys(t, vals) && r.key == vals[0].0
    ensures FreshKeys(t + [r], vals[1..])
  {
    forall i | 0 <= i < |vals| - 1
      ensures !HasKey(t + [r], vals[1..][i].0)
    {
      AppendKeepsKeyAbsent(t, r, vals[i + 1].0);
    }
  }

  /** The inductive step of `InsertManyAutoFresh`, kept apart from its quantified
      preconditions. */
  lemma FreshStep<K, P>(t: Table<K, P>, vals: seq<(K, P)>)
    requires |vals| > 0 && !HasKey(t, vals[0].0)
    requires var t1 := t + [Row(MaxId(t) + 1, vals[0].0, vals[0].1)];
      InsertManyAuto(t1, vals[1..]) == t1 + AutoRows(MaxId(t1) + 1, vals[1..])
    ensures InsertManyAuto(t, vals) == t + AutoRows(MaxId(t) + 1, vals)
  {
    var m := MaxId(t);
    var r := Row(m + 1, vals[0].0, vals[0].1);
    var t1 := t + [r];
    assert InsertAuto(t, vals[0].0, vals[0].1) == t1;
    MaxIdAppend(t, r);
    AppendAssoc(t, [r], AutoRows(m + 2, vals[1..]));
  }

  /** New, pairwise distinct keys are all stored, in order, with consecutive ids. */
  lemma {:induction false} InsertManyAutoFresh<K, P>(t: Table<K, P>, vals: seq<(K, P)>)
    requires FreshKeys(t, vals)
    ensures InsertManyAuto(t, vals) == t + AutoRows(MaxId(t) + 1, vals)
    decreases |vals|
  {
    if vals != [] {
      var r := Row(MaxId(t) + 1, vals[0].0, vals[0].1);
      FreshKeysTail(t, vals, r);
      InsertManyAutoFresh(t + [r], vals[1..]);
      FreshStep(t, vals);
    } else {
      assert t + [] == t;
    }
  }

  /** Distinct keys inserted into an empty AUTOINCREMENT table get ids 1, 2, ... */
  lemma FromEmpty<K, P>(t: Table<K, P>, vals: seq<(K, P)>)
    requires |t| == 0 && DistinctKeys(vals)
    ensures InsertManyAuto(t, vals) == AutoRows(1, vals)
  {
    EmptyFresh(t, vals);
    InsertManyAutoFresh(t, vals);
  }

  lemma EmptyFresh<K, P>(t: Table<K, P>, vals: seq<(K, P)>)
    requires |t| == 0 && DistinctKeys(vals)
    ensures FreshKeys(t, vals) && t + AutoRows(MaxId(t) + 1, vals) == AutoRows(1, vals)
  {
    assert t == [];
  }

  /** The position of the first row holding `k`, if any. */
  function IndexOfKey<K(==), P>(t: Table<K, P>, k: K): (r: Option<nat>)
    ensures r.None? <==> !HasKey(t, k)
    ensures r.Some? ==> r.value < |t| && t[r.value].key == k
    ensures r.Some? ==> forall j | 0 <= j < r.value :: t[j].key != k
  {
    if t == [] then None
    else if t[0].key == k then Some(0)
    else
      match IndexOfKey(t[1..], k)
      case None =>
        assert forall i | 1 <= i < |t| :: t[i] == t[1..][i - 1];
        None
      case Some(i) => Some(i + 1)
  }

  /** `SELECT id FROM table WHERE key = ?` followed by `fetchone()`: the id of
      the first matching row, or NULL when nothing matches. */
  function LookupId<K(==), P>(t: Table<K, P>, k: K): (r: Option<int>)
    ensures r.None? <==> !HasKey(t, k)
    ensures r.Some? ==> exists i | 0 <= i < |t| :: t[i].key == k && t[i].id == r.value
    ensures r.Some? && UniqueKeys(t) ==> forall i | 0 <= i < |t| && t[i].key == k :: t[i].id == r.value
  {
    match IndexOfKey(t, k)
    case None => None
    case Some(i) => Some(t[i].id)
  }

  /** The row a LEFT JOIN on `id` pairs with a (nullable) foreign key. */
  function RowById<K(==), P>(t: Table<K, P>, fk: Option<int>): (r: Option<Row<K, P>>)
    ensures r.None? <==> fk.None? || !HasId(t, fk.value)
    ensures r.Some? ==> r.value in t && r.value.id == fk.value
  {
    match fk
    case None => None
    case Some(id) =>
      if t == [] then None
      else if t[0].id == id then Some(t[0])
      else
        var r := RowById(t[1..], fk);
        assert HasId(t, id) ==> HasId(t[1..], id) by {
          if HasId(t, id) {
            var i :| 0 <= i < |t| && t[i].id == id;
            assert t[1..][i - 1] == t[i];
          }
        }
        r
  }

  /** The UNIQUE column of every row, in row order (`SELECT name FROM table`). */
  function KeyColumn<K(==), P>(t: Table<K, P>): (ks: seq<K>)
    ensures |ks| == |t|
    ensures forall i | 0 <= i < |t| :: ks[i] == t[i].key
  {
    seq(|t|, i requires 0 <= i < |t| => t[i].key)
  }

  /** With unique ids, looking a key up and joining back on the id found
      returns the row that holds the key. */
  lemma LookupThenJoin<K, P>(t: Table<K, P>, k: K)
    requires WellFormed(t) && HasKey(t, k)
    ensures RowById(t, LookupId(t, k)).Some?
    ensures RowById(t, LookupId(t, k)).value.key == k
  {
    var id := LookupId(t, k).value;
    var r := RowById(t, Some(id)).value;
    var i :| 0 <= i < |t| && t[i] == r;
    var j :| 0 <= j < |t| && t[j].key == k && t[j].id == id;
    assert i == j;
  }
}
