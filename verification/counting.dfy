/** pandas counting as the statistics page uses it: `value_counts` on one
    column and `groupby([x, y]).size().unstack(fill_value=0)` on two. Both
    skip nulls. Keys are listed at their first occurrence; the sort orders
    pandas applies to them are not modelled. */
module Counting {
  import opened Wrappers
  import opened Seqs

  /** The non-null entries of a column, in row order. */
  function Present<T(==)>(col: seq<Option<T>>): (p: seq<T>)
    ensures |p| <= |col|
    ensures forall i | 0 <= i < |col| && col[i].Some? :: col[i].value in p
    ensures forall i | 0 <= i < |p| :: Some(p[i]) in col
  {
    if col == [] then [] else (if col[0].Some? then [col[0].value] else []) + Present(col[1..])
  }

  /** A value is counted once for each row that holds it. */
  lemma {:induction false} CountPresent<T>(col: seq<Option<T>>, x: T)
    ensures Count(Present(col), x) == Count(col, Some(x))
    decreases |col|
  {
    if col != [] {
      CountPresent(col[1..], x);
      var p := Present(col);
      if col[0].Some? {
        assert p[0] == col[0].value && p[1..] == Present(col[1..]);
      } else {
        assert p == Present(col[1..]);
      }
    }
  }

  /** A column without nulls loses nothing. */
  lemma {:induction false} PresentAll<T>(col: seq<Option<T>>)
    requires forall i | 0 <= i < |col| :: col[i].Some?
    ensures |Present(col)| == |col|
    decreases |col|
  {
    if col != [] {
      PresentAll(col[1..]);
    }
  }

  function Firsts<R, C>(pairs: seq<(R, C)>): (rs: seq<R>)
    ensures |rs| == |pairs|
    ensures forall i {:trigger rs[i]} | 0 <= i < |pairs| :: rs[i] == pairs[i].0
  {
    seq(|pairs|, i requires 0 <= i < |pairs| => pairs[i].0)
  }

  function Seconds<R, C>(pairs: seq<(R, C)>): (cs: seq<C>)
    ensures |cs| == |pairs|
    ensures forall i {:trigger cs[i]} | 0 <= i < |pairs| :: cs[i] == pairs[i].1
  {
    seq(|pairs|, i requires 0 <= i < |pairs| => pairs[i].1)
  }

  /** The cell keys of row `r`: `(r, cs[0]), (r, cs[1]), ...`. */
  function RowKeys<R, C>(r: R, cs: seq<C>): (ks: seq<(R, C)>)
    ensures |ks| == |cs|
    ensures forall j | 0 <= j < |cs| :: ks[j] == (r, cs[j])
  {
    seq(|cs|, j requires 0 <= j < |cs| => (r, cs[j]))
  }

  /** `Series.value_counts()`: every distinct non-null value with the number of
      rows that hold it. */
  function ValueCounts<T(==)>(col: seq<Option<T>>): (vc: seq<(T, nat)>)
    ensures NoDup(Firsts(vc))
    ensures forall i | 0 <= i < |col| && col[i].Some? :: col[i].value in Firsts(vc)
    ensures forall i | 0 <= i < |vc| :: vc[i].1 == Count(col, Some(vc[i].0)) && vc[i].1 > 0
  {
    var p := Present(col);
    var ks := Distinct(p);
    var vc := seq(|ks|, i requires 0 <= i < |ks| => (ks[i], Count(p, ks[i])));
    assert Firsts(vc) == ks;
    forall i | 0 <= i < |vc|
      ensures vc[i].1 == Count(col, Some(vc[i].0)) && vc[i].1 > 0
    {
      CountPresent(col, ks[i]);
    }
    vc
  }

  /** The counts add up to the number of non-null entries. */
  lemma ValueCountsTotal<T>(col: seq<Option<T>>)
    ensures Sum(Seconds(ValueCounts(col))) == |Present(col)|
  {
    var p := Present(col);
    var ks := Distinct(p);
    assert Seconds(ValueCounts(col)) == CountsOf(p, ks);
    SumCountsOf(p, ks);
    SumCountsAll(p, ks);
  }

  /** Every cell key of the rectangle `rs` x `cs`, row by row. */
  function Product<R, C>(rs: seq<R>, cs: seq<C>): seq<(R, C)> {
    if rs == [] then [] else RowKeys(rs[0], cs) + Product(rs[1..], cs)
  }

  lemma {:induction false} ProductMembers<R, C>(rs: seq<R>, cs: seq<C>, p: (R, C))
    ensures p in Product(rs, cs) <==> p.0 in rs && p.1 in cs
    decreases |rs|
  {
    if rs != [] {
      ProductMembers(rs[1..], cs, p);
      assert p.0 in rs <==> p.0 == rs[0] || p.0 in rs[1..];
      assert p in RowKeys(rs[0], cs) <==> p.0 == rs[0] && p.1 in cs;
    }
  }

  lemma {:induction false} ProductNoDup<R, C>(rs: seq<R>, cs: seq<C>)
    requires NoDup(rs) && NoDup(cs)
    ensures NoDup(Product(rs, cs))
    decreases |rs|
  {
    if rs != [] {
      var tail := rs[1..];
      assert NoDup(tail) by {
        forall i, j | 0 <= i < j < |tail|
          ensures tail[i] != tail[j]
        {
          assert tail[i] == rs[i + 1] && tail[j] == rs[j + 1];
        }
      }
      ProductNoDup(tail, cs);
      var row := RowKeys(rs[0], cs);
      forall i | 0 <= i < |row|
        ensures row[i] !in Product(tail, cs)
      {
        ProductMembers(tail, cs, row[i]);
      }
      NoDupConcat(row, Product(tail, cs));
    }
  }

  /** The count matrix, one row of cells per row key. */
  function Cells<R(==), C(==)>(pairs: seq<(R, C)>, rs: seq<R>, cs: seq<C>): (m: seq<seq<nat>>)
    ensures |m| == |rs|
    ensures forall i | 0 <= i < |rs| :: m[i] == CountsOf(pairs, RowKeys(rs[i], cs))
  {
    if rs == [] then [] else [CountsOf(pairs, RowKeys(rs[0], cs))] + Cells(pairs, rs[1..], cs)
  }

  function Total(m: seq<seq<nat>>): nat {
    if m == [] then 0 else Sum(m[0]) + Total(m[1..])
  }

  lemma {:induction false} TotalCells<R, C>(pairs: seq<(R, C)>, rs: seq<R>, cs: seq<C>)
    ensures Total(Cells(pairs, rs, cs)) == SumCounts(pairs, Product(rs, cs))
    decreases |rs|
  {
    if rs != [] {
      var m := Cells(pairs, rs, cs);
      assert m[1..] == Cells(pairs, rs[1..], cs);
      TotalCells(pairs, rs[1..], cs);
      SumCountsOf(pairs, RowKeys(rs[0], cs));
      SumCountsConcat(pairs, RowKeys(rs[0], cs), Product(rs[1..], cs));
    }
  }

  /** `groupby([x, y]).size().unstack(fill_value=0)` on the pairs whose two
      keys are both non-null: the observed `x` values down, the observed `y`
      values across, a count in every cell. */
  datatype Matrix<R, C> = Matrix(rows: seq<R>, cols: seq<C>, cells: seq<seq<nat>>)

  /** The row keys are the observed first keys, each once, and the column keys
      the observed second keys; every cell counts the pairs holding its row and
      column key, zero when the pair never occurs. */
  function CrossTab<R(==), C(==)>(pairs: seq<(R, C)>): (m: Matrix<R, C>)
    ensures NoDup(m.rows) && NoDup(m.cols)
    ensures forall p | p in pairs :: p.0 in m.rows && p.1 in m.cols
    ensures forall i | 0 <= i < |m.rows| :: exists p | p in pairs :: p.0 == m.rows[i]
    ensures forall j | 0 <= j < |m.cols| :: exists p | p in pairs :: p.1 == m.cols[j]
    ensures |m.cells| == |m.rows|
    ensures forall i | 0 <= i < |m.rows| :: |m.cells[i]| == |m.cols|
    ensures forall i, j | 0 <= i < |m.rows| && 0 <= j < |m.cols| :: m.cells[i][j] == Count(pairs, (m.rows[i], m.cols[j]))
  {
    var rs := Distinct(Firsts(pairs));
    var cs := Distinct(Seconds(pairs));
    var m := Matrix(rs, cs, Cells(pairs, rs, cs));
    CrossTabKeys(pairs, m);
    CrossTabCells(pairs, m);
    m
  }

  /** The keys `CrossTab` promises, for the matrix it builds. */
  lemma CrossTabKeys<R, C>(pairs: seq<(R, C)>, m: Matrix<R, C>)
    requires m.rows == Distinct(Firsts(pairs)) && m.cols == Distinct(Seconds(pairs))
    ensures NoDup(m.rows) && NoDup(m.cols)
    ensures forall p | p in pairs :: p.0 in m.rows && p.1 in m.cols
    ensures forall i | 0 <= i < |m.rows| :: exists p | p in pairs :: p.0 == m.rows[i]
    ensures forall j | 0 <= j < |m.cols| :: exists p | p in pairs :: p.1 == m.cols[j]
  {
    ObservedFirsts(pairs, m.rows);
    ObservedSeconds(pairs, m.cols);
  }

  /** The cells `CrossTab` promises, for the matrix it builds. */
  lemma CrossTabCells<R, C>(pairs: seq<(R, C)>, m: Matrix<R, C>)
    requires m.cells == Cells(pairs, m.rows, m.cols)
    ensures |m.cells| == |m.rows|
    ensures forall i | 0 <= i < |m.rows| :: |m.cells[i]| == |m.cols|
    ensures forall i, j | 0 <= i < |m.rows| && 0 <= j < |m.cols| :: m.cells[i][j] == Count(pairs, (m.rows[i], m.cols[j]))
  {
    CellsCount(pairs, m.rows, m.cols);
  }

  /** `Cells` is a full rectangle of pair counts. */
  lemma CellsCount<R, C>(pairs: seq<(R, C)>, rs: seq<R>, cs: seq<C>)
    ensures |Cells(pairs, rs, cs)| == |rs|
    ensures forall i | 0 <= i < |rs| :: |Cells(pairs, rs, cs)[i]| == |cs|
    ensures forall i, j | 0 <= i < |rs| && 0 <= j < |cs| :: Cells(pairs, rs, cs)[i][j] == Count(pairs, (rs[i], cs[j]))
  {
    var m := Cells(pairs, rs, cs);
    forall i, j | 0 <= i < |rs| && 0 <= j < |cs|
      ensures m[i][j] == Count(pairs, (rs[i], cs[j]))
    {
      assert m[i] == CountsOf(pairs, RowKeys(rs[i], cs));
      assert RowKeys(rs[i], cs)[j] == (rs[i], cs[j]);
    }
  }

  /** Every first key occurs among the distinct ones, and each distinct one
      comes from some pair. */
  lemma ObservedFirsts<R, C>(pairs: seq<(R, C)>, rs: seq<R>)
    requires rs == Distinct(Firsts(pairs))
    ensures forall p | p in pairs :: p.0 in rs
    ensures forall i | 0 <= i < |rs| :: exists p | p in pairs :: p.0 == rs[i]
  {
    var fs := Firsts(pairs);
    forall p | p in pairs
      ensures p.0 in rs
    {
      var k :| 0 <= k < |pairs| && pairs[k] == p;
      assert fs[k] == p.0;
    }
    forall i | 0 <= i < |rs|
      ensures exists p | p in pairs :: p.0 == rs[i]
    {
      assert rs[i] in fs;
      var k :| 0 <= k < |fs| && fs[k] == rs[i];
      assert pairs[k] in pairs && pairs[k].0 == rs[i];
    }
  }

  /** The same for the second keys. */
  lemma ObservedSeconds<R, C>(pairs: seq<(R, C)>, cs: seq<C>)
    requires cs == Distinct(Seconds(pairs))
    ensures forall p | p in pairs :: p.1 in cs
    ensures forall j | 0 <= j < |cs| :: exists p | p in pairs :: p.1 == cs[j]
  {
    var ss := Seconds(pairs);
    forall p | p in pairs
      ensures p.1 in cs
    {
      var k :| 0 <= k < |pairs| && pairs[k] == p;
      assert ss[k] == p.1;
    }
    forall j | 0 <= j < |cs|
      ensures exists p | p in pairs :: p.1 == cs[j]
    {
      assert cs[j] in ss;
      var k :| 0 <= k < |ss| && ss[k] == cs[j];
      assert pairs[k] in pairs && pairs[k].1 == cs[j];
    }
  }

  /** The cells add up to the number of pairs. */
  lemma CrossTabTotal<R, C>(pairs: seq<(R, C)>)
    ensures Total(CrossTab(pairs).cells) == |pairs|
  {
    var m := CrossTab(pairs);
    ProductNoDup(m.rows, m.cols);
    forall p | p in pairs
      ensures p in Product(m.rows, m.cols)
    {
      var k :| 0 <= k < |pairs| && pairs[k] == p;
      assert Firsts(pairs)[k] == p.0 && Seconds(pairs)[k] == p.1;
      ProductMembers(m.rows, m.cols, p);
    }
    TotalCells(pairs, m.rows, m.cols);
    SumCountsAll(pairs, Product(m.rows, m.cols));
  }

  /** Every row of the matrix holds a positive cell. */
  lemma CrossTabRowNotZero<R, C>(pairs: seq<(R, C)>, i: nat)
    requires i < |CrossTab(pairs).rows|
    ensures exists j | 0 <= j < |CrossTab(pairs).cols| :: CrossTab(pairs).cells[i][j] > 0
  {
    var m := CrossTab(pairs);
    var q :| q in pairs && q.0 == m.rows[i];
    var c := q.1;
    assert c in m.cols;
    var j :| 0 <= j < |m.cols| && m.cols[j] == c;
    assert q == (m.rows[i], m.cols[j]);
  }

  /** Every column of the matrix holds a positive cell. */
  lemma CrossTabColumnNotZero<R, C>(pairs: seq<(R, C)>, j: nat)
    requires j < |CrossTab(pairs).cols|
    ensures exists i | 0 <= i < |CrossTab(pairs).rows| :: CrossTab(pairs).cells[i][j] > 0
  {
    var m := CrossTab(pairs);
    var q :| q in pairs && q.1 == m.cols[j];
    var r := q.0;
    assert r in m.rows;
    var i :| 0 <= i < |m.rows| && m.rows[i] == r;
    assert q == (m.rows[i], m.cols[j]);
  }

  /** The matrix has two rows or more exactly when two pairs differ in their
      first key. */
  lemma CrossTabTwoRows<R, C>(pairs: seq<(R, C)>)
    ensures |CrossTab(pairs).rows| > 1 <==> exists i, j | 0 <= i < |pairs| && 0 <= j < |pairs| :: pairs[i].0 != pairs[j].0
  {
    var fs := Firsts(pairs);
    TwoDistinct(fs);
    if exists i, j | 0 <= i < |pairs| && 0 <= j < |pairs| :: pairs[i].0 != pairs[j].0 {
      var i, j :| 0 <= i < |pairs| && 0 <= j < |pairs| && pairs[i].0 != pairs[j].0;
      assert fs[i] != fs[j];
    }
  }

  /** The matrix is empty exactly when no pair survives the null filter. */
  lemma CrossTabEmpty<R, C>(pairs: seq<(R, C)>)
    ensures |CrossTab(pairs).rows| == 0 <==> |pairs| == 0
    ensures |CrossTab(pairs).cols| == 0 <==> |pairs| == 0
  {
    if |pairs| > 0 {
      assert Firsts(pairs)[0] in CrossTab(pairs).rows;
      assert Seconds(pairs)[0] in CrossTab(pairs).cols;
    }
  }
}
