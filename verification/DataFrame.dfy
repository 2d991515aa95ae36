/** Data frames and the order-insensitive comparison that check mode relies on. */
module DataFrame {
  import opened Basics
  import opened Sorting

  datatype Cell = Null | Num(n: int) | Text(s: string)

  /** A row maps each column name to its cell. */
  type Row = map<string, Cell>

  datatype Frame = Frame(columns: seq<string>, rows: seq<Row>)

  /** Column names are distinct and every row has exactly those columns. */
  ghost predicate WellFormed(f: Frame) {
    Distinct(f.columns) && forall i :: 0 <= i < |f.rows| ==> HasColumns(f.rows[i], f.columns)
  }

  ghost predicate HasColumns(r: Row, cols: seq<string>) {
    forall c :: c in cols <==> c in r
  }

  /** The sort order of one column, nulls last. */
  predicate CellLe(a: Cell, b: Cell) {
    match (a, b)
    case (_, Null) => true
    case (Null, _) => false
    case (Num(x), Num(y)) => x <= y
    case (Text(x), Text(y)) => TextLe(x, y)
    case (Num(_), Text(_)) => true
    case (Text(_), Num(_)) => false
  }

  lemma CellOrder()
    ensures TotalOrder(CellLe)
  {
    TextOrder();
  }

  lemma NullsLast(c: Cell)
    ensures CellLe(c, Null) && (CellLe(Null, c) ==> c.Null?)
  {
  }

  predicate CellsLe(a: seq<Cell>, b: seq<Cell>) { LexLe(CellLe, a, b) }

  lemma CellsOrder()
    ensures TotalOrder(CellsLe)
  {
    CellOrder();
    forall a, b ensures CellsLe(a, b) || CellsLe(b, a) { LexConnected(CellLe, a, b); }
    forall a, b, c | CellsLe(a, b) && CellsLe(b, c) ensures CellsLe(a, c) { LexTransitive(CellLe, a, b, c); }
    forall a, b | CellsLe(a, b) && CellsLe(b, a) ensures a == b { LexAntisymmetric(CellLe, a, b); }
  }

  /** The cells of a row in the order of cols. */
  function Project(r: Row, cols: seq<string>): seq<Cell> {
    seq(|cols|, i requires 0 <= i < |cols| => if cols[i] in r then r[cols[i]] else Null)
  }

  /** frame.select(cols), as rows of cells. */
  function Select(rows: seq<Row>, cols: seq<string>): (s: seq<seq<Cell>>)
    ensures |s| == |rows|
  {
    seq(|rows|, i requires 0 <= i < |rows| => Project(rows[i], cols))
  }

  /** _data_equals: compare column names, then height, then the sorted rows. */
  predicate DataEquals(existing: Frame, queried: Frame) {
    var cols := Sort(TextLe, existing.columns);
    && Sort(TextLe, queried.columns) == cols
    && |existing.rows| == |queried.rows|
    && Sort(CellsLe, Select(existing.rows, cols)) == Sort(CellsLe, Select(queried.rows, cols))
  }

  lemma ColumnsDecide(a: seq<string>, b: seq<string>)
    requires Distinct(a) && Distinct(b)
    ensures Sort(TextLe, a) == Sort(TextLe, b) <==> forall c :: c in a <==> c in b
  {
    TextOrder();
    SortDecidesBags(TextLe, a, b);
    if multiset(a) == multiset(b) {
      SameElements(a, b);
    }
    if forall c :: c in a <==> c in b {
      forall c ensures multiset(a)[c] == multiset(b)[c] {
        DistinctCounts(a, c);
        DistinctCounts(b, c);
      }
    }
  }

  lemma ProjectInjective(r: Row, q: Row, cols: seq<string>)
    requires HasColumns(r, cols) && HasColumns(q, cols) && Project(r, cols) == Project(q, cols)
    ensures r == q
  {
    forall c | c in r ensures c in q && r[c] == q[c] {
      var i :| 0 <= i < |cols| && cols[i] == c;
      assert Project(r, cols)[i] == Project(q, cols)[i];
    }
  }

  /** Selecting the columns of the rows keeps and reflects their bag. */
  lemma {:induction false} SelectCounts(rows: seq<Row>, cols: seq<string>, r: Row)
    requires HasColumns(r, cols) && forall i :: 0 <= i < |rows| ==> HasColumns(rows[i], cols)
    ensures multiset(Select(rows, cols))[Project(r, cols)] == multiset(rows)[r]
  {
    hide Project, HasColumns;
    if rows == [] {
      assert Select(rows, cols) == [];
    } else {
      var (front, last) := (rows[..|rows| - 1], rows[|rows| - 1]);
      SelectCounts(front, cols, r);
      assert rows == front + [last];
      assert Select(rows, cols) == Select(front, cols) + [Project(last, cols)];
      if Project(last, cols) == Project(r, cols) {
        ProjectInjective(last, r, cols);
      }
    }
  }

  lemma SelectBags(a: seq<Row>, b: seq<Row>, cols: seq<string>)
    requires forall i :: 0 <= i < |a| ==> HasColumns(a[i], cols)
    requires forall i :: 0 <= i < |b| ==> HasColumns(b[i], cols)
    ensures multiset(Select(a, cols)) == multiset(Select(b, cols)) <==> multiset(a) == multiset(b)
  {
    hide Project, HasColumns;
    var (x, y) := (Select(a, cols), Select(b, cols));
    if multiset(x) == multiset(y) {
      forall r ensures multiset(a)[r] == multiset(b)[r] {
        assert r in multiset(a) <==> r in a;
        assert r in multiset(b) <==> r in b;
        if r in a || r in b {
          SelectCounts(a, cols, r);
          SelectCounts(b, cols, r);
        }
      }
    }
    if multiset(a) == multiset(b) {
      forall p ensures multiset(x)[p] == multiset(y)[p] {
        assert p in multiset(x) <==> p in x;
        assert p in multiset(y) <==> p in y;
        if p in x {
          var i :| 0 <= i < |x| && x[i] == p;
          SelectCounts(a, cols, a[i]);
          SelectCounts(b, cols, a[i]);
        } else if p in y {
          var i :| 0 <= i < |y| && y[i] == p;
          SelectCounts(a, cols, b[i]);
          SelectCounts(b, cols, b[i]);
        }
      }
    }
  }

  /** The comparison holds exactly when the frames have one column set and one bag of rows, in whatever order. */
  lemma DataEqualsIsBagEquality(existing: Frame, queried: Frame)
    requires WellFormed(existing) && WellFormed(queried)
    ensures DataEquals(existing, queried) <==>
      (forall c :: c in existing.columns <==> c in queried.columns) && multiset(existing.rows) == multiset(queried.rows)
  {
    hide Select;
    var cols := Sort(TextLe, existing.columns);
    ColumnsDecide(existing.columns, queried.columns);
    if forall c :: c in existing.columns <==> c in queried.columns {
      RowsDecide(existing, queried, cols);
    }
  }

  lemma RowsDecide(existing: Frame, queried: Frame, cols: seq<string>)
    requires WellFormed(existing) && WellFormed(queried) && multiset(cols) == multiset(existing.columns)
    requires forall c :: c in existing.columns <==> c in queried.columns
    ensures |existing.rows| == |queried.rows|
      && Sort(CellsLe, Select(existing.rows, cols)) == Sort(CellsLe, Select(queried.rows, cols))
      <==> multiset(existing.rows) == multiset(queried.rows)
  {
    hide Select, Project;
    SameElements(cols, existing.columns);
    CellsOrder();
    SortDecidesBags(CellsLe, Select(existing.rows, cols), Select(queried.rows, cols));
    SelectBags(existing.rows, queried.rows, cols);
    if multiset(existing.rows) == multiset(queried.rows) {
      SameElements(existing.rows, queried.rows);
    }
  }
}
