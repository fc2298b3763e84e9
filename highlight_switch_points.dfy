/** The transition detector: scans every column whose header is not protected
    and records an OPEN point where the value goes from 1 to 0 and a CLOSE
    point where it goes from 0 to 1. Cell styling is not modelled. */
module HighlightSwitchPoints {
  import opened Sheet
  import opened HighlightRegistry

  /** The point, if any, that a step from `prev` to the cell at (row, col) produces. */
  function PointAt(g: Grid, col: int, header: Cell, prev: Cell, row: int): seq<Point>
  {
    var cur := CellAt(g, row, col);
    if prev == Num(1 as real) && cur == Num(0 as real) then [Point(row, col, true, header, cur)]
    else if prev == Num(0 as real) && cur == Num(1 as real) then [Point(row, col, false, header, cur)]
    else []
  }

  /** The points of column `col` from `row` to the last row, `prev` being the
      value of the row before. */
  function ColumnPointsFrom(g: Grid, col: int, header: Cell, prev: Cell, row: int): seq<Point>
    decreases MaxRow(g) + 1 - row
  {
    if row > MaxRow(g) then []
    else PointAt(g, col, header, prev, row) + ColumnPointsFrom(g, col, header, CellAt(g, row, col), row + 1)
  }

  /** The points of one column: row 2 only seeds the previous value, the scan
      starts at row 3. */
  function ColumnPoints(g: Grid, col: int): seq<Point>
  {
    ColumnPointsFrom(g, col, Header(g, col), CellAt(g, 2, col), 3)
  }

  /** The points of the unprotected columns from `col` to the last one, column by column. */
  function DetectedFrom(g: Grid, protected: set<string>, col: int): seq<Point>
    decreases MaxColumn(g) + 1 - col
  {
    if col > MaxColumn(g) then []
    else (if IsProtected(Header(g, col), protected) then [] else ColumnPoints(g, col))
         + DetectedFrom(g, protected, col + 1)
  }

  /** Every point the detector records, in the order it records them. */
  function DetectedPoints(g: Grid, protected: set<string>): seq<Point>
  {
    DetectedFrom(g, protected, 1)
  }

  lemma {:induction false} RecordAllAppend(m: map<int, seq<Session>>, a: seq<Point>, b: seq<Point>)
    ensures RecordAll(m, a + b) == RecordAll(RecordAll(m, a), b)
    decreases |a|
  {
    if a != [] {
      assert (a + b)[0] == a[0] && (a + b)[1..] == a[1..] + b;
      RecordAllAppend(Recorded(m, a[0]), a[1..], b);
    } else {
      assert a + b == b;
    }
  }

  lemma RecordAllCons(m: map<int, seq<Session>>, p: Point, rest: seq<Point>)
    ensures RecordAll(m, [p] + rest) == RecordAll(Recorded(m, p), rest)
  {
    assert ([p] + rest)[0] == p && ([p] + rest)[1..] == rest;
  }

  /** Scans the grid and records every transition in the registry. */
  method HighlightSwitchPoints(g: Grid, protected: set<string>, registry: Registry)
    modifies registry
    ensures registry.columns == RecordAll(old(registry.columns), DetectedPoints(g, protected))
  {
    ghost var target := RecordAll(registry.columns, DetectedPoints(g, protected));
    var maxColumn := MaxColumn(g);
    var col := 1;
    while col <= maxColumn
      invariant 1 <= col <= maxColumn + 1
      invariant RecordAll(registry.columns, DetectedFrom(g, protected, col)) == target
    {
      ghost var rest := DetectedFrom(g, protected, col + 1);
      var header := Header(g, col);
      if IsProtected(header, protected) {
        assert DetectedFrom(g, protected, col) == [] + rest == rest;
      } else {
        assert DetectedFrom(g, protected, col) == ColumnPoints(g, col) + rest;
        RecordAllAppend(registry.columns, ColumnPoints(g, col), rest);
        ScanColumn(g, col, header, registry);
      }
      col := col + 1;
    }
  }

  /** The scan of one column: `prev` is seeded from row 2 and rows 3 to the
      last are compared with the row before. */
  method ScanColumn(g: Grid, col: int, header: Cell, registry: Registry)
    requires header == Header(g, col)
    modifies registry
    ensures registry.columns == RecordAll(old(registry.columns), ColumnPoints(g, col))
  {
    ghost var target := RecordAll(registry.columns, ColumnPoints(g, col));
    var maxRow := MaxRow(g);
    var prev := CellAt(g, 2, col);
    var row := 3;
    while row <= maxRow
      invariant 3 <= row
      invariant RecordAll(registry.columns, ColumnPointsFrom(g, col, header, prev, row)) == target
    {
      var cur := CellAt(g, row, col);
      ScanStep(registry.columns, g, col, header, prev, row);
      if prev == Num(1 as real) && cur == Num(0 as real) {
        registry.AddPoint(Point(row, col, true, header, cur));
      } else if prev == Num(0 as real) && cur == Num(1 as real) {
        registry.AddPoint(Point(row, col, false, header, cur));
      }
      prev := cur;
      row := row + 1;
    }
  }

  /** One row of the scan: a 1-to-0 step records an OPEN point, a 0-to-1 step
      a CLOSE point, any other step nothing, before the rest of the column. */
  lemma ScanStep(m: map<int, seq<Session>>, g: Grid, col: int, header: Cell, prev: Cell, row: int)
    requires row <= MaxRow(g)
    ensures var cur := CellAt(g, row, col);
      var rest := ColumnPointsFrom(g, col, header, cur, row + 1);
      && (prev == Num(1 as real) && cur == Num(0 as real) ==>
           RecordAll(m, ColumnPointsFrom(g, col, header, prev, row))
           == RecordAll(Recorded(m, Point(row, col, true, header, cur)), rest))
      && (prev == Num(0 as real) && cur == Num(1 as real) ==>
           RecordAll(m, ColumnPointsFrom(g, col, header, prev, row))
           == RecordAll(Recorded(m, Point(row, col, false, header, cur)), rest))
      && (!(prev == Num(1 as real) && cur == Num(0 as real)) && !(prev == Num(0 as real) && cur == Num(1 as real)) ==>
           RecordAll(m, ColumnPointsFrom(g, col, header, prev, row)) == RecordAll(m, rest))
  {
    var cur := CellAt(g, row, col);
    if prev == Num(1 as real) && cur == Num(0 as real) {
      ScanStepRecords(m, g, col, header, prev, row, Point(row, col, true, header, cur));
    } else if prev == Num(0 as real) && cur == Num(1 as real) {
      ScanStepRecords(m, g, col, header, prev, row, Point(row, col, false, header, cur));
    } else {
      ScanStepQuiet(m, g, col, header, prev, row);
    }
  }

  lemma ScanStepRecords(m: map<int, seq<Session>>, g: Grid, col: int, header: Cell, prev: Cell, row: int, p: Point)
    requires row <= MaxRow(g) && PointAt(g, col, header, prev, row) == [p]
    ensures RecordAll(m, ColumnPointsFrom(g, col, header, prev, row))
         == RecordAll(Recorded(m, p), ColumnPointsFrom(g, col, header, CellAt(g, row, col), row + 1))
  {
    RecordAllCons(m, p, ColumnPointsFrom(g, col, header, CellAt(g, row, col), row + 1));
  }

  lemma ScanStepQuiet(m: map<int, seq<Session>>, g: Grid, col: int, header: Cell, prev: Cell, row: int)
    requires row <= MaxRow(g) && PointAt(g, col, header, prev, row) == []
    ensures RecordAll(m, ColumnPointsFrom(g, col, header, prev, row))
         == RecordAll(m, ColumnPointsFrom(g, col, header, CellAt(g, row, col), row + 1))
  {
    assert [] + ColumnPointsFrom(g, col, header, CellAt(g, row, col), row + 1)
        == ColumnPointsFrom(g, col, header, CellAt(g, row, col), row + 1);
  }

  // ---------------------------------------------------------------------
  // Which points the detector records

  /** The condition under which the scan of column `col` from `row` on
      records `p`: it lies in that column on a row from `row` to the last,
      carries the column's header and the cell's value, and an OPEN sits where
      the value went from 1 to 0, a CLOSE where it went from 0 to 1. */
  ghost predicate ColumnTransition(g: Grid, col: int, row: int, p: Point)
  {
    p.col == col && row <= p.row <= MaxRow(g)
    && p.header == Header(g, col) && p.value == CellAt(g, p.row, col)
    && (if p.isOpen
        then CellAt(g, p.row - 1, col) == Num(1 as real) && p.value == Num(0 as real)
        else CellAt(g, p.row - 1, col) == Num(0 as real) && p.value == Num(1 as real))
  }

  /** The condition under which the detector records `p`: a transition, from
      row 3 on, of an unprotected column of the grid. */
  ghost predicate IsTransition(g: Grid, protected: set<string>, p: Point)
  {
    1 <= p.col <= MaxColumn(g) && !IsProtected(Header(g, p.col), protected)
    && ColumnTransition(g, p.col, 3, p)
  }

  lemma {:induction false} ColumnPointsFromExact(g: Grid, col: int, prev: Cell, row: int, p: Point)
    requires 3 <= row && prev == CellAt(g, row - 1, col)
    ensures p in ColumnPointsFrom(g, col, Header(g, col), prev, row) <==> ColumnTransition(g, col, row, p)
    decreases MaxRow(g) + 1 - row
  {
    if row <= MaxRow(g) {
      ColumnPointsFromExact(g, col, CellAt(g, row, col), row + 1, p);
    }
  }

  /** A point found from column `col` on is one of that column's, when it is
      not protected, or one found from the next column on. */
  lemma DetectedFromMember(g: Grid, protected: set<string>, col: int, p: Point)
    requires col <= MaxColumn(g)
    ensures p in DetectedFrom(g, protected, col) <==>
      (!IsProtected(Header(g, col), protected) && p in ColumnPoints(g, col))
      || p in DetectedFrom(g, protected, col + 1)
  {
    var rest := DetectedFrom(g, protected, col + 1);
    if IsProtected(Header(g, col), protected) {
      assert DetectedFrom(g, protected, col) == [] + rest == rest;
    } else {
      assert p in ColumnPoints(g, col) + rest <==> p in ColumnPoints(g, col) || p in rest;
    }
  }

  lemma {:induction false} DetectedFromExact(g: Grid, protected: set<string>, col: int, p: Point)
    requires 1 <= col
    ensures p in DetectedFrom(g, protected, col) <==> col <= p.col && IsTransition(g, protected, p)
    decreases MaxColumn(g) + 1 - col
  {
    if col <= MaxColumn(g) {
      DetectedFromMember(g, protected, col, p);
      DetectedFromExact(g, protected, col + 1, p);
      ColumnPointsFromExact(g, col, CellAt(g, 2, col), 3, p);
      if p.col != col {
        assert !ColumnTransition(g, col, 3, p);
      }
    }
  }

  /** A point is recorded exactly when it is a transition of an unprotected
      column: 1 to 0 for an OPEN, 0 to 1 for a CLOSE, between rows r - 1 and r
      for 3 <= r <= the last row. Protected columns, the header row and row 2
      never produce a point, and a value other than 0 or 1 never does. */
  lemma DetectedExactly(g: Grid, protected: set<string>, p: Point)
    ensures p in DetectedPoints(g, protected) <==> IsTransition(g, protected, p)
  {
    DetectedFromExact(g, protected, 1, p);
  }

  // ---------------------------------------------------------------------
  // The order in which points are recorded

  lemma {:induction false} ColumnPointsFromBounds(g: Grid, col: int, header: Cell, prev: Cell, row: int)
    ensures forall i :: 0 <= i < |ColumnPointsFrom(g, col, header, prev, row)| ==>
      ColumnPointsFrom(g, col, header, prev, row)[i].col == col
      && row <= ColumnPointsFrom(g, col, header, prev, row)[i].row <= MaxRow(g)
    decreases MaxRow(g) + 1 - row
  {
    if row <= MaxRow(g) {
      ColumnPointsFromBounds(g, col, header, CellAt(g, row, col), row + 1);
    }
  }

  /** Rows strictly increase along `pts`. */
  ghost predicate AscendingRows(pts: seq<Point>)
  {
    forall i, j :: 0 <= i < j < |pts| ==> pts[i].row < pts[j].row
  }

  /** Within a column, rows strictly increase. */
  lemma {:induction false} ColumnPointsFromAscending(g: Grid, col: int, header: Cell, prev: Cell, row: int)
    ensures AscendingRows(ColumnPointsFrom(g, col, header, prev, row))
    decreases MaxRow(g) + 1 - row
  {
    if row <= MaxRow(g) {
      var cur := CellAt(g, row, col);
      ColumnPointsFromAscending(g, col, header, cur, row + 1);
      ColumnPointsFromBounds(g, col, header, cur, row + 1);
      var here := PointAt(g, col, header, prev, row);
      var rest := ColumnPointsFrom(g, col, header, cur, row + 1);
      var pts := here + rest;
      forall i, j | 0 <= i < j < |pts| ensures pts[i].row < pts[j].row {
        if i < |here| {
          assert pts[i].row == row;
          assert pts[j] == rest[j - |here|];
          assert rest[j - |here|].row >= row + 1;
        } else {
          assert pts[i] == rest[i - |here|] && pts[j] == rest[j - |here|];
        }
      }
    }
  }

  /** Lexicographic order on (column, row). */
  predicate Before(p: Point, q: Point)
  {
    p.col < q.col || (p.col == q.col && p.row < q.row)
  }

  /** `pts` is strictly ordered by column, then by row. */
  ghost predicate InScanOrder(pts: seq<Point>)
  {
    forall i, j :: 0 <= i < j < |pts| ==> Before(pts[i], pts[j])
  }

  ghost predicate ColumnsFrom(pts: seq<Point>, col: int)
  {
    forall i :: 0 <= i < |pts| ==> col <= pts[i].col
  }

  /** Points of column `col` in ascending rows, followed by points of later
      columns in scan order, are in scan order. */
  lemma ConcatInScanOrder(here: seq<Point>, rest: seq<Point>, col: int)
    requires forall i :: 0 <= i < |here| ==> here[i].col == col
    requires AscendingRows(here)
    requires ColumnsFrom(rest, col + 1) && InScanOrder(rest)
    ensures ColumnsFrom(here + rest, col) && InScanOrder(here + rest)
  {
    var pts := here + rest;
    forall i | 0 <= i < |pts| ensures col <= pts[i].col {
      if i >= |here| {
        assert pts[i] == rest[i - |here|];
      }
    }
    forall i, j | 0 <= i < j < |pts| ensures Before(pts[i], pts[j]) {
      if j < |here| {
      } else if i < |here| {
        assert pts[j] == rest[j - |here|];
      } else {
        assert pts[i] == rest[i - |here|] && pts[j] == rest[j - |here|];
      }
    }
  }

  lemma {:induction false} DetectedFromOrdered(g: Grid, protected: set<string>, col: int)
    ensures ColumnsFrom(DetectedFrom(g, protected, col), col)
    ensures InScanOrder(DetectedFrom(g, protected, col))
    decreases MaxColumn(g) + 1 - col
  {
    if col <= MaxColumn(g) {
      DetectedFromOrdered(g, protected, col + 1);
      var here := if IsProtected(Header(g, col), protected) then [] else ColumnPoints(g, col);
      ColumnPointsFromBounds(g, col, Header(g, col), CellAt(g, 2, col), 3);
      ColumnPointsFromAscending(g, col, Header(g, col), CellAt(g, 2, col), 3);
      ConcatInScanOrder(here, DetectedFrom(g, protected, col + 1), col);
    }
  }

  /** Points are recorded column by column in ascending column order, and
      within a column in strictly ascending row order. */
  lemma DetectedInOrder(g: Grid, protected: set<string>)
    ensures InScanOrder(DetectedPoints(g, protected))
  {
    DetectedFromOrdered(g, protected, 1);
  }

  // ---------------------------------------------------------------------
  // OPEN and CLOSE alternate on a clean signal

  /** Every cell of the column from `row` to the last row is 0 or 1. */
  ghost predicate Binary(g: Grid, col: int, row: int)
  {
    forall r :: row <= r <= MaxRow(g) ==> CellAt(g, r, col) in {Num(0 as real), Num(1 as real)}
  }

  /** Consecutive points are of opposite kinds. */
  ghost predicate Alternating(pts: seq<Point>)
  {
    forall i :: 0 <= i < |pts| - 1 ==> pts[i].isOpen != pts[i + 1].isOpen
  }

  lemma {:induction false} ColumnPointsFromAlternate(g: Grid, col: int, header: Cell, prev: Cell, row: int)
    requires prev in {Num(0 as real), Num(1 as real)} && Binary(g, col, row)
    ensures var pts := ColumnPointsFrom(g, col, header, prev, row);
      (|pts| > 0 ==> pts[0].isOpen == (prev == Num(1 as real))) && Alternating(pts)
    decreases MaxRow(g) + 1 - row
  {
    if row <= MaxRow(g) {
      var cur := CellAt(g, row, col);
      ColumnPointsFromAlternate(g, col, header, cur, row + 1);
      var here := PointAt(g, col, header, prev, row);
      var rest := ColumnPointsFrom(g, col, header, cur, row + 1);
      var pts := here + rest;
      if here != [] {
        forall i | 0 <= i < |pts| - 1 ensures pts[i].isOpen != pts[i + 1].isOpen {
          if i > 0 {
            assert pts[i] == rest[i - 1] && pts[i + 1] == rest[i];
          }
        }
      } else {
        assert pts == rest;
      }
    }
  }

  /** In a column whose data values are all 0 or 1, the recorded kinds
      strictly alternate, the first being the opposite of the row-2 value. */
  lemma CleanSignalAlternates(g: Grid, col: int)
    requires Binary(g, col, 2)
    ensures var pts := ColumnPoints(g, col);
      (|pts| > 0 && CellAt(g, 2, col) == Num(1 as real) ==> pts[0].isOpen)
      && (|pts| > 0 && CellAt(g, 2, col) == Num(0 as real) ==> !pts[0].isOpen)
      && Alternating(pts)
  {
    if 2 <= MaxRow(g) {
      ColumnPointsFromAlternate(g, col, Header(g, col), CellAt(g, 2, col), 3);
    }
  }

  /** The registry built from a fresh start by the detector pairs every close
      point with an open point on an earlier row, lists each column's
      sessions in ascending open-row order, and attaches no CLOSE point to
      two sessions. */
  lemma DetectedPairsForward(g: Grid, protected: set<string>)
    ensures var m := RecordAll(map[], DetectedPoints(g, protected));
      forall k :: k in m ==> PairedForward(m[k]) && Distinct(m[k])
  {
    var pts := DetectedPoints(g, protected);
    DetectedInOrder(g, protected);
    RecordAllPairedForward(map[], pts);
    RecordAllDistinct(map[], pts);
  }

  /** A value other than 0 or 1 still becomes the previous value: the
      readings 1, 2, 0 record no point, although the column went from 1 to 0. */
  lemma NonBinaryValueResetsTransition()
    ensures ColumnPoints([[Text("S")], [Num(1 as real)], [Num(2 as real)], [Num(0 as real)]], 1) == []
  {
    var g := [[Text("S")], [Num(1 as real)], [Num(2 as real)], [Num(0 as real)]];
    assert CellAt(g, 2, 1) == Num(1 as real) && CellAt(g, 3, 1) == Num(2 as real);
    assert CellAt(g, 4, 1) == Num(0 as real);
    assert ColumnPointsFrom(g, 1, Header(g, 1), Num(2 as real), 4) == [];
  }
}
