/** The event-block extractor: walks, in ascending order, every row that some
    session refers to, writes a projection of each such row, and after every
    completed block of sessions writes a "Differential" row and a blank row.

    The extractor reads a session's open point as its "green" point and its
    close point as its "yellow" point. Cell styling is not modelled. */
module ExtractSwitchEvents {
  import opened Sheet
  import opened HighlightRegistry

  /** The part of the configuration the extractor reads. */
  datatype Config = Config(digitalStartCol: int, pressureCol: int, protectedHeaders: set<string>)

  /** What one run of the extractor works on: the sheet, its configuration
      and the registry's sessions by column. */
  datatype Context = Context(g: Grid, cfg: Config, reg: map<int, seq<Session>>)

  // ---------------------------------------------------------------------
  // What the registry says about rows

  /** The rows of the open ("green") points of a column's sessions. */
  function OpenRows(ss: seq<Session>): set<int>
  {
    if ss == [] then {} else OpenRows(ss[..|ss| - 1]) + {ss[|ss| - 1].open.row}
  }

  /** The rows of the close ("yellow") points of a column's sessions. */
  function CloseRows(ss: seq<Session>): set<int>
  {
    if ss == [] then {}
    else CloseRows(ss[..|ss| - 1])
         + (if ss[|ss| - 1].IsComplete() then {ss[|ss| - 1].close.value.row} else {})
  }

  /** The value recorded at `row` in a column: the points are written open,
      then close, session after session, and the last write wins. */
  function PointValue(ss: seq<Session>, row: int): Option<Cell>
  {
    if ss == [] then None else LastWrite(ss[|ss| - 1], row, PointValue(ss[..|ss| - 1], row))
  }

  /** The value at `row` once session `s` has been written over `earlier`. */
  function LastWrite(s: Session, row: int, earlier: Option<Cell>): Option<Cell>
  {
    if s.IsComplete() && s.close.value.row == row then Some(s.close.value.value)
    else if s.open.row == row then Some(s.open.value)
    else earlier
  }

  /** Every row that some session of the columns `ks` refers to. */
  ghost function RowsOfColumns(m: map<int, seq<Session>>, ks: set<int>): set<int>
  {
    set k, r | k in ks && k in m && r in OpenRows(m[k]) + CloseRows(m[k]) :: r
  }

  /** Every row that some session refers to, by its open or its close point. */
  ghost function EventRowSet(m: map<int, seq<Session>>): set<int>
  {
    RowsOfColumns(m, m.Keys)
  }

  // ---------------------------------------------------------------------
  // Sorting the event rows

  /** A set is empty or has a member. */
  lemma EmptyOrMember(s: set<int>)
    ensures s == {} || exists x :: x in s
  {
    if forall x :: x !in s {
      assert s == {};
    }
  }

  ghost function MinOf(s: set<int>): (m: int)
    requires s != {}
    ensures m in s && forall z :: z in s ==> m <= z
  {
    EmptyOrMember(s);
    var x :| x in s;
    if s == {x} then x
    else
      var y := MinOf(s - {x});
      assert forall z :: z in s ==> z == x || z in s - {x};
      if x <= y then x else y
  }

  /** The members of `s` in ascending order. */
  ghost function SortedRows(s: set<int>): seq<int>
    decreases |s|
  {
    if s == {} then [] else [MinOf(s)] + SortedRows(s - {MinOf(s)})
  }

  // ---------------------------------------------------------------------
  // The projection of an event row

  /** A protected column keeps the sheet's cell; any other column shows the
      value the registry recorded at that row, or stays blank. */
  function ProjectedCell(ctx: Context, row: int, col: int): Cell
  {
    if IsProtected(Header(ctx.g, col), ctx.cfg.protectedHeaders) then CellAt(ctx.g, row, col)
    else match PointValue(Get(ctx.reg, col), row)
      case Some(v) => v
      case None => Blank
  }

  function ProjectedRow(ctx: Context, row: int): seq<Cell>
  {
    seq(MaxColumn(ctx.g), i => ProjectedCell(ctx, row, i + 1))
  }

  // ---------------------------------------------------------------------
  // The differential of a completed block

  /** The pressure reading of a row. The extractor's precondition makes the
      cell numeric at every event row, so the fallback is never used there. */
  function PressureAt(ctx: Context, row: int): real
  {
    match CellAt(ctx.g, row, ctx.cfg.pressureCol)
    case Num(x) => x
    case _ => 0.0
  }

  /** The pressure readings of the rows of `rows` that lie in `sel`, in order. */
  function Pressures(ctx: Context, rows: seq<int>, sel: set<int>): seq<real>
  {
    if rows == [] then []
    else (if rows[0] in sel then [PressureAt(ctx, rows[0])] else []) + Pressures(ctx, rows[1..], sel)
  }

  function Max(xs: seq<real>): (m: real)
    requires xs != []
    ensures m in xs && forall x :: x in xs ==> x <= m
  {
    if |xs| == 1 then xs[0]
    else
      var rest := Max(xs[1..]);
      assert forall x :: x in xs ==> x == xs[0] || x in xs[1..];
      if xs[0] >= rest then xs[0] else rest
  }

  function Min(xs: seq<real>): (m: real)
    requires xs != []
    ensures m in xs && forall x :: x in xs ==> m <= x
  {
    if |xs| == 1 then xs[0]
    else
      var rest := Min(xs[1..]);
      assert forall x :: x in xs ==> x == xs[0] || x in xs[1..];
      if xs[0] <= rest then xs[0] else rest
  }

  predicate IsDigital(ctx: Context, col: int)
  {
    ctx.cfg.digitalStartCol <= col <= MaxColumn(ctx.g)
  }

  /** The cell of the Differential row in column `col`: for a digital column
      with both open and close rows in the block, the highest open-row pressure
      minus the lowest close-row pressure; otherwise the label in column 1
      and blank elsewhere. */
  function DifferentialCell(ctx: Context, rows: seq<int>, col: int): Cell
  {
    var ss := Get(ctx.reg, col);
    var opens := Pressures(ctx, rows, OpenRows(ss));
    var closes := Pressures(ctx, rows, CloseRows(ss));
    if IsDigital(ctx, col) && opens != [] && closes != [] then Num(Max(opens) - Min(closes))
    else if col == 1 then Text("Differential")
    else Blank
  }

  function DifferentialRow(ctx: Context, rows: seq<int>): seq<Cell>
  {
    seq(MaxColumn(ctx.g), i => DifferentialCell(ctx, rows, i + 1))
  }

  // ---------------------------------------------------------------------
  // Event blocks

  /** The block being accumulated: its rows so far, the columns opened in it
      and the opened columns that also closed in it. */
  datatype Block = Block(rows: seq<int>, openCols: set<int>, closedCols: set<int>)

  const EmptyBlock := Block([], {}, {})

  /** The digital columns with an open point at `row`. */
  ghost function OpenedAt(ctx: Context, row: int): set<int>
  {
    set c | ctx.cfg.digitalStartCol <= c <= MaxColumn(ctx.g) && row in OpenRows(Get(ctx.reg, c))
  }

  /** The digital columns, already opened in the block, with a close point but
      no open point at `row`. */
  ghost function ClosedAt(ctx: Context, row: int, openCols: set<int>): set<int>
  {
    set c | ctx.cfg.digitalStartCol <= c <= MaxColumn(ctx.g) && row !in OpenRows(Get(ctx.reg, c))
            && row in CloseRows(Get(ctx.reg, c)) && c in openCols
  }

  /** The block after `row` is added to it. */
  ghost function Step(ctx: Context, b: Block, row: int): Block
  {
    Block(b.rows + [row], b.openCols + OpenedAt(ctx, row), b.closedCols + ClosedAt(ctx, row, b.openCols))
  }

  /** A block is complete when some column opened and every opened column closed. */
  predicate Complete(b: Block)
  {
    b.openCols != {} && b.openCols == b.closedCols
  }

  /** One row of the output sheet below the header. */
  datatype OutRow = Data(source: int, cells: seq<Cell>) | Differential(cells: seq<Cell>) | Separator

  /** The rows written for the event rows `rows`, the block so far being `b`. */
  ghost function Walk(ctx: Context, rows: seq<int>, b: Block): seq<OutRow>
    decreases |rows|
  {
    if rows == [] then []
    else
      var b' := Step(ctx, b, rows[0]);
      [Data(rows[0], ProjectedRow(ctx, rows[0]))]
      + if Complete(b')
        then [Differential(DifferentialRow(ctx, b'.rows)), Separator] + Walk(ctx, rows[1..], EmptyBlock)
        else Walk(ctx, rows[1..], b')
  }

  /** The cells of the output rows; the blank separator row has no cells. */
  function Render(out: seq<OutRow>): seq<seq<Cell>>
  {
    if out == [] then []
    else
      [match out[0] case Data(_, cells) => cells case Differential(cells) => cells case Separator => []]
      + Render(out[1..])
  }

  /** The whole output sheet: the header row, then the walk over the event rows. */
  ghost function SwitchEventsSheet(ctx: Context): seq<seq<Cell>>
  {
    [HeaderRow(ctx.g)] + Render(Walk(ctx, SortedRows(EventRowSet(ctx.reg)), EmptyBlock))
  }

  // ---------------------------------------------------------------------
  // What the extractor needs of its inputs

  /** A row the extractor can look up: inside the sheet, with a numeric pressure. */
  ghost predicate RowFits(ctx: Context, row: int)
  {
    1 <= row <= MaxRow(ctx.g) && CellAt(ctx.g, row, ctx.cfg.pressureCol).Num?
  }

  /** Every registry column that holds a session is a digital column of the
      sheet; a column whose list is empty is never looked up. */
  ghost predicate KeysDigital(ctx: Context)
  {
    forall k :: k in ctx.reg && ctx.reg[k] != [] ==> 1 <= k && IsDigital(ctx, k)
  }

  /** Every row a session refers to can be looked up. */
  ghost predicate SessionRowsFit(ctx: Context)
  {
    forall k, i :: k in ctx.reg && 0 <= i < |ctx.reg[k]| ==>
      RowFits(ctx, ctx.reg[k][i].open.row)
      && (ctx.reg[k][i].IsComplete() ==> RowFits(ctx, ctx.reg[k][i].close.value.row))
  }

  ghost predicate RegistryFits(ctx: Context)
  {
    KeysDigital(ctx) && SessionRowsFit(ctx)
  }

  // ---------------------------------------------------------------------
  // Lemmas the extractor's loops use

  lemma OpenRowsSnoc(ss: seq<Session>, i: nat)
    requires i < |ss|
    ensures OpenRows(ss[..i + 1]) == OpenRows(ss[..i]) + {ss[i].open.row}
    ensures CloseRows(ss[..i + 1]) == CloseRows(ss[..i])
      + (if ss[i].IsComplete() then {ss[i].close.value.row} else {})
    ensures forall r :: PointValue(ss[..i + 1], r) == LastWrite(ss[i], r, PointValue(ss[..i], r))
  {
    assert ss[..i + 1][..i] == ss[..i];
  }

  lemma RowsOfColumnsAdd(m: map<int, seq<Session>>, ks: set<int>, k: int)
    requires k in m
    ensures RowsOfColumns(m, ks + {k}) == RowsOfColumns(m, ks) + OpenRows(m[k]) + CloseRows(m[k])
  {
    var before, after := RowsOfColumns(m, ks), RowsOfColumns(m, ks + {k});
    forall r | r in after ensures r in before + OpenRows(m[k]) + CloseRows(m[k]) {
      var k' :| k' in ks + {k} && k' in m && r in OpenRows(m[k']) + CloseRows(m[k']);
      if k' != k {
        assert r in before;
      }
    }
    forall r | r in before + OpenRows(m[k]) + CloseRows(m[k]) ensures r in after {
      if r in before {
        var k' :| k' in ks && k' in m && r in OpenRows(m[k']) + CloseRows(m[k']);
        assert k' in ks + {k} && k' in m && r in OpenRows(m[k']) + CloseRows(m[k']);
      } else {
        assert k in ks + {k} && k in m && r in OpenRows(m[k]) + CloseRows(m[k]);
      }
    }
  }

  lemma RenderAppend(a: seq<OutRow>, b: seq<OutRow>)
    ensures Render(a + b) == Render(a) + Render(b)
  {
    if a != [] {
      assert (a + b)[0] == a[0] && (a + b)[1..] == a[1..] + b;
      RenderAppend(a[1..], b);
    } else {
      assert a + b == b;
    }
  }

  // ---------------------------------------------------------------------
  // The extractor

  /** Every row some session refers to, by its green or its yellow point. */
  method CollectEventRows(sessions: map<int, seq<Session>>) returns (rows: set<int>)
    ensures rows == EventRowSet(sessions)
  {
    rows := {};
    var todo := sessions.Keys;
    while todo != {}
      invariant todo <= sessions.Keys
      invariant rows == RowsOfColumns(sessions, sessions.Keys - todo)
      decreases |todo|
    {
      EmptyOrMember(todo);
      var k :| k in todo;
      RowsOfColumnsAdd(sessions, sessions.Keys - todo, k);
      rows := AddSessionRows(rows, sessions[k]);
      assert sessions.Keys - (todo - {k}) == (sessions.Keys - todo) + {k};
      todo := todo - {k};
    }
    assert sessions.Keys - {} == sessions.Keys;
  }

  /** Adds the green row and, when there is one, the yellow row of every session. */
  method AddSessionRows(rows: set<int>, ss: seq<Session>) returns (rows': set<int>)
    ensures rows' == rows + OpenRows(ss) + CloseRows(ss)
  {
    rows' := rows;
    var i := 0;
    while i < |ss|
      invariant 0 <= i <= |ss|
      invariant rows' == rows + OpenRows(ss[..i]) + CloseRows(ss[..i])
    {
      OpenRowsSnoc(ss, i);
      rows' := rows' + {ss[i].open.row};
      if ss[i].close.Some? {
        rows' := rows' + {ss[i].close.value.row};
      }
      i := i + 1;
    }
    assert ss[..|ss|] == ss;
  }

  /** The rows of `s` in ascending order, as Python's `sorted` gives them. */
  method SortRows(s: set<int>) returns (rows: seq<int>)
    ensures rows == SortedRows(s)
  {
    rows := [];
    var rest := s;
    while rest != {}
      invariant rows + SortedRows(rest) == SortedRows(s)
      decreases |rest|
    {
      ghost var least := MinOf(rest);
      var m :| m in rest && forall x :: x in rest ==> m <= x;
      assert m == least;
      assert rows + SortedRows(rest) == (rows + [m]) + SortedRows(rest - {m});
      rows := rows + [m];
      rest := rest - {m};
    }
    assert rows + [] == rows;
  }

  /** The green and the yellow rows of every digital column, keyed by column. */
  method RowsPerColumn(ctx: Context) returns (green: map<int, set<int>>, yellow: map<int, set<int>>)
    requires KeysDigital(ctx)
    ensures forall c :: c in green <==> IsDigital(ctx, c)
    ensures forall c :: c in yellow <==> IsDigital(ctx, c)
    ensures forall c :: c in green ==> green[c] == OpenRows(Get(ctx.reg, c))
    ensures forall c :: c in yellow ==> yellow[c] == CloseRows(Get(ctx.reg, c))
  {
    var lo, hi := ctx.cfg.digitalStartCol, MaxColumn(ctx.g);
    green := EmptyRowSets(lo, hi);
    yellow := EmptyRowSets(lo, hi);
    var todo := ctx.reg.Keys;
    while todo != {}
      invariant todo <= ctx.reg.Keys
      invariant forall c :: c in green <==> lo <= c <= hi
      invariant forall c :: c in yellow <==> lo <= c <= hi
      invariant RowSetsSoFar(ctx, green, todo, true)
      invariant RowSetsSoFar(ctx, yellow, todo, false)
      decreases |todo|
    {
      EmptyOrMember(todo);
      var k :| k in todo;
      if ctx.reg[k] == [] {
        RowSetsSkip(ctx, green, todo, k, true);
        RowSetsSkip(ctx, yellow, todo, k, false);
      } else {
        var opens, closes := AddSessionRowsByKind(green[k], yellow[k], ctx.reg[k]);
        RowSetsStep(ctx, green, todo, k, opens, true);
        RowSetsStep(ctx, yellow, todo, k, closes, false);
        green := green[k := opens];
        yellow := yellow[k := closes];
      }
      todo := todo - {k};
    }
  }

  lemma RowSetsStep(ctx: Context, sets: map<int, set<int>>, todo: set<int>, k: int, s: set<int>, isOpen: bool)
    requires RowSetsSoFar(ctx, sets, todo, isOpen) && k in sets && k in todo && k in ctx.reg
    requires s == sets[k] + (if isOpen then OpenRows(ctx.reg[k]) else CloseRows(ctx.reg[k]))
    ensures RowSetsSoFar(ctx, sets[k := s], todo - {k}, isOpen)
  {
  }

  /** A column without sessions adds no rows, whether or not it is digital. */
  lemma RowSetsSkip(ctx: Context, sets: map<int, set<int>>, todo: set<int>, k: int, isOpen: bool)
    requires RowSetsSoFar(ctx, sets, todo, isOpen) && k in ctx.reg && ctx.reg[k] == []
    ensures RowSetsSoFar(ctx, sets, todo - {k}, isOpen)
  {
    assert OpenRows(ctx.reg[k]) == {} && CloseRows(ctx.reg[k]) == {};
  }

  /** Each column's set holds its open rows (`isOpen`) or its close rows once
      the column is done, and is still empty while it is to do. */
  ghost predicate RowSetsSoFar(ctx: Context, sets: map<int, set<int>>, todo: set<int>, isOpen: bool)
  {
    forall c :: c in sets ==>
      sets[c] == if c in todo then {} else if isOpen then OpenRows(Get(ctx.reg, c)) else CloseRows(Get(ctx.reg, c))
  }

  /** One empty row set for each column from `lo` to `hi`. */
  method EmptyRowSets(lo: int, hi: int) returns (m: map<int, set<int>>)
    ensures forall c :: c in m <==> lo <= c <= hi
    ensures forall c :: c in m ==> m[c] == {}
  {
    m := map[];
    var col := lo;
    while col <= hi
      invariant lo <= col && (col <= hi + 1 || col == lo)
      invariant forall c :: c in m <==> lo <= c < col
      invariant forall c :: c in m ==> m[c] == {}
    {
      m := m[col := {}];
      col := col + 1;
    }
  }

  /** Adds each session's green row to `opens` and its yellow row, when there
      is one, to `closes`. */
  method AddSessionRowsByKind(opens: set<int>, closes: set<int>, ss: seq<Session>)
    returns (opens': set<int>, closes': set<int>)
    ensures opens' == opens + OpenRows(ss) && closes' == closes + CloseRows(ss)
  {
    opens', closes' := opens, closes;
    var i := 0;
    while i < |ss|
      invariant 0 <= i <= |ss|
      invariant opens' == opens + OpenRows(ss[..i]) && closes' == closes + CloseRows(ss[..i])
    {
      OpenRowsSnoc(ss, i);
      opens' := opens' + {ss[i].open.row};
      if ss[i].close.Some? {
        closes' := closes' + {ss[i].close.value.row};
      }
      i := i + 1;
    }
    assert ss[..|ss|] == ss;
  }

  /** The value recorded at (row, col), if the lookup table has one. */
  function ValueAt(vals: map<(int, int), Cell>, row: int, col: int): Option<Cell>
  {
    if (row, col) in vals then Some(vals[(row, col)]) else None
  }

  /** The (row, col) to value lookup table of every recorded point. */
  method PointValues(sessions: map<int, seq<Session>>) returns (vals: map<(int, int), Cell>)
    ensures forall r, c :: ValueAt(vals, r, c) == PointValue(Get(sessions, c), r)
  {
    vals := map[];
    var todo := sessions.Keys;
    while todo != {}
      invariant todo <= sessions.Keys
      invariant forall r, c :: ValueAt(vals, r, c) == (if c in todo then None else PointValue(Get(sessions, c), r))
      decreases |todo|
    {
      EmptyOrMember(todo);
      var k :| k in todo;
      var ss := sessions[k];
      var i := 0;
      while i < |ss|
        invariant 0 <= i <= |ss|
        invariant forall r, c :: c != k ==> ValueAt(vals, r, c) == (if c in todo then None else PointValue(Get(sessions, c), r))
        invariant forall r :: ValueAt(vals, r, k) == PointValue(ss[..i], r)
      {
        OpenRowsSnoc(ss, i);
        ghost var old_vals := vals;
        vals := vals[(ss[i].open.row, k) := ss[i].open.value];
        if ss[i].close.Some? {
          vals := vals[(ss[i].close.value.row, k) := ss[i].close.value.value];
        }
        forall r, c | c != k ensures ValueAt(vals, r, c) == ValueAt(old_vals, r, c) {
          assert (r, c) != (ss[i].open.row, k);
        }
        forall r ensures ValueAt(vals, r, k) == LastWrite(ss[i], r, ValueAt(old_vals, r, k)) {
        }
        i := i + 1;
      }
      assert ss[..|ss|] == ss;
      todo := todo - {k};
    }
  }

  /** The header row, copied cell by cell. */
  method CopyHeader(g: Grid) returns (cells: seq<Cell>)
    ensures cells == HeaderRow(g)
  {
    cells := [];
    var col := 1;
    while col <= MaxColumn(g)
      invariant 1 <= col <= MaxColumn(g) + 1
      invariant cells == HeaderRow(g)[..col - 1]
    {
      cells := cells + [Header(g, col)];
      col := col + 1;
    }
  }

  /** The output row for event row `row`. */
  method ProjectRow(ctx: Context, vals: map<(int, int), Cell>, row: int) returns (cells: seq<Cell>)
    requires forall r, c :: ValueAt(vals, r, c) == PointValue(Get(ctx.reg, c), r)
    ensures cells == ProjectedRow(ctx, row)
  {
    cells := [];
    var col := 1;
    while col <= MaxColumn(ctx.g)
      invariant 1 <= col <= MaxColumn(ctx.g) + 1
      invariant cells == ProjectedRow(ctx, row)[..col - 1]
    {
      var header := Header(ctx.g, col);
      var cell;
      if IsProtected(header, ctx.cfg.protectedHeaders) {
        cell := CellAt(ctx.g, row, col);
      } else {
        cell := match ValueAt(vals, row, col) case Some(v) => v case None => Blank;
      }
      cells := cells + [cell];
      col := col + 1;
    }
  }

  /** Adds the columns whose green row is `row` to `openCols`, and the already
      openCols columns whose yellow row is `row` to `closedCols`. */
  method TrackRow(ctx: Context, green: map<int, set<int>>, yellow: map<int, set<int>>,
                  row: int, openCols: set<int>, closedCols: set<int>)
    returns (openCols': set<int>, closedCols': set<int>)
    requires forall c :: c in green <==> IsDigital(ctx, c)
    requires forall c :: c in yellow <==> IsDigital(ctx, c)
    requires forall c :: c in green ==> green[c] == OpenRows(Get(ctx.reg, c))
    requires forall c :: c in yellow ==> yellow[c] == CloseRows(Get(ctx.reg, c))
    ensures openCols' == openCols + OpenedAt(ctx, row)
    ensures closedCols' == closedCols + ClosedAt(ctx, row, openCols)
  {
    openCols', closedCols' := openCols, closedCols;
    var lo, hi := ctx.cfg.digitalStartCol, MaxColumn(ctx.g);
    var col := lo;
    while col <= hi
      invariant lo <= col && (col <= hi + 1 || col == lo)
      invariant openCols' == openCols + set c | lo <= c < col && c in OpenedAt(ctx, row)
      invariant closedCols' == closedCols + set c | lo <= c < col && c in ClosedAt(ctx, row, openCols)
    {
      if row in green[col] {
        openCols' := openCols' + {col};
      } else if row in yellow[col] && col in openCols' {
        closedCols' := closedCols' + {col};
      }
      col := col + 1;
    }
  }

  lemma PressuresEmpty(ctx: Context, rows: seq<int>, sel: set<int>)
    requires sel == {}
    ensures Pressures(ctx, rows, sel) == []
  {
  }

  /** The Differential row of a completed block whose rows are `rows`. */
  method DifferentialCells(ctx: Context, green: map<int, set<int>>, yellow: map<int, set<int>>,
                           rows: seq<int>)
    returns (cells: seq<Cell>)
    requires KeysDigital(ctx)
    requires forall c :: c in green <==> IsDigital(ctx, c)
    requires forall c :: c in yellow <==> IsDigital(ctx, c)
    requires forall c :: c in green ==> green[c] == OpenRows(Get(ctx.reg, c))
    requires forall c :: c in yellow ==> yellow[c] == CloseRows(Get(ctx.reg, c))
    ensures cells == DifferentialRow(ctx, rows)
  {
    var lo, hi := ctx.cfg.digitalStartCol, MaxColumn(ctx.g);
    cells := seq(hi, i => if i == 0 then Text("Differential") else Blank);
    var col := lo;
    while col <= hi
      invariant lo <= col && (col <= hi + 1 || col == lo)
      invariant |cells| == hi
      invariant forall i :: 0 <= i < hi ==>
        cells[i] == if i < col - 1 then DifferentialCell(ctx, rows, i + 1)
                    else if i == 0 then Text("Differential") else Blank
    {
      var greenVals := Pressures(ctx, rows, green[col]);
      var yellowVals := Pressures(ctx, rows, yellow[col]);
      DifferentialCellFromSets(ctx, rows, col, green[col], yellow[col]);
      if greenVals != [] && yellowVals != [] {
        cells := cells[col - 1 := Num(Max(greenVals) - Min(yellowVals))];
      }
      col := col + 1;
    }
  }

  /** The differential cell of a digital column, computed from its OPEN and
      CLOSE row sets. */
  lemma DifferentialCellFromSets(ctx: Context, rows: seq<int>, col: int, opens: set<int>, closes: set<int>)
    requires KeysDigital(ctx) && IsDigital(ctx, col)
    requires opens == OpenRows(Get(ctx.reg, col)) && closes == CloseRows(Get(ctx.reg, col))
    ensures col < 1 ==> Pressures(ctx, rows, opens) == []
    ensures var greenVals, yellowVals := Pressures(ctx, rows, opens), Pressures(ctx, rows, closes);
      DifferentialCell(ctx, rows, col) ==
        if greenVals != [] && yellowVals != [] then Num(Max(greenVals) - Min(yellowVals))
        else if col == 1 then Text("Differential") else Blank
  {
    if col < 1 {
      assert Get(ctx.reg, col) == [];
      assert OpenRows(Get(ctx.reg, col)) == {};
      PressuresEmpty(ctx, rows, opens);
    }
  }

  /** Writes the event sheet: the header row, then one projected row per event
      row in ascending order, and after each completed block a Differential
      row and a blank row. */
  method CreateSwitchEventsSheet(g: Grid, cfg: Config, registry: Registry) returns (sheet: seq<seq<Cell>>)
    requires RegistryFits(Context(g, cfg, registry.columns))
    ensures sheet == SwitchEventsSheet(Context(g, cfg, registry.columns))
    ensures |sheet| >= 1 && sheet[0] == HeaderRow(g)
  {
    var sessions := registry.columns;
    var ctx := Context(g, cfg, sessions);
    var header := CopyHeader(g);
    var rowSet := CollectEventRows(sessions);
    var allRows := SortRows(rowSet);
    var green, yellow := RowsPerColumn(ctx);
    var vals := PointValues(sessions);

    ghost var goal := SwitchEventsSheet(ctx);
    sheet := [header];
    var eventRows: seq<int> := [];
    var eventColumns: set<int> := {};
    var yellowColumnsInEvent: set<int> := {};
    var i := 0;
    while i < |allRows|
      invariant 0 <= i <= |allRows|
      invariant |sheet| >= 1 && sheet[0] == header
      invariant sheet + Render(Walk(ctx, allRows[i..], Block(eventRows, eventColumns, yellowColumnsInEvent))) == goal
    {
      var row := allRows[i];
      ghost var b := Block(eventRows, eventColumns, yellowColumnsInEvent);
      if Complete(Step(ctx, b, row)) {
        SheetWalkComplete(ctx, sheet, allRows[i..], b);
      } else {
        SheetWalkOpen(ctx, sheet, allRows[i..], b);
      }
      assert allRows[i..][0] == row && allRows[i..][1..] == allRows[i + 1..];

      var cells := ProjectRow(ctx, vals, row);
      sheet := sheet + [cells];
      eventRows := eventRows + [row];
      eventColumns, yellowColumnsInEvent := TrackRow(ctx, green, yellow, row, eventColumns, yellowColumnsInEvent);

      if eventColumns != {} && eventColumns == yellowColumnsInEvent {
        var diff := DifferentialCells(ctx, green, yellow, eventRows);
        sheet := sheet + [diff, []];
        eventRows := [];
        eventColumns := {};
        yellowColumnsInEvent := {};
      }
      i := i + 1;
    }
    assert allRows[i..] == [];
  }

  /** One step of the walk that leaves the event open, seen from the sheet
      written so far. */
  lemma SheetWalkOpen(ctx: Context, sheet: seq<seq<Cell>>, rows: seq<int>, b: Block)
    requires rows != [] && !Complete(Step(ctx, b, rows[0]))
    ensures sheet + Render(Walk(ctx, rows, b)) ==
      (sheet + [ProjectedRow(ctx, rows[0])]) + Render(Walk(ctx, rows[1..], Step(ctx, b, rows[0])))
  {
    var rest := Walk(ctx, rows[1..], Step(ctx, b, rows[0]));
    RenderAppend([Data(rows[0], ProjectedRow(ctx, rows[0]))], rest);
  }

  /** One step of the walk that completes the event, seen from the sheet
      written so far. */
  lemma SheetWalkComplete(ctx: Context, sheet: seq<seq<Cell>>, rows: seq<int>, b: Block)
    requires rows != [] && Complete(Step(ctx, b, rows[0]))
    ensures sheet + Render(Walk(ctx, rows, b)) ==
      (sheet + [ProjectedRow(ctx, rows[0])] + [DifferentialRow(ctx, Step(ctx, b, rows[0]).rows), []])
      + Render(Walk(ctx, rows[1..], EmptyBlock))
  {
    var closing := [Differential(DifferentialRow(ctx, Step(ctx, b, rows[0]).rows)), Separator];
    var rest := Walk(ctx, rows[1..], EmptyBlock);
    RenderAppend([Data(rows[0], ProjectedRow(ctx, rows[0]))], closing + rest);
    RenderAppend(closing, rest);
  }
}
