/** What the event sheet promises: which rows it visits and in what order,
    what a projected row holds, how an event block grows and completes, and
    what the Differential row measures. */
module SwitchEventsProperties {
  import opened Sheet
  import opened HighlightRegistry
  import opened ExtractSwitchEvents

  // ---------------------------------------------------------------------
  // The event rows

  /** Session `s` refers to `row` by its open or its close point. */
  predicate Mentions(s: Session, row: int)
  {
    s.open.row == row || (s.IsComplete() && s.close.value.row == row)
  }

  /** A row is an open row of a column exactly when one of its sessions opens
      there, and a close row exactly when one of its sessions closes there. */
  lemma {:induction false} OpenCloseRowsExactly(ss: seq<Session>, r: int)
    ensures r in OpenRows(ss) <==> exists i :: 0 <= i < |ss| && ss[i].open.row == r
    ensures r in CloseRows(ss) <==>
      exists i :: 0 <= i < |ss| && ss[i].IsComplete() && ss[i].close.value.row == r
  {
    if ss != [] {
      var init, last := ss[..|ss| - 1], ss[|ss| - 1];
      OpenCloseRowsExactly(init, r);
      if r in OpenRows(ss) {
        if r in OpenRows(init) {
          var i :| 0 <= i < |init| && init[i].open.row == r;
          assert ss[i] == init[i];
        } else {
          assert ss[|ss| - 1].open.row == r;
        }
      }
      if exists i :: 0 <= i < |ss| && ss[i].open.row == r {
        var i :| 0 <= i < |ss| && ss[i].open.row == r;
        if i < |ss| - 1 {
          assert init[i] == ss[i];
        }
      }
      if r in CloseRows(ss) {
        if r in CloseRows(init) {
          var i :| 0 <= i < |init| && init[i].IsComplete() && init[i].close.value.row == r;
          assert ss[i] == init[i];
        } else {
          assert last.IsComplete() && last.close.value.row == r;
        }
      }
      if exists i :: 0 <= i < |ss| && ss[i].IsComplete() && ss[i].close.value.row == r {
        var i :| 0 <= i < |ss| && ss[i].IsComplete() && ss[i].close.value.row == r;
        if i < |ss| - 1 {
          assert init[i] == ss[i];
        }
      }
    }
  }

  /** The extractor visits a row exactly when some session of some column
      refers to it. */
  lemma EventRowsExactly(m: map<int, seq<Session>>, r: int)
    ensures r in EventRowSet(m) <==>
      exists k, i :: k in m && 0 <= i < |m[k]| && Mentions(m[k][i], r)
  {
    if r in EventRowSet(m) {
      var k :| k in m.Keys && k in m && r in OpenRows(m[k]) + CloseRows(m[k]);
      OpenCloseRowsExactly(m[k], r);
      var i :| 0 <= i < |m[k]| && (m[k][i].open.row == r
                                   || (m[k][i].IsComplete() && m[k][i].close.value.row == r));
      assert Mentions(m[k][i], r);
    }
    if exists k, i :: k in m && 0 <= i < |m[k]| && Mentions(m[k][i], r) {
      var k, i :| k in m && 0 <= i < |m[k]| && Mentions(m[k][i], r);
      OpenCloseRowsExactly(m[k], r);
      assert r in OpenRows(m[k]) + CloseRows(m[k]);
    }
  }

  /** The sorted event rows hold each member of the set once. */
  lemma {:induction false} SortedRowsMembers(s: set<int>)
    ensures |SortedRows(s)| == |s|
    ensures forall r :: r in SortedRows(s) <==> r in s
    decreases |s|
  {
    if s != {} {
      var m := MinOf(s);
      SortedRowsMembers(s - {m});
      var rest := SortedRows(s - {m});
      assert SortedRows(s) == [m] + rest;
    }
  }

  /** The sorted event rows are strictly ascending. */
  lemma {:induction false} SortedRowsAscending(s: set<int>)
    ensures forall i, j :: 0 <= i < j < |SortedRows(s)| ==> SortedRows(s)[i] < SortedRows(s)[j]
    decreases |s|
  {
    if s != {} {
      var m := MinOf(s);
      SortedRowsAscending(s - {m});
      SortedRowsMembers(s - {m});
      var rest := SortedRows(s - {m});
      forall i | 0 <= i < |rest| ensures m < rest[i] {
        var x := rest[i];
        assert x in rest;
        assert x in s && x != m;
      }
      ConsAscending(m, rest);
    }
  }

  lemma ConsAscending(m: int, rest: seq<int>)
    requires forall i, j :: 0 <= i < j < |rest| ==> rest[i] < rest[j]
    requires forall i :: 0 <= i < |rest| ==> m < rest[i]
    ensures forall i, j :: 0 <= i < j < |[m] + rest| ==> ([m] + rest)[i] < ([m] + rest)[j]
  {
    var rs := [m] + rest;
    forall i, j | 0 <= i < j < |rs| ensures rs[i] < rs[j] {
      assert rs[j] == rest[j - 1];
      if i > 0 {
        assert rs[i] == rest[i - 1];
      }
    }
  }

  // ---------------------------------------------------------------------
  // The value a projected row shows

  /** A column has no value at `row` exactly when no session refers to the
      row; otherwise the value shown is what the last session that refers to
      the row wrote there, its close point winning over its open point. */
  lemma {:induction false} PointValueExactly(ss: seq<Session>, r: int)
    ensures PointValue(ss, r).None? <==> forall i :: 0 <= i < |ss| ==> !Mentions(ss[i], r)
    ensures PointValue(ss, r).Some? ==>
      exists i :: 0 <= i < |ss| && Mentions(ss[i], r)
        && PointValue(ss, r) == LastWrite(ss[i], r, None)
        && forall j :: i < j < |ss| ==> !Mentions(ss[j], r)
  {
    if ss != [] {
      var init, last := ss[..|ss| - 1], ss[|ss| - 1];
      PointValueExactly(init, r);
      assert forall i :: 0 <= i < |init| ==> init[i] == ss[i];
      if Mentions(last, r) {
        assert PointValue(ss, r) == LastWrite(last, r, None);
      } else if PointValue(init, r).Some? {
        var i :| 0 <= i < |init| && Mentions(init[i], r)
          && PointValue(init, r) == LastWrite(init[i], r, None)
          && forall j :: i < j < |init| ==> !Mentions(init[j], r);
        assert forall j :: i < j < |ss| ==> !Mentions(ss[j], r);
      }
    }
  }

  /** A protected column shows the sheet's own cell; any other column shows
      the registry's value at that row, or a blank cell when it has none. */
  lemma ProjectedRowExactly(ctx: Context, row: int, col: int)
    requires 1 <= col <= MaxColumn(ctx.g)
    ensures var cell := ProjectedRow(ctx, row)[col - 1];
      (IsProtected(Header(ctx.g, col), ctx.cfg.protectedHeaders) ==> cell == CellAt(ctx.g, row, col))
      && (!IsProtected(Header(ctx.g, col), ctx.cfg.protectedHeaders) ==>
            (PointValue(Get(ctx.reg, col), row).Some? ==> cell == PointValue(Get(ctx.reg, col), row).value)
            && (PointValue(Get(ctx.reg, col), row).None? ==> cell == Blank))
  {
  }

  // ---------------------------------------------------------------------
  // The walk over the event rows

  /** The source rows of the data rows of `out`, in order. */
  function DataSources(out: seq<OutRow>): seq<int>
  {
    if out == [] then []
    else (if out[0].Data? then [out[0].source] else []) + DataSources(out[1..])
  }

  lemma DataSourcesAppend(a: seq<OutRow>, b: seq<OutRow>)
    ensures DataSources(a + b) == DataSources(a) + DataSources(b)
  {
    if a == [] {
      assert a + b == b;
    } else {
      assert (a + b)[1..] == a[1..] + b;
      DataSourcesAppend(a[1..], b);
    }
  }

  /** Each output row in its place: a data row holds the projection of its
      source row; a Differential row follows a data row and is followed by
      the blank separator; a separator follows a Differential row. */
  ghost predicate WellFormed(ctx: Context, out: seq<OutRow>)
  {
    forall i :: 0 <= i < |out| ==> InPlace(ctx, out, i)
  }

  ghost predicate InPlace(ctx: Context, out: seq<OutRow>, i: int)
    requires 0 <= i < |out|
  {
    (out[i].Data? ==> out[i].cells == ProjectedRow(ctx, out[i].source))
    && (out[i].Differential? ==> 0 < i && out[i - 1].Data? && i + 1 < |out| && out[i + 1].Separator?)
    && (out[i].Separator? ==> 0 < i && out[i - 1].Differential?)
  }

  /** Every event row is written exactly once, in the order given. */
  lemma {:induction false} WalkVisitsEachRowOnce(ctx: Context, rows: seq<int>, b: Block)
    ensures DataSources(Walk(ctx, rows, b)) == rows
    decreases |rows|
  {
    if rows != [] {
      var b' := Step(ctx, b, rows[0]);
      var head := [Data(rows[0], ProjectedRow(ctx, rows[0]))];
      HeadSources(head, rows[0]);
      if Complete(b') {
        WalkFirstComplete(ctx, rows, b);
        var mid := [Differential(DifferentialRow(ctx, b'.rows)), Separator];
        WalkVisitsEachRowOnce(ctx, rows[1..], EmptyBlock);
        MidSources(mid);
        DataSourcesAppend(head + mid, Walk(ctx, rows[1..], EmptyBlock));
        DataSourcesAppend(head, mid);
      } else {
        WalkFirstOpen(ctx, rows, b);
        WalkVisitsEachRowOnce(ctx, rows[1..], b');
        DataSourcesAppend(head, Walk(ctx, rows[1..], b'));
      }
      assert rows == [rows[0]] + rows[1..];
    }
  }

  lemma HeadSources(head: seq<OutRow>, r: int)
    requires |head| == 1 && head[0].Data? && head[0].source == r
    ensures DataSources(head) == [r]
  {
    assert head[1..] == [];
  }

  lemma MidSources(mid: seq<OutRow>)
    requires |mid| == 2 && mid[0].Differential? && mid[1].Separator?
    ensures DataSources(mid) == []
  {
    var last := mid[1..];
    assert last[1..] == [];
    assert DataSources(last) == DataSources(last[1..]);
    assert DataSources(mid) == DataSources(last);
  }

  /** Data rows hold their projections; each Differential row follows a data
      row and is followed by one blank separator. */
  lemma {:induction false} WalkWellFormed(ctx: Context, rows: seq<int>, b: Block)
    ensures WellFormed(ctx, Walk(ctx, rows, b))
    ensures rows != [] ==> Walk(ctx, rows, b)[0].Data?
    decreases |rows|
  {
    if rows != [] {
      var b' := Step(ctx, b, rows[0]);
      var head := [Data(rows[0], ProjectedRow(ctx, rows[0]))];
      if Complete(b') {
        var tail := Walk(ctx, rows[1..], EmptyBlock);
        WalkWellFormed(ctx, rows[1..], EmptyBlock);
        var w := head + [Differential(DifferentialRow(ctx, b'.rows)), Separator] + tail;
        assert Walk(ctx, rows, b) == w;
        WellFormedShift(ctx, w, tail, 3);
      } else {
        var tail := Walk(ctx, rows[1..], b');
        WalkWellFormed(ctx, rows[1..], b');
        var w := head + tail;
        WellFormedShift(ctx, w, tail, 1);
      }
    }
  }

  /** A well-formed tail that starts with a data row stays well formed behind
      a well-formed prefix of `n` rows that ends with a data row or a
      separator. */
  lemma WellFormedShift(ctx: Context, w: seq<OutRow>, tail: seq<OutRow>, n: nat)
    requires n <= |w| && w[n..] == tail
    requires WellFormed(ctx, tail) && (tail != [] ==> tail[0].Data?)
    requires n == 1 ==> w[0].Data? && w[0].cells == ProjectedRow(ctx, w[0].source)
    requires n == 3 ==> w[0].Data? && w[0].cells == ProjectedRow(ctx, w[0].source)
                        && w[1].Differential? && w[2].Separator?
    requires n == 1 || n == 3
    ensures WellFormed(ctx, w)
  {
    forall i | 0 <= i < |w| ensures InPlace(ctx, w, i) {
      if i >= n {
        assert InPlace(ctx, tail, i - n);
        assert w[i] == w[n..][i - n] == tail[i - n];
        if i > n {
          assert w[i - 1] == w[n..][i - n - 1] == tail[i - n - 1];
        }
        if i + 1 < |w| {
          assert w[i + 1] == w[n..][i - n + 1] == tail[i - n + 1];
        }
      }
    }
  }

  // ---------------------------------------------------------------------
  // Event blocks

  /** The block after the rows `rows` are added to `b` one by one. */
  ghost function Run(ctx: Context, b: Block, rows: seq<int>): Block
    decreases |rows|
  {
    if rows == [] then b else Run(ctx, Step(ctx, b, rows[0]), rows[1..])
  }

  /** A column joins the opened set only at one of its open rows and joins
      the closed set only at one of its close rows, when it was already
      opened and does not open on that row. Neither set loses a member, so
      the closed set stays within the opened set, and a column that opens
      again after closing still counts as closed. */
  lemma StepKeepsClosedWithinOpened(ctx: Context, b: Block, row: int)
    requires b.closedCols <= b.openCols
    ensures var b' := Step(ctx, b, row);
      b'.rows == b.rows + [row]
      && b.openCols <= b'.openCols && b.closedCols <= b'.closedCols
      && b'.closedCols <= b'.openCols
      && (forall c :: c in b'.openCols - b.openCols ==>
            IsDigital(ctx, c) && row in OpenRows(Get(ctx.reg, c)))
      && (forall c :: c in b'.closedCols - b.closedCols ==>
            IsDigital(ctx, c) && c in b.openCols && row in CloseRows(Get(ctx.reg, c)))
  {
  }

  lemma {:induction false} RunKeepsClosedWithinOpened(ctx: Context, b: Block, rows: seq<int>)
    requires b.closedCols <= b.openCols
    ensures Run(ctx, b, rows).rows == b.rows + rows
    ensures b.openCols <= Run(ctx, b, rows).openCols
    ensures b.closedCols <= Run(ctx, b, rows).closedCols <= Run(ctx, b, rows).openCols
    decreases |rows|
  {
    if rows != [] {
      StepKeepsClosedWithinOpened(ctx, b, rows[0]);
      RunKeepsClosedWithinOpened(ctx, Step(ctx, b, rows[0]), rows[1..]);
      assert b.rows + [rows[0]] + rows[1..] == b.rows + rows;
    }
  }

  lemma RunPrefix(ctx: Context, b: Block, rows: seq<int>, j: nat)
    requires j < |rows|
    ensures Run(ctx, b, rows[..j + 1]) == Run(ctx, Step(ctx, b, rows[0]), rows[1..][..j])
  {
    assert rows[..j + 1][0] == rows[0] && rows[..j + 1][1..] == rows[1..][..j];
  }

  /** The data rows written for `rows`, with nothing between them. */
  ghost function DataOnly(ctx: Context, rows: seq<int>): seq<OutRow>
    decreases |rows|
  {
    if rows == [] then [] else [Data(rows[0], ProjectedRow(ctx, rows[0]))] + DataOnly(ctx, rows[1..])
  }

  /** The walk's first step when the block does not complete on it. */
  lemma WalkFirstOpen(ctx: Context, rows: seq<int>, b: Block)
    requires rows != [] && !Complete(Step(ctx, b, rows[0]))
    ensures Walk(ctx, rows, b)
      == [Data(rows[0], ProjectedRow(ctx, rows[0]))] + Walk(ctx, rows[1..], Step(ctx, b, rows[0]))
  {
  }

  /** The walk's first step when the block completes on it. */
  lemma WalkFirstComplete(ctx: Context, rows: seq<int>, b: Block)
    requires rows != [] && Complete(Step(ctx, b, rows[0]))
    ensures Walk(ctx, rows, b)
      == [Data(rows[0], ProjectedRow(ctx, rows[0]))]
         + [Differential(DifferentialRow(ctx, Step(ctx, b, rows[0]).rows)), Separator]
         + Walk(ctx, rows[1..], EmptyBlock)
  {
  }

  /** When the block first completes after `k` more rows, the walk writes
      those rows, then the Differential row of the whole block and a blank
      row, and starts again from an empty block. */
  lemma {:induction false} WalkUntilComplete(ctx: Context, rows: seq<int>, b: Block, k: nat)
    requires 1 <= k <= |rows|
    requires forall j :: 1 <= j < k ==> !Complete(Run(ctx, b, rows[..j]))
    requires Complete(Run(ctx, b, rows[..k]))
    ensures Walk(ctx, rows, b) ==
      DataOnly(ctx, rows[..k])
      + [Differential(DifferentialRow(ctx, b.rows + rows[..k])), Separator]
      + Walk(ctx, rows[k..], EmptyBlock)
    decreases k
  {
    if k == 1 {
      CompleteAtFirstRow(ctx, rows, b);
    } else {
      ShiftUntilComplete(ctx, rows, b, k);
      WalkUntilComplete(ctx, rows[1..], Step(ctx, b, rows[0]), k - 1);
      CompleteAfterFirstRow(ctx, rows, b, k);
    }
  }

  /** The block completes on the first row. */
  lemma CompleteAtFirstRow(ctx: Context, rows: seq<int>, b: Block)
    requires rows != [] && Complete(Run(ctx, b, rows[..1]))
    ensures Walk(ctx, rows, b) ==
      DataOnly(ctx, rows[..1])
      + [Differential(DifferentialRow(ctx, b.rows + rows[..1])), Separator]
      + Walk(ctx, rows[1..], EmptyBlock)
  {
    FirstRun(ctx, b, rows);
    WalkFirstComplete(ctx, rows, b);
    assert rows[..1] == [rows[0]];
    assert DataOnly(ctx, rows[..1]) == [Data(rows[0], ProjectedRow(ctx, rows[0]))];
  }

  /** The block does not complete on the first row, and the rest of the walk
      is already known: the first data row goes in front. */
  lemma CompleteAfterFirstRow(ctx: Context, rows: seq<int>, b: Block, k: nat)
    requires 2 <= k <= |rows|
    requires !Complete(Step(ctx, b, rows[0]))
    requires var b' := Step(ctx, b, rows[0]);
      Walk(ctx, rows[1..], b') ==
        DataOnly(ctx, rows[1..][..k - 1])
        + [Differential(DifferentialRow(ctx, b'.rows + rows[1..][..k - 1])), Separator]
        + Walk(ctx, rows[1..][k - 1..], EmptyBlock)
    ensures Walk(ctx, rows, b) ==
      DataOnly(ctx, rows[..k])
      + [Differential(DifferentialRow(ctx, b.rows + rows[..k])), Separator]
      + Walk(ctx, rows[k..], EmptyBlock)
  {
    WalkFirstOpen(ctx, rows, b);
    ShiftParts(ctx, rows, b, k);
    ConcatRegroup([Data(rows[0], ProjectedRow(ctx, rows[0]))], DataOnly(ctx, rows[1..][..k - 1]),
                  [Differential(DifferentialRow(ctx, b.rows + rows[..k])), Separator],
                  Walk(ctx, rows[k..], EmptyBlock));
  }

  /** The pieces of the walk after the first row, renamed for the whole walk. */
  lemma ShiftParts(ctx: Context, rows: seq<int>, b: Block, k: nat)
    requires 1 <= k <= |rows|
    ensures rows[1..][k - 1..] == rows[k..]
    ensures DataOnly(ctx, rows[..k]) == [Data(rows[0], ProjectedRow(ctx, rows[0]))] + DataOnly(ctx, rows[1..][..k - 1])
    ensures Step(ctx, b, rows[0]).rows + rows[1..][..k - 1] == b.rows + rows[..k]
  {
    SliceShift(rows, k);
    DataOnlyFirst(ctx, rows, k);
  }

  lemma SliceShift(rows: seq<int>, k: nat)
    requires 1 <= k <= |rows|
    ensures rows[1..][k - 1..] == rows[k..]
    ensures rows[..k][1..] == rows[1..][..k - 1]
    ensures rows[..k] == [rows[0]] + rows[1..][..k - 1]
  {
  }

  lemma DataOnlyFirst(ctx: Context, rows: seq<int>, k: nat)
    requires 1 <= k <= |rows|
    ensures DataOnly(ctx, rows[..k]) == [Data(rows[0], ProjectedRow(ctx, rows[0]))] + DataOnly(ctx, rows[1..][..k - 1])
  {
    SliceShift(rows, k);
  }

  /** The regrouping `CompleteAfterFirstRow` needs, kept apart so that its
      proof stays small. */
  lemma ConcatRegroup(head: seq<OutRow>, front: seq<OutRow>, diff: seq<OutRow>, back: seq<OutRow>)
    ensures head + (front + diff + back) == head + front + diff + back
  {
  }

  lemma FirstRun(ctx: Context, b: Block, rows: seq<int>)
    requires rows != []
    ensures Run(ctx, b, rows[..1]) == Step(ctx, b, rows[0])
  {
    RunPrefix(ctx, b, rows, 0);
    assert rows[1..][..0] == [];
  }

  /** The first completion after `k` rows from `b` is the first completion
      after `k - 1` rows from the block one row later. */
  lemma ShiftUntilComplete(ctx: Context, rows: seq<int>, b: Block, k: nat)
    requires 2 <= k <= |rows|
    requires forall j :: 1 <= j < k ==> !Complete(Run(ctx, b, rows[..j]))
    requires Complete(Run(ctx, b, rows[..k]))
    ensures !Complete(Step(ctx, b, rows[0]))
    ensures forall j :: 1 <= j < k - 1 ==> !Complete(Run(ctx, Step(ctx, b, rows[0]), rows[1..][..j]))
    ensures Complete(Run(ctx, Step(ctx, b, rows[0]), rows[1..][..k - 1]))
  {
    FirstRun(ctx, b, rows);
    assert !Complete(Run(ctx, b, rows[..1]));
    forall j | 1 <= j < k - 1 ensures !Complete(Run(ctx, Step(ctx, b, rows[0]), rows[1..][..j])) {
      RunPrefix(ctx, b, rows, j);
    }
    RunPrefix(ctx, b, rows, k - 1);
  }

  /** A block that never completes writes no Differential row: an unfinished
      block at the end of the event rows only gets its data rows. */
  lemma {:induction false} WalkNeverComplete(ctx: Context, rows: seq<int>, b: Block)
    requires forall j :: 1 <= j <= |rows| ==> !Complete(Run(ctx, b, rows[..j]))
    ensures Walk(ctx, rows, b) == DataOnly(ctx, rows)
    decreases |rows|
  {
    if rows != [] {
      var b' := Step(ctx, b, rows[0]);
      RunPrefix(ctx, b, rows, 0);
      assert Run(ctx, b, rows[..1]) == b';
      forall j | 1 <= j <= |rows[1..]| ensures !Complete(Run(ctx, b', rows[1..][..j])) {
        RunPrefix(ctx, b, rows, j);
      }
      WalkNeverComplete(ctx, rows[1..], b');
    }
  }

  // ---------------------------------------------------------------------
  // The Differential row

  /** The pressures picked for a column are exactly the readings of the
      block's rows that lie in the selected set. */
  lemma {:induction false} PressuresExactly(ctx: Context, rows: seq<int>, sel: set<int>, x: real)
    ensures x in Pressures(ctx, rows, sel) <==>
      exists r :: r in rows && r in sel && x == PressureAt(ctx, r)
    ensures Pressures(ctx, rows, sel) == [] <==> forall r :: r in rows ==> r !in sel
  {
    if rows != [] {
      PressuresExactly(ctx, rows[1..], sel, x);
      assert forall r :: r in rows <==> r == rows[0] || r in rows[1..];
    }
  }

  /** The block's rows that are open rows of `ss`, and close rows of `ss`, both occur. */
  ghost predicate HasOpenAndClose(rows: seq<int>, ss: seq<Session>)
  {
    (exists o :: o in rows && o in OpenRows(ss)) && (exists c :: c in rows && c in CloseRows(ss))
  }

  /** The reading of a selected row of the block is among the pressures picked. */
  lemma {:induction false} PressuresPick(ctx: Context, rows: seq<int>, sel: set<int>, r: int)
    requires r in rows && r in sel
    ensures PressureAt(ctx, r) in Pressures(ctx, rows, sel)
  {
    if rows[0] != r {
      PressuresPick(ctx, rows[1..], sel, r);
    }
  }

  /** Every pressure picked is the reading of a selected row of the block. */
  lemma {:induction false} PressuresSource(ctx: Context, rows: seq<int>, sel: set<int>, x: real)
    returns (r: int)
    requires x in Pressures(ctx, rows, sel)
    ensures r in rows && r in sel && x == PressureAt(ctx, r)
  {
    if rows[0] in sel && x == PressureAt(ctx, rows[0]) {
      r := rows[0];
    } else {
      r := PressuresSource(ctx, rows[1..], sel, x);
    }
  }

  /** Open row `o` and close row `c` of the block give the largest drop in
      pressure over all such pairs. */
  ghost predicate LargestDrop(ctx: Context, rows: seq<int>, ss: seq<Session>, o: int, c: int)
  {
    o in rows && o in OpenRows(ss) && c in rows && c in CloseRows(ss)
    && forall o', c' :: o' in rows && o' in OpenRows(ss) && c' in rows && c' in CloseRows(ss)
         ==> PressureAt(ctx, o') - PressureAt(ctx, c') <= PressureAt(ctx, o) - PressureAt(ctx, c)
  }

  /** For a digital column with open and close rows in the block, the
      Differential cell is the largest drop from an open-row pressure to a
      close-row pressure: one such pair attains it and no pair exceeds it. */
  lemma DifferentialIsLargestDrop(ctx: Context, rows: seq<int>, col: int)
    requires IsDigital(ctx, col) && HasOpenAndClose(rows, Get(ctx.reg, col))
    ensures exists o, c :: (LargestDrop(ctx, rows, Get(ctx.reg, col), o, c)
                             && DifferentialCell(ctx, rows, col) == Num(PressureAt(ctx, o) - PressureAt(ctx, c)))
  {
    var ss := Get(ctx.reg, col);
    var opens := Pressures(ctx, rows, OpenRows(ss));
    var closes := Pressures(ctx, rows, CloseRows(ss));
    var o0 :| o0 in rows && o0 in OpenRows(ss);
    var c0 :| c0 in rows && c0 in CloseRows(ss);
    PressuresPick(ctx, rows, OpenRows(ss), o0);
    PressuresPick(ctx, rows, CloseRows(ss), c0);
    var hi, lo := Max(opens), Min(closes);
    assert DifferentialCell(ctx, rows, col) == Num(hi - lo);
    var o := PressuresSource(ctx, rows, OpenRows(ss), hi);
    var c := PressuresSource(ctx, rows, CloseRows(ss), lo);
    forall o', c' | o' in rows && o' in OpenRows(ss) && c' in rows && c' in CloseRows(ss)
      ensures PressureAt(ctx, o') - PressureAt(ctx, c') <= PressureAt(ctx, o) - PressureAt(ctx, c)
    {
      PressuresPick(ctx, rows, OpenRows(ss), o');
      PressuresPick(ctx, rows, CloseRows(ss), c');
    }
    assert LargestDrop(ctx, rows, ss, o, c);
  }

  /** Without open and close rows of a digital column in the block, the
      Differential cell is the label in column 1 and blank elsewhere. */
  lemma DifferentialLabelOtherwise(ctx: Context, rows: seq<int>, col: int)
    requires !(IsDigital(ctx, col) && HasOpenAndClose(rows, Get(ctx.reg, col)))
    ensures DifferentialCell(ctx, rows, col) == if col == 1 then Text("Differential") else Blank
  {
    var ss := Get(ctx.reg, col);
    if IsDigital(ctx, col) {
      var opens := Pressures(ctx, rows, OpenRows(ss));
      var closes := Pressures(ctx, rows, CloseRows(ss));
      if opens != [] && closes != [] {
        var o := PressuresSource(ctx, rows, OpenRows(ss), opens[0]);
        var c := PressuresSource(ctx, rows, CloseRows(ss), closes[0]);
        assert HasOpenAndClose(rows, ss);
      }
    }
  }

  // ---------------------------------------------------------------------
  // The event sheet as a whole

  /** The data rows of the event sheet are exactly the rows some session
      refers to, each once, in strictly ascending order. */
  lemma EventSheetVisitsEventRows(ctx: Context)
    ensures var src := DataSources(Walk(ctx, SortedRows(EventRowSet(ctx.reg)), EmptyBlock));
      (forall r :: r in src <==> exists k, i :: k in ctx.reg && 0 <= i < |ctx.reg[k]| && Mentions(ctx.reg[k][i], r))
      && (forall i, j :: 0 <= i < j < |src| ==> src[i] < src[j])
  {
    var rows := SortedRows(EventRowSet(ctx.reg));
    WalkVisitsEachRowOnce(ctx, rows, EmptyBlock);
    SortedRowsMembers(EventRowSet(ctx.reg));
    SortedRowsAscending(EventRowSet(ctx.reg));
    forall r ensures r in rows <==> exists k, i :: k in ctx.reg && 0 <= i < |ctx.reg[k]| && Mentions(ctx.reg[k][i], r) {
      EventRowsExactly(ctx.reg, r);
    }
  }
}
