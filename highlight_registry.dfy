/** The session registry: per column, the list of switch sessions built from
    the detected OPEN and CLOSE points, in the order the points arrive. */
module HighlightRegistry {
  import opened Sheet

  /** One detected transition. `isOpen` marks an OPEN (1 to 0) point;
      otherwise it is a CLOSE (0 to 1) point. `value` is the triggering cell. */
  datatype Point = Point(row: int, col: int, isOpen: bool, header: Cell, value: Cell)

  /** One OPEN point and, once it has arrived, the CLOSE point paired with it.
      The extractor calls the open point "green" and the close point "yellow". */
  datatype Session = Session(open: Point, close: Option<Point>)
  {
    /** A session is complete exactly when its close slot is filled. */
    predicate IsComplete(): (complete: bool)
      ensures complete <==> close != None
    {
      close.Some?
    }
  }

  /** The sessions of a column, the empty list for a column never seen. */
  function Get(m: map<int, seq<Session>>, col: int): seq<Session>
  {
    if col in m then m[col] else []
  }

  /** The index of the most recent session whose close slot is still empty. */
  function LastIncomplete(ss: seq<Session>): (r: Option<nat>)
    ensures r.Some? ==> r.value < |ss| && !ss[r.value].IsComplete()
    ensures r.Some? ==> forall j :: r.value < j < |ss| ==> ss[j].IsComplete()
    ensures r.None? ==> forall j :: 0 <= j < |ss| ==> ss[j].IsComplete()
  {
    if ss == [] then None
    else if !ss[|ss| - 1].IsComplete() then Some(|ss| - 1)
    else LastIncomplete(ss[..|ss| - 1])
  }

  /** The column's list after one point is recorded: an OPEN starts a new
      session; a CLOSE fills the most recent open slot, or is dropped. */
  function RecordInColumn(ss: seq<Session>, p: Point): seq<Session>
  {
    if p.isOpen then ss + [Session(p, None)]
    else match LastIncomplete(ss)
      case None => ss
      case Some(i) => ss[i := Session(ss[i].open, Some(p))]
  }

  /** The registry after one point is recorded. The point's column gets a
      list even when the point is a dropped CLOSE. */
  function Recorded(m: map<int, seq<Session>>, p: Point): map<int, seq<Session>>
  {
    m[p.col := RecordInColumn(Get(m, p.col), p)]
  }

  /** The registry after a sequence of points is recorded in order. */
  function RecordAll(m: map<int, seq<Session>>, pts: seq<Point>): map<int, seq<Session>>
    decreases |pts|
  {
    if pts == [] then m else RecordAll(Recorded(m, pts[0]), pts[1..])
  }

  class Registry {
    var columns: map<int, seq<Session>>

    constructor ()
      ensures columns == map[]
    {
      columns := map[];
    }

    /** Records one point: an OPEN appends a session; a CLOSE is attached to
        the most recent incomplete session of its column, scanning backwards,
        and is dropped when there is none. */
    method AddPoint(p: Point)
      modifies this
      ensures columns == Recorded(old(columns), p)
    {
      if p.col !in columns {
        columns := columns[p.col := []];
      }
      var ss := columns[p.col];
      if p.isOpen {
        columns := columns[p.col := ss + [Session(p, None)]];
      } else {
        var i := |ss|;
        while i > 0
          invariant 0 <= i <= |ss|
          invariant forall j :: i <= j < |ss| ==> ss[j].IsComplete()
          invariant columns == old(columns)[p.col := ss]
        {
          i := i - 1;
          if !ss[i].IsComplete() {
            columns := columns[p.col := ss[i := Session(ss[i].open, Some(p))]];
            return;
          }
        }
      }
    }
  }

  // ---------------------------------------------------------------------
  // What recording a point does to the registry

  /** An OPEN adds exactly one session, holding the point and an empty close
      slot, at the end of its column's list. */
  lemma RecordOpenAppends(m: map<int, seq<Session>>, p: Point)
    requires p.isOpen
    ensures var ss, ss' := Get(m, p.col), Recorded(m, p)[p.col];
      |ss'| == |ss| + 1 && ss'[..|ss|] == ss
      && ss'[|ss|].open == p && !ss'[|ss|].IsComplete()
  {
  }

  /** A CLOSE fills the close slot of the last incomplete session of its
      column and changes nothing else; with no incomplete session it is
      dropped and the column's list is unchanged. */
  lemma RecordCloseFillsLastOpenSlot(m: map<int, seq<Session>>, p: Point)
    requires !p.isOpen
    ensures var ss, ss' := Get(m, p.col), Recorded(m, p)[p.col];
      |ss'| == |ss|
      && ((exists i :: 0 <= i < |ss| && !ss[i].IsComplete()
             && (forall j :: i < j < |ss| ==> ss[j].IsComplete())
             && ss' == ss[i := Session(ss[i].open, Some(p))])
          || ((forall j :: 0 <= j < |ss| ==> ss[j].IsComplete()) && ss' == ss))
  {
    var ss := Get(m, p.col);
    match LastIncomplete(ss)
    case None =>
    case Some(i) =>
      assert !ss[i].IsComplete() && forall j :: i < j < |ss| ==> ss[j].IsComplete();
  }

  /** `m'` keeps every session of `m`: no list shrinks, no open point changes
      and no filled close slot is overwritten. */
  ghost predicate Extends(m: map<int, seq<Session>>, m': map<int, seq<Session>>)
  {
    forall k :: k in m ==>
      (k in m' && |m[k]| <= |m'[k]|
       && forall i :: 0 <= i < |m[k]| ==>
            m'[k][i].open == m[k][i].open
            && (m[k][i].IsComplete() ==> m'[k][i].close == m[k][i].close))
  }

  /** Recording a point never removes a session and never overwrites a filled
      close slot; its column grows by one on an OPEN and keeps its length on a
      CLOSE; every other column is left as it was. */
  lemma RecordedExtends(m: map<int, seq<Session>>, p: Point)
    ensures Extends(m, Recorded(m, p))
    ensures |Recorded(m, p)[p.col]| == |Get(m, p.col)| + (if p.isOpen then 1 else 0)
    ensures Recorded(m, p).Keys == m.Keys + {p.col}
    ensures forall k :: k in m && k != p.col ==> Recorded(m, p)[k] == m[k]
  {
    var ss := Get(m, p.col);
    if !p.isOpen {
      match LastIncomplete(ss)
      case None =>
      case Some(i) =>
        assert !ss[i].IsComplete();
    }
  }

  /** The number of sessions still waiting for their close point. */
  function IncompleteCount(ss: seq<Session>): nat
  {
    if ss == [] then 0
    else IncompleteCount(ss[..|ss| - 1]) + (if ss[|ss| - 1].IsComplete() then 0 else 1)
  }

  lemma {:induction false} IncompleteCountPositive(ss: seq<Session>, i: nat)
    requires i < |ss| && !ss[i].IsComplete()
    ensures IncompleteCount(ss) > 0
  {
    if i < |ss| - 1 {
      IncompleteCountPositive(ss[..|ss| - 1], i);
    }
  }

  lemma {:induction false} IncompleteCountZero(ss: seq<Session>)
    requires forall j :: 0 <= j < |ss| ==> ss[j].IsComplete()
    ensures IncompleteCount(ss) == 0
  {
    if ss != [] {
      IncompleteCountZero(ss[..|ss| - 1]);
    }
  }

  lemma {:induction false} IncompleteCountFill(ss: seq<Session>, i: nat, p: Point)
    requires i < |ss| && !ss[i].IsComplete()
    ensures IncompleteCount(ss[i := Session(ss[i].open, Some(p))]) == IncompleteCount(ss) - 1
  {
    var ss' := ss[i := Session(ss[i].open, Some(p))];
    if i < |ss| - 1 {
      assert ss'[..|ss'| - 1] == ss[..|ss| - 1][i := Session(ss[i].open, Some(p))];
      IncompleteCountFill(ss[..|ss| - 1], i, p);
    } else {
      assert ss'[..|ss'| - 1] == ss[..|ss| - 1];
    }
  }

  /** Completion only moves forward: an OPEN adds one incomplete session, and a
      CLOSE completes exactly one session when some session is incomplete and
      none when all are complete. */
  lemma RecordCountsCompletions(ss: seq<Session>, p: Point)
    ensures p.isOpen ==> IncompleteCount(RecordInColumn(ss, p)) == IncompleteCount(ss) + 1
    ensures !p.isOpen && IncompleteCount(ss) > 0 ==>
      IncompleteCount(RecordInColumn(ss, p)) == IncompleteCount(ss) - 1
    ensures !p.isOpen && IncompleteCount(ss) == 0 ==> RecordInColumn(ss, p) == ss
  {
    if p.isOpen {
      assert (ss + [Session(p, None)])[..|ss|] == ss;
    } else {
      match LastIncomplete(ss)
      case None =>
        IncompleteCountZero(ss);
      case Some(i) =>
        IncompleteCountPositive(ss, i);
        IncompleteCountFill(ss, i, p);
    }
  }

  // ---------------------------------------------------------------------
  // Pairing goes forward in time

  /** Every attached close point lies on a later row than its session's open point. */
  ghost predicate PairedForward(ss: seq<Session>)
  {
    forall i :: 0 <= i < |ss| && ss[i].IsComplete() ==> ss[i].open.row < ss[i].close.value.row
  }

  /** Every row the list mentions is before `row`. */
  ghost predicate RowsBefore(ss: seq<Session>, row: int)
  {
    forall i :: 0 <= i < |ss| ==>
      ss[i].open.row < row && (ss[i].IsComplete() ==> ss[i].close.value.row < row)
  }

  /** Recording a point whose row is after every row of its column keeps every
      pairing forward, and afterwards no row of that column is beyond the point's. */
  lemma RecordKeepsPairedForward(ss: seq<Session>, p: Point)
    requires PairedForward(ss) && RowsBefore(ss, p.row)
    ensures PairedForward(RecordInColumn(ss, p))
    ensures RowsBefore(RecordInColumn(ss, p), p.row + 1)
  {
    if !p.isOpen {
      match LastIncomplete(ss)
      case None =>
      case Some(i) =>
    }
  }

  /** When, within each column, points arrive in strictly ascending row order
      and after every row already in that column, every close point the
      registry attaches lies on a later row than its open point. */
  lemma {:induction false} RecordAllPairedForward(m: map<int, seq<Session>>, pts: seq<Point>)
    requires forall k :: k in m ==> PairedForward(m[k])
    requires forall i :: 0 <= i < |pts| ==> RowsBefore(Get(m, pts[i].col), pts[i].row)
    requires forall i, j :: 0 <= i < j < |pts| && pts[i].col == pts[j].col ==> pts[i].row < pts[j].row
    ensures forall k :: k in RecordAll(m, pts) ==> PairedForward(RecordAll(m, pts)[k])
    decreases |pts|
  {
    if pts != [] {
      var p := pts[0];
      var m' := Recorded(m, p);
      RecordKeepsPairedForward(Get(m, p.col), p);
      forall i | 0 <= i < |pts[1..]|
        ensures RowsBefore(Get(m', pts[1..][i].col), pts[1..][i].row)
      {
        var q := pts[1..][i];
        assert q == pts[i + 1];
        if q.col == p.col {
          assert p.row < q.row;
        }
      }
      RecordAllPairedForward(m', pts[1..]);
    }
  }

  /** Sessions are listed in strictly ascending order of their open rows, and
      no two complete sessions share a close row: no OPEN and no CLOSE point
      belongs to two sessions. */
  ghost predicate Distinct(ss: seq<Session>)
  {
    forall i, j :: 0 <= i < j < |ss| ==>
      ss[i].open.row < ss[j].open.row
      && (ss[i].IsComplete() && ss[j].IsComplete() ==> ss[i].close.value.row != ss[j].close.value.row)
  }

  /** Recording a point on a row after every row of its column leaves no row
      of that column beyond the point's. */
  lemma RecordKeepsRowsBefore(ss: seq<Session>, p: Point)
    requires RowsBefore(ss, p.row)
    ensures RowsBefore(RecordInColumn(ss, p), p.row + 1)
  {
    if !p.isOpen {
      match LastIncomplete(ss)
      case None =>
      case Some(i) =>
    }
  }

  /** Recording a point on a row after every row of its column keeps the
      sessions in open-row order and their close points apart. */
  lemma RecordKeepsDistinct(ss: seq<Session>, p: Point)
    requires Distinct(ss) && RowsBefore(ss, p.row)
    ensures Distinct(RecordInColumn(ss, p))
  {
    if !p.isOpen {
      match LastIncomplete(ss)
      case None =>
      case Some(i) =>
    }
  }

  /** When, within each column, points arrive in strictly ascending row order
      and after every row already in that column, every column's sessions
      stay in open-row order with distinct OPEN and CLOSE points. */
  lemma {:induction false} RecordAllDistinct(m: map<int, seq<Session>>, pts: seq<Point>)
    requires forall k :: k in m ==> Distinct(m[k])
    requires forall i :: 0 <= i < |pts| ==> RowsBefore(Get(m, pts[i].col), pts[i].row)
    requires forall i, j :: 0 <= i < j < |pts| && pts[i].col == pts[j].col ==> pts[i].row < pts[j].row
    ensures forall k :: k in RecordAll(m, pts) ==> Distinct(RecordAll(m, pts)[k])
    decreases |pts|
  {
    if pts != [] {
      var p := pts[0];
      var m' := Recorded(m, p);
      RecordKeepsDistinct(Get(m, p.col), p);
      RecordKeepsRowsBefore(Get(m, p.col), p);
      forall i | 0 <= i < |pts[1..]|
        ensures RowsBefore(Get(m', pts[1..][i].col), pts[1..][i].row)
      {
        var q := pts[1..][i];
        assert q == pts[i + 1];
        if q.col == p.col {
          assert p.row < q.row;
        }
      }
      RecordAllDistinct(m', pts[1..]);
    }
  }
}
