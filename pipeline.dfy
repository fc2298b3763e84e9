/** One pass of the pipeline over a combined sheet: a fresh registry, the
    transition detector filling it, then the event extractor run twice over
    the same registry. */
module Pipeline {
  import opened Sheet
  import opened HighlightRegistry
  import opened HighlightSwitchPoints
  import opened ExtractSwitchEvents

  /** Every column the detector scans is one the extractor treats as digital. */
  ghost predicate ScannedColumnsDigital(g: Grid, cfg: Config)
  {
    forall c :: 1 <= c <= MaxColumn(g) && !IsProtected(Header(g, c), cfg.protectedHeaders) ==>
      cfg.digitalStartCol <= c
  }

  /** Every data row from row 3 on has a numeric pressure reading. */
  ghost predicate PressureNumeric(g: Grid, cfg: Config)
  {
    forall r :: 3 <= r <= MaxRow(g) ==> CellAt(g, r, cfg.pressureCol).Num?
  }

  /** A point the extractor can look up: its column is digital and its row fits. */
  ghost predicate PointFits(g: Grid, cfg: Config, p: Point)
  {
    1 <= p.col && IsDigital(Context(g, cfg, map[]), p.col) && RowFits(Context(g, cfg, map[]), p.row)
  }

  lemma RecordedFits(g: Grid, cfg: Config, m: map<int, seq<Session>>, p: Point)
    requires RegistryFits(Context(g, cfg, m)) && PointFits(g, cfg, p)
    ensures RegistryFits(Context(g, cfg, Recorded(m, p)))
  {
    var ss := Get(m, p.col);
    var ss' := Recorded(m, p)[p.col];
    forall i | 0 <= i < |ss'|
      ensures RowFits(Context(g, cfg, Recorded(m, p)), ss'[i].open.row)
      ensures ss'[i].IsComplete() ==> RowFits(Context(g, cfg, Recorded(m, p)), ss'[i].close.value.row)
    {
      if p.isOpen {
        if i < |ss| {
          assert ss'[i] == ss[i];
        }
      } else {
        match LastIncomplete(ss)
        case None =>
        case Some(j) =>
          if i != j {
            assert ss'[i] == ss[i];
          }
      }
    }
  }

  lemma {:induction false} RecordAllFits(g: Grid, cfg: Config, m: map<int, seq<Session>>, pts: seq<Point>)
    requires RegistryFits(Context(g, cfg, m))
    requires forall i :: 0 <= i < |pts| ==> PointFits(g, cfg, pts[i])
    ensures RegistryFits(Context(g, cfg, RecordAll(m, pts)))
    decreases |pts|
  {
    if pts != [] {
      RecordedFits(g, cfg, m, pts[0]);
      assert forall i :: 0 <= i < |pts[1..]| ==> pts[1..][i] == pts[i + 1];
      RecordAllFits(g, cfg, Recorded(m, pts[0]), pts[1..]);
    }
  }

  /** When the scanned columns are digital and the pressure column is numeric
      on the data rows, the detector's registry meets what the extractor
      requires. */
  lemma DetectedFits(g: Grid, cfg: Config)
    requires ScannedColumnsDigital(g, cfg) && PressureNumeric(g, cfg)
    ensures RegistryFits(Context(g, cfg, RecordAll(map[], DetectedPoints(g, cfg.protectedHeaders))))
  {
    var pts := DetectedPoints(g, cfg.protectedHeaders);
    forall i | 0 <= i < |pts| ensures PointFits(g, cfg, pts[i]) {
      DetectedExactly(g, cfg.protectedHeaders, pts[i]);
    }
    RecordAllFits(g, cfg, map[], pts);
  }

  /** One folder's pass: detection into a fresh registry, then the event
      sheet written twice. The extractor only reads the registry and rebuilds
      its output from scratch, so both runs write the same sheet. The sheet
      need only give the extractor a registry it can read; `DetectedFits`
      gives a condition on the sheet alone that is enough for that. */
  method ProcessSheet(g: Grid, cfg: Config) returns (first: seq<seq<Cell>>, second: seq<seq<Cell>>)
    requires RegistryFits(Context(g, cfg, RecordAll(map[], DetectedPoints(g, cfg.protectedHeaders))))
    ensures first == second
    ensures first == SwitchEventsSheet(Context(g, cfg, RecordAll(map[], DetectedPoints(g, cfg.protectedHeaders))))
  {
    var registry := new Registry();
    HighlightSwitchPoints.HighlightSwitchPoints(g, cfg.protectedHeaders, registry);
    first := CreateSwitchEventsSheet(g, cfg, registry);
    second := CreateSwitchEventsSheet(g, cfg, registry);
  }
}
