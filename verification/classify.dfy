/** Classification of detector output rows against the window table: every
    row with a score at or above the threshold is credited to the first
    window containing it, or recorded as a false positive of its series. */
module Classify {
  import opened Outcomes
  import opened Timestamps
  import opened Windows
  import opened SeriesPaths
  import opened Totals

  /** One detector output row: timestamp text, the integer ground-truth
      label column, and the anomaly score. */
  datatype Row = Row(timestamp: string, groundTruth: int, score: real)

  /** One result file: its group directory, its file name and its rows. */
  datatype ResultFile = ResultFile(dir: string, name: string, rows: seq<Row>)

  /** False-positive timestamps per series; a series gets an entry the
      first time it has one. */
  type FpMap = map<SeriesId, seq<Timestamp>>

  /** Everything classification writes: the window table with its
      detections, and the false positives. */
  datatype State = State(windows: WindowMap, falsePositives: FpMap)

  function FalsePositivesOf(fps: FpMap, p: SeriesId): seq<Timestamp>
  {
    if p in fps then fps[p] else []
  }

  /** A non-zero label column means the row lies in a true anomaly. */
  predicate Labelled(row: Row)
  {
    row.groundTruth != 0
  }

  /** A row is a detection when its score reaches the threshold; ties count. */
  predicate IsDetection(row: Row, threshold: real)
  {
    row.score >= threshold
  }

  /** The row's timestamp parses and its label agrees with window membership. */
  predicate Consistent(parse: Parser, ws: seq<Window>, row: Row)
  {
    match Dt(parse, row.timestamp)
    case None => false
    case Some(t) => Labelled(row) <==> Covered(ws, t)
  }

  /** The start state of a run: the freshly loaded windows, no false positives. */
  function Initial(wm: WindowMap): State
  {
    State(wm, map[])
  }

  /** `st'` differs from `st` in series `path` only. */
  ghost predicate OnlySeries(st: State, st': State, path: SeriesId)
  {
    && st'.windows.Keys == st.windows.Keys
    && (forall p :: p in st.windows && p != path ==> st'.windows[p] == st.windows[p])
    && (forall p :: p != path ==> FalsePositivesOf(st'.falsePositives, p) == FalsePositivesOf(st.falsePositives, p))
  }

  /** `st'` is `st` with entries appended only: the same windows with the
      same bounds, every detection list and false-positive list extended. */
  ghost predicate Extends(st: State, st': State)
  {
    && st'.windows.Keys == st.windows.Keys
    && (forall p :: p in st.windows ==> SameBounds(st.windows[p], st'.windows[p]))
    && (forall p, i :: p in st.windows && 0 <= i < |st.windows[p]| && i < |st'.windows[p]| ==>
          st.windows[p][i].detections <= st'.windows[p][i].detections)
    && (forall p :: FalsePositivesOf(st.falsePositives, p) <= FalsePositivesOf(st'.falsePositives, p))
  }

  /** Every recorded timestamp sits where classification puts it: each
      detection of window `i` has window `i` as its first containing
      window, each false positive lies outside every window of its series,
      and only series of the window table have false positives. */
  ghost predicate Sound(st: State)
  {
    && st.falsePositives.Keys <= st.windows.Keys
    && (forall p, i, k :: p in st.windows && 0 <= i < |st.windows[p]| && 0 <= k < |st.windows[p][i].detections| ==>
          InWindow(st.windows[p][i].detections[k], st.windows[p]) == Some(i))
    && (forall p, k :: p in st.falsePositives && p in st.windows && 0 <= k < |st.falsePositives[p]| ==>
          !Covered(st.windows[p], st.falsePositives[p][k]))
  }

  /** Timestamps recorded for one series: its true positives and its false
      positives together. */
  function SeriesRecorded(st: State, p: SeriesId): nat
  {
    DetectionCount(WindowsOf(st.windows, p)) + |FalsePositivesOf(st.falsePositives, p)|
  }

  /** Credits detection `t` to window `i` of series `path`. */
  function CreditWindow(st: State, path: SeriesId, i: nat, t: Timestamp): (r: State)
    requires path in st.windows && i < |st.windows[path]|
    requires InWindow(t, st.windows[path]) == Some(i)
    ensures OnlySeries(st, r, path) && Extends(st, r)
    ensures r.falsePositives == st.falsePositives
    ensures r.windows[path][i].detections == st.windows[path][i].detections + [t]
    ensures forall j :: 0 <= j < |st.windows[path]| && j != i ==> r.windows[path][j] == st.windows[path][j]
    ensures SeriesRecorded(r, path) == SeriesRecorded(st, path) + 1
    ensures Sound(st) ==> Sound(r)
  {
    var ws := st.windows[path];
    var r := st.(windows := st.windows[path := Credit(ws, i, t)]);
    assert Sound(st) ==> Sound(r) by {
      if Sound(st) {
        forall p, j, k | p in r.windows && 0 <= j < |r.windows[p]| && 0 <= k < |r.windows[p][j].detections|
          ensures InWindow(r.windows[p][j].detections[k], r.windows[p]) == Some(j)
        {
          if p == path {
            var d := r.windows[p][j].detections[k];
            InWindowSameBounds(ws, r.windows[p], d);
            if j != i || k < |ws[i].detections| {
              assert d == ws[j].detections[k];
            }
          }
        }
        forall p, k | p in r.falsePositives && p in r.windows && 0 <= k < |r.falsePositives[p]|
          ensures !Covered(r.windows[p], r.falsePositives[p][k])
        {
          if p == path {
            CoveredSameBounds(ws, r.windows[p], r.falsePositives[p][k]);
          }
        }
      }
    }
    r
  }

  /** Records `t` as a false positive of series `path`. */
  function FlagFalsePositive(st: State, path: SeriesId, t: Timestamp): (r: State)
    requires path in st.windows
    requires !Covered(st.windows[path], t)
    ensures OnlySeries(st, r, path) && Extends(st, r)
    ensures r.windows == st.windows
    ensures FalsePositivesOf(r.falsePositives, path) == FalsePositivesOf(st.falsePositives, path) + [t]
    ensures SeriesRecorded(r, path) == SeriesRecorded(st, path) + 1
    ensures Sound(st) ==> Sound(r)
  {
    st.(falsePositives := st.falsePositives[path := FalsePositivesOf(st.falsePositives, path) + [t]])
  }

  /** The error a row that fails classification stops the run with: its
      timestamp does not parse, or its label disagrees with the windows. */
  function RowError(parse: Parser, path: SeriesId, row: Row): Error
  {
    match Dt(parse, row.timestamp)
    case None => MalformedTimestamp
    case Some(t) => LabelWindowMismatch(path, t)
  }

  /** Classifies one row of series `path`. A row whose label disagrees
      with window membership stops the run; otherwise a detection is
      credited to the first window containing it, or flagged as a false
      positive when no window does, and a non-detection changes nothing. */
  function ClassifyRow(st: State, path: SeriesId, row: Row, threshold: real, parse: Parser): (r: Result<State>)
    requires path in st.windows
    ensures r.Ok? <==> Consistent(parse, st.windows[path], row)
    ensures r.Err? ==> r.error == RowError(parse, path, row)
    ensures r.Ok? ==> OnlySeries(st, r.value, path) && Extends(st, r.value)
    ensures r.Ok? && Sound(st) ==> Sound(r.value)
    ensures r.Ok? ==> SeriesRecorded(r.value, path) ==
                      SeriesRecorded(st, path) + (if IsDetection(row, threshold) then 1 else 0)
    ensures r.Ok? && !IsDetection(row, threshold) ==> r.value == st
    ensures r.Ok? && IsDetection(row, threshold) ==>
      var t := Dt(parse, row.timestamp).value;
      var ws := st.windows[path];
      match InWindow(t, ws)
      case Some(i) =>
        && r.value.falsePositives == st.falsePositives
        && r.value.windows[path][i].detections == ws[i].detections + [t]
        && (forall j :: 0 <= j < |ws| && j != i ==> r.value.windows[path][j] == ws[j])
      case None =>
        && r.value.windows == st.windows
        && FalsePositivesOf(r.value.falsePositives, path) == FalsePositivesOf(st.falsePositives, path) + [t]
  {
    match Dt(parse, row.timestamp)
    case None => Err(MalformedTimestamp)
    case Some(t) =>
      var hit := InWindow(t, st.windows[path]);
      if Labelled(row) != hit.Some? then Err(LabelWindowMismatch(path, t))
      else if !IsDetection(row, threshold) then Ok(st)
      else match hit
        case Some(i) => Ok(CreditWindow(st, path, i, t))
        case None => Ok(FlagFalsePositive(st, path, t))
  }

  /** 1 for a row whose score reaches the threshold, 0 otherwise. */
  function DetectionOf(threshold: real): Row -> nat
  {
    (row: Row) => if IsDetection(row, threshold) then 1 else 0
  }

  /** Number of rows whose score reaches the threshold. */
  function Detections(rows: seq<Row>, threshold: real): nat
  {
    Total(rows, DetectionOf(threshold))
  }

  /** The timestamp of `row` when it is a detection and window `i` of `ws`
      is the first window containing it; nothing otherwise. */
  function CreditOf(parse: Parser, ws: seq<Window>, row: Row, threshold: real, i: nat): seq<Timestamp>
  {
    match Dt(parse, row.timestamp)
    case None => []
    case Some(t) => if IsDetection(row, threshold) && InWindow(t, ws) == Some(i) then [t] else []
  }

  /** The timestamp of `row` when it is a detection outside every window
      of `ws`; nothing otherwise. */
  function StrayOf(parse: Parser, ws: seq<Window>, row: Row, threshold: real): seq<Timestamp>
  {
    match Dt(parse, row.timestamp)
    case None => []
    case Some(t) => if IsDetection(row, threshold) && InWindow(t, ws).None? then [t] else []
  }

  /** The detections among `rows` that window `i` is the first to contain,
      in row order. */
  function CreditedTo(parse: Parser, ws: seq<Window>, rows: seq<Row>, threshold: real, i: nat): seq<Timestamp>
    decreases |rows|
  {
    if rows == [] then [] else CreditOf(parse, ws, rows[0], threshold, i) + CreditedTo(parse, ws, rows[1..], threshold, i)
  }

  /** The detections among `rows` outside every window, in row order. */
  function Strays(parse: Parser, ws: seq<Window>, rows: seq<Row>, threshold: real): seq<Timestamp>
    decreases |rows|
  {
    if rows == [] then [] else StrayOf(parse, ws, rows[0], threshold) + Strays(parse, ws, rows[1..], threshold)
  }

  /** `r` is `st` with `rows` of series `path` recorded, window membership
      judged against `ws`: every window gains, in row order, the detections
      it is the first to contain, and the false positives of `path` gain
      the detections no window contains. */
  ghost predicate RecordsRows(st: State, r: State, path: SeriesId, parse: Parser, ws: seq<Window>, rows: seq<Row>, threshold: real)
  {
    && |WindowsOf(r.windows, path)| == |WindowsOf(st.windows, path)|
    && (forall i :: 0 <= i < |WindowsOf(st.windows, path)| ==>
          WindowsOf(r.windows, path)[i].detections ==
          WindowsOf(st.windows, path)[i].detections + CreditedTo(parse, ws, rows, threshold, i))
    && FalsePositivesOf(r.falsePositives, path) ==
       FalsePositivesOf(st.falsePositives, path) + Strays(parse, ws, rows, threshold)
  }

  /** `e` is the error of the first row of `rows` that is not consistent
      with `ws`. */
  predicate FirstRowFailure(parse: Parser, ws: seq<Window>, path: SeriesId, rows: seq<Row>, e: Error)
  {
    exists k :: 0 <= k < |rows| && (forall j :: 0 <= j < k ==> Consistent(parse, ws, rows[j])) &&
      !Consistent(parse, ws, rows[k]) && e == RowError(parse, path, rows[k])
  }

  lemma {:induction false} CreditedToSameBounds(parse: Parser, ws: seq<Window>, vs: seq<Window>, rows: seq<Row>, threshold: real, i: nat)
    requires SameBounds(ws, vs)
    ensures CreditedTo(parse, ws, rows, threshold, i) == CreditedTo(parse, vs, rows, threshold, i)
    ensures Strays(parse, ws, rows, threshold) == Strays(parse, vs, rows, threshold)
    decreases |rows|
  {
    if rows != [] {
      if Dt(parse, rows[0].timestamp).Some? {
        InWindowSameBounds(ws, vs, Dt(parse, rows[0].timestamp).value);
      }
      CreditedToSameBounds(parse, ws, vs, rows[1..], threshold, i);
    }
  }

  lemma {:induction false} CreditedToAppend(parse: Parser, ws: seq<Window>, a: seq<Row>, b: seq<Row>, threshold: real, i: nat)
    ensures CreditedTo(parse, ws, a + b, threshold, i) == CreditedTo(parse, ws, a, threshold, i) + CreditedTo(parse, ws, b, threshold, i)
    decreases |a|
  {
    if a == [] {
      assert a + b == b;
    } else {
      assert (a + b)[0] == a[0];
      assert (a + b)[1..] == a[1..] + b;
      CreditedToAppend(parse, ws, a[1..], b, threshold, i);
    }
  }

  lemma {:induction false} StraysAppend(parse: Parser, ws: seq<Window>, a: seq<Row>, b: seq<Row>, threshold: real)
    ensures Strays(parse, ws, a + b, threshold) == Strays(parse, ws, a, threshold) + Strays(parse, ws, b, threshold)
    decreases |a|
  {
    if a == [] {
      assert a + b == b;
    } else {
      assert (a + b)[0] == a[0];
      assert (a + b)[1..] == a[1..] + b;
      StraysAppend(parse, ws, a[1..], b, threshold);
    }
  }

  /** Recording is judged by window bounds only. */
  lemma RecordsRowsRebase(st: State, r: State, path: SeriesId, parse: Parser, ws: seq<Window>, vs: seq<Window>, rows: seq<Row>, threshold: real)
    requires SameBounds(ws, vs) && RecordsRows(st, r, path, parse, ws, rows, threshold)
    ensures RecordsRows(st, r, path, parse, vs, rows, threshold)
  {
    forall i | 0 <= i < |WindowsOf(st.windows, path)|
      ensures CreditedTo(parse, ws, rows, threshold, i) == CreditedTo(parse, vs, rows, threshold, i)
    {
      CreditedToSameBounds(parse, ws, vs, rows, threshold, i);
    }
    CreditedToSameBounds(parse, ws, vs, rows, threshold, 0);
  }

  /** Recording two row lists one after the other records their concatenation. */
  lemma RecordsRowsCompose(a: State, b: State, c: State, path: SeriesId, parse: Parser, ws: seq<Window>,
                           r1: seq<Row>, r2: seq<Row>, threshold: real)
    requires RecordsRows(a, b, path, parse, ws, r1, threshold) && RecordsRows(b, c, path, parse, ws, r2, threshold)
    ensures RecordsRows(a, c, path, parse, ws, r1 + r2, threshold)
  {
    var wa, wb, wc := WindowsOf(a.windows, path), WindowsOf(b.windows, path), WindowsOf(c.windows, path);
    forall i | 0 <= i < |wa|
      ensures wc[i].detections == wa[i].detections + CreditedTo(parse, ws, r1 + r2, threshold, i)
    {
      ConcatStep(wa[i].detections, wb[i].detections, wc[i].detections,
                 CreditedTo(parse, ws, r1, threshold, i), CreditedTo(parse, ws, r2, threshold, i));
      CreditedToAppend(parse, ws, r1, r2, threshold, i);
    }
    StraysAppend(parse, ws, r1, r2, threshold);
    ConcatStep(FalsePositivesOf(a.falsePositives, path), FalsePositivesOf(b.falsePositives, path),
               FalsePositivesOf(c.falsePositives, path), Strays(parse, ws, r1, threshold), Strays(parse, ws, r2, threshold));
  }

  lemma ConcatStep(x: seq<Timestamp>, y: seq<Timestamp>, z: seq<Timestamp>, d1: seq<Timestamp>, d2: seq<Timestamp>)
    requires y == x + d1 && z == y + d2
    ensures z == x + (d1 + d2)
  {
  }

  /** Classifying one row records exactly that row. */
  lemma ClassifyRowRecords(st: State, path: SeriesId, row: Row, threshold: real, parse: Parser)
    requires path in st.windows && ClassifyRow(st, path, row, threshold, parse).Ok?
    ensures RecordsRows(st, ClassifyRow(st, path, row, threshold, parse).value, path, parse, st.windows[path], [row], threshold)
  {
    var r := ClassifyRow(st, path, row, threshold, parse).value;
    var ws := st.windows[path];
    assert [row][1..] == [];
    assert Strays(parse, ws, [row], threshold) == StrayOf(parse, ws, row, threshold);
    forall i | 0 <= i < |ws|
      ensures WindowsOf(r.windows, path)[i].detections == ws[i].detections + CreditedTo(parse, ws, [row], threshold, i)
    {
      assert CreditedTo(parse, ws, [row], threshold, i) == CreditOf(parse, ws, row, threshold, i);
    }
  }

  /** Recording a first row and then the rest records all the rows. */
  lemma RowsStep(st: State, st1: State, r: State, path: SeriesId, rows: seq<Row>, threshold: real, parse: Parser)
    requires path in st.windows && path in st1.windows && rows != []
    requires SameBounds(st.windows[path], st1.windows[path])
    requires RecordsRows(st, st1, path, parse, st.windows[path], [rows[0]], threshold)
    requires RecordsRows(st1, r, path, parse, st1.windows[path], rows[1..], threshold)
    ensures RecordsRows(st, r, path, parse, st.windows[path], rows, threshold)
  {
    RecordsRowsRebase(st1, r, path, parse, st1.windows[path], st.windows[path], rows[1..], threshold);
    RecordsRowsCompose(st, st1, r, path, parse, st.windows[path], [rows[0]], rows[1..], threshold);
    assert [rows[0]] + rows[1..] == rows;
  }

  /** A first row that fails is the first failure. */
  lemma FailsAtHead(parse: Parser, ws: seq<Window>, path: SeriesId, rows: seq<Row>, e: Error)
    requires rows != [] && !Consistent(parse, ws, rows[0]) && e == RowError(parse, path, rows[0])
    ensures FirstRowFailure(parse, ws, path, rows, e)
  {
  }

  /** A failure among the remaining rows, after a consistent first row, is
      the first failure of all the rows. */
  lemma FailsInTail(parse: Parser, ws: seq<Window>, vs: seq<Window>, path: SeriesId, rows: seq<Row>, e: Error)
    requires SameBounds(ws, vs) && rows != [] && Consistent(parse, ws, rows[0])
    requires FirstRowFailure(parse, vs, path, rows[1..], e)
    ensures FirstRowFailure(parse, ws, path, rows, e)
  {
    var k :| 0 <= k < |rows[1..]| && (forall j :: 0 <= j < k ==> Consistent(parse, vs, rows[1..][j])) &&
      !Consistent(parse, vs, rows[1..][k]) && e == RowError(parse, path, rows[1..][k]);
    forall j | 0 <= j < k + 1 ensures Consistent(parse, ws, rows[j]) {
      if j > 0 {
        ConsistentSameBounds(parse, ws, vs, rows[j]);
        assert rows[1..][j - 1] == rows[j];
      }
    }
    ConsistentSameBounds(parse, ws, vs, rows[k + 1]);
    assert rows[1..][k] == rows[k + 1];
  }

  /** The first failure does not depend on the detections already credited. */
  lemma FirstRowFailureSameBounds(parse: Parser, ws: seq<Window>, vs: seq<Window>, path: SeriesId, rows: seq<Row>, e: Error)
    requires SameBounds(ws, vs)
    ensures FirstRowFailure(parse, ws, path, rows, e) <==> FirstRowFailure(parse, vs, path, rows, e)
  {
    forall j | 0 <= j < |rows| ensures Consistent(parse, ws, rows[j]) <==> Consistent(parse, vs, rows[j]) {
      ConsistentSameBounds(parse, ws, vs, rows[j]);
    }
  }

  lemma ConsistentSameBounds(parse: Parser, ws: seq<Window>, vs: seq<Window>, row: Row)
    requires SameBounds(ws, vs)
    ensures Consistent(parse, ws, row) <==> Consistent(parse, vs, row)
  {
    if Dt(parse, row.timestamp).Some? {
      CoveredSameBounds(ws, vs, Dt(parse, row.timestamp).value);
    }
  }

  lemma ExtendsTransitive(a: State, b: State, c: State)
    requires Extends(a, b) && Extends(b, c)
    ensures Extends(a, c)
  {
    forall p, i | p in a.windows && 0 <= i < |a.windows[p]| && i < |c.windows[p]|
      ensures a.windows[p][i].detections <= c.windows[p][i].detections
    {
      assert b.windows[p][i].detections <= c.windows[p][i].detections;
    }
  }

  /** Consistency of the remaining rows can be judged against the windows
      before or after the first row was classified. */
  lemma RowsConsistentShift(parse: Parser, ws: seq<Window>, vs: seq<Window>, rows: seq<Row>)
    requires SameBounds(ws, vs) && rows != []
    ensures (forall i :: 0 <= i < |rows| ==> Consistent(parse, ws, rows[i])) <==>
            Consistent(parse, ws, rows[0]) && forall i :: 0 <= i < |rows[1..]| ==> Consistent(parse, vs, rows[1..][i])
  {
    forall i | 0 <= i < |rows[1..]|
      ensures Consistent(parse, vs, rows[1..][i]) <==> Consistent(parse, ws, rows[i + 1])
    {
      ConsistentSameBounds(parse, ws, vs, rows[i + 1]);
    }
    if Consistent(parse, ws, rows[0]) && forall i :: 0 <= i < |rows[1..]| ==> Consistent(parse, vs, rows[1..][i]) {
      forall i | 0 <= i < |rows| ensures Consistent(parse, ws, rows[i]) {
        if i > 0 {
          assert Consistent(parse, vs, rows[1..][i - 1]);
        }
      }
    }
  }

  /** Classifies the rows of one series in file order, stopping at the
      first row whose label disagrees with window membership. */
  function ClassifyRows(st: State, path: SeriesId, rows: seq<Row>, threshold: real, parse: Parser): (r: Result<State>)
    requires path in st.windows
    decreases |rows|
    ensures r.Ok? <==> forall i :: 0 <= i < |rows| ==> Consistent(parse, st.windows[path], rows[i])
    ensures r.Ok? ==> OnlySeries(st, r.value, path) && Extends(st, r.value)
    ensures r.Ok? && Sound(st) ==> Sound(r.value)
    ensures r.Ok? ==> SeriesRecorded(r.value, path) == SeriesRecorded(st, path) + Detections(rows, threshold)
    ensures r.Ok? ==> RecordsRows(st, r.value, path, parse, st.windows[path], rows, threshold)
    ensures r.Err? ==> FirstRowFailure(parse, st.windows[path], path, rows, r.error)
  {
    if rows == [] then Ok(st)
    else match ClassifyRow(st, path, rows[0], threshold, parse)
      case Err(e) =>
        FailsAtHead(parse, st.windows[path], path, rows, e);
        Err(e)
      case Ok(st1) =>
        var r := ClassifyRows(st1, path, rows[1..], threshold, parse);
        RowsConsistentShift(parse, st.windows[path], st1.windows[path], rows);
        TotalFront(rows, DetectionOf(threshold));
        if r.Ok? then
          ExtendsTransitive(st, st1, r.value);
          ClassifyRowRecords(st, path, rows[0], threshold, parse);
          RowsStep(st, st1, r.value, path, rows, threshold, parse);
          r
        else
          FailsInTail(parse, st.windows[path], st1.windows[path], path, rows, r.error);
          r
  }

  /** The rows of `file` agree with the window table, whose series must
      include the file's series. */
  predicate FileConsistent(parse: Parser, wm: WindowMap, file: ResultFile)
  {
    var path := SeriesPath(file.dir, file.name);
    path in wm && forall i :: 0 <= i < |file.rows| ==> Consistent(parse, wm[path], file.rows[i])
  }

  /** `e` is the error classifying `file` against `wm` stops with: the
      unknown series, or the first row that disagrees with its windows. */
  predicate FileFailure(parse: Parser, wm: WindowMap, file: ResultFile, e: Error)
  {
    var path := SeriesPath(file.dir, file.name);
    if path in wm then FirstRowFailure(parse, wm[path], path, file.rows, e) else e == UnknownSeries(path)
  }

  /** Classifies one result file; a file of an unknown series stops the run. */
  function ClassifyFile(st: State, file: ResultFile, threshold: real, parse: Parser): (r: Result<State>)
    ensures r.Ok? <==> FileConsistent(parse, st.windows, file)
    ensures SeriesPath(file.dir, file.name) !in st.windows ==>
              r == Err(UnknownSeries(SeriesPath(file.dir, file.name)))
    ensures r.Ok? ==> OnlySeries(st, r.value, SeriesPath(file.dir, file.name)) && Extends(st, r.value)
    ensures r.Ok? && Sound(st) ==> Sound(r.value)
    ensures r.Ok? ==> SeriesRecorded(r.value, SeriesPath(file.dir, file.name)) ==
                      SeriesRecorded(st, SeriesPath(file.dir, file.name)) + Detections(file.rows, threshold)
    ensures r.Ok? ==> RecordsRows(st, r.value, SeriesPath(file.dir, file.name), parse,
                                  WindowsOf(st.windows, SeriesPath(file.dir, file.name)), file.rows, threshold)
    ensures r.Err? ==> FileFailure(parse, st.windows, file, r.error)
  {
    var path := SeriesPath(file.dir, file.name);
    if path !in st.windows then Err(UnknownSeries(path))
    else ClassifyRows(st, path, file.rows, threshold, parse)
  }

  lemma FileConsistentSameBounds(parse: Parser, a: State, b: State, file: ResultFile)
    requires Extends(a, b)
    ensures FileConsistent(parse, a.windows, file) <==> FileConsistent(parse, b.windows, file)
  {
    var path := SeriesPath(file.dir, file.name);
    if path in a.windows {
      forall i | 0 <= i < |file.rows|
        ensures Consistent(parse, a.windows[path], file.rows[i]) <==> Consistent(parse, b.windows[path], file.rows[i])
      {
        ConsistentSameBounds(parse, a.windows[path], b.windows[path], file.rows[i]);
      }
    }
  }

  lemma FilesConsistentShift(parse: Parser, st: State, st1: State, files: seq<ResultFile>)
    requires Extends(st, st1) && files != []
    ensures (forall i :: 0 <= i < |files| ==> FileConsistent(parse, st.windows, files[i])) <==>
            FileConsistent(parse, st.windows, files[0]) &&
            forall i :: 0 <= i < |files[1..]| ==> FileConsistent(parse, st1.windows, files[1..][i])
  {
    forall i | 0 <= i < |files[1..]|
      ensures FileConsistent(parse, st1.windows, files[1..][i]) <==> FileConsistent(parse, st.windows, files[i + 1])
    {
      FileConsistentSameBounds(parse, st, st1, files[i + 1]);
    }
    if FileConsistent(parse, st.windows, files[0]) &&
       forall i :: 0 <= i < |files[1..]| ==> FileConsistent(parse, st1.windows, files[1..][i]) {
      forall i | 0 <= i < |files| ensures FileConsistent(parse, st.windows, files[i]) {
        if i > 0 {
          assert FileConsistent(parse, st1.windows, files[1..][i - 1]);
        }
      }
    }
  }

  /** The rows of the files of series `p`, in file order. */
  function FilesRows(files: seq<ResultFile>, p: SeriesId): seq<Row>
    decreases |files|
  {
    if files == [] then []
    else (if SeriesPath(files[0].dir, files[0].name) == p then files[0].rows else []) + FilesRows(files[1..], p)
  }

  /** `e` is the error of the first file of `files` that is not consistent
      with `wm`. */
  predicate FirstFileFailure(parse: Parser, wm: WindowMap, files: seq<ResultFile>, e: Error)
  {
    exists k :: 0 <= k < |files| && (forall j :: 0 <= j < k ==> FileConsistent(parse, wm, files[j])) &&
      !FileConsistent(parse, wm, files[k]) && FileFailure(parse, wm, files[k], e)
  }

  lemma FileFailureSameBounds(parse: Parser, a: State, b: State, file: ResultFile, e: Error)
    requires Extends(a, b)
    ensures FileFailure(parse, a.windows, file, e) <==> FileFailure(parse, b.windows, file, e)
  {
    var path := SeriesPath(file.dir, file.name);
    if path in a.windows {
      FirstRowFailureSameBounds(parse, a.windows[path], b.windows[path], path, file.rows, e);
    }
  }

  /** A failure among the remaining files, after a consistent first file,
      is the first failure of all the files. */
  lemma FilesFailInTail(parse: Parser, st: State, st1: State, files: seq<ResultFile>, e: Error)
    requires Extends(st, st1) && files != [] && FileConsistent(parse, st.windows, files[0])
    requires FirstFileFailure(parse, st1.windows, files[1..], e)
    ensures FirstFileFailure(parse, st.windows, files, e)
  {
    var k :| 0 <= k < |files[1..]| && (forall j :: 0 <= j < k ==> FileConsistent(parse, st1.windows, files[1..][j])) &&
      !FileConsistent(parse, st1.windows, files[1..][k]) && FileFailure(parse, st1.windows, files[1..][k], e);
    forall j | 0 <= j < k + 1 ensures FileConsistent(parse, st.windows, files[j]) {
      if j > 0 {
        FileConsistentSameBounds(parse, st, st1, files[j]);
        assert files[1..][j - 1] == files[j];
      }
    }
    assert files[1..][k] == files[k + 1];
    FileConsistentSameBounds(parse, st, st1, files[k + 1]);
    FileFailureSameBounds(parse, st, st1, files[k + 1], e);
  }

  lemma FilesFailAtHead(parse: Parser, wm: WindowMap, files: seq<ResultFile>, e: Error)
    requires files != [] && !FileConsistent(parse, wm, files[0]) && FileFailure(parse, wm, files[0], e)
    ensures FirstFileFailure(parse, wm, files, e)
  {
  }

  /** Classifying one file records, for series `p`, that file's rows if it
      belongs to `p` and nothing otherwise. */
  lemma FileHeadRecords(st: State, st1: State, file: ResultFile, threshold: real, parse: Parser, p: SeriesId)
    requires ClassifyFile(st, file, threshold, parse) == Ok(st1) && p in st.windows
    ensures RecordsRows(st, st1, p, parse, st.windows[p],
                        if SeriesPath(file.dir, file.name) == p then file.rows else [], threshold)
  {
    if SeriesPath(file.dir, file.name) != p {
      assert WindowsOf(st1.windows, p) == WindowsOf(st.windows, p);
      assert FalsePositivesOf(st1.falsePositives, p) == FalsePositivesOf(st.falsePositives, p);
      RecordsNothing(st, st1, p, parse, st.windows[p], threshold);
    }
  }

  /** A series left as it was has recorded no rows. */
  lemma RecordsNothing(st: State, st1: State, p: SeriesId, parse: Parser, ws: seq<Window>, threshold: real)
    requires WindowsOf(st1.windows, p) == WindowsOf(st.windows, p)
    requires FalsePositivesOf(st1.falsePositives, p) == FalsePositivesOf(st.falsePositives, p)
    ensures RecordsRows(st, st1, p, parse, ws, [], threshold)
  {
  }

  /** Classifying a first file and then the rest records, for series `p`,
      the rows of all the files of `p`. */
  lemma FilesStepAt(st: State, st1: State, r: State, files: seq<ResultFile>, threshold: real, parse: Parser, p: SeriesId)
    requires files != [] && ClassifyFile(st, files[0], threshold, parse) == Ok(st1)
    requires Extends(st1, r) && p in st.windows
    requires RecordsRows(st1, r, p, parse, st1.windows[p], FilesRows(files[1..], p), threshold)
    ensures RecordsRows(st, r, p, parse, st.windows[p], FilesRows(files, p), threshold)
  {
    var head := if SeriesPath(files[0].dir, files[0].name) == p then files[0].rows else [];
    FileHeadRecords(st, st1, files[0], threshold, parse, p);
    RecordsRowsRebase(st1, r, p, parse, st1.windows[p], st.windows[p], FilesRows(files[1..], p), threshold);
    RecordsRowsCompose(st, st1, r, p, parse, st.windows[p], head, FilesRows(files[1..], p), threshold);
  }

  lemma FilesStep(st: State, st1: State, r: State, files: seq<ResultFile>, threshold: real, parse: Parser)
    requires files != [] && ClassifyFile(st, files[0], threshold, parse) == Ok(st1)
    requires Extends(st1, r)
    requires forall p :: p in st1.windows ==> RecordsRows(st1, r, p, parse, st1.windows[p], FilesRows(files[1..], p), threshold)
    requires forall p :: p !in st1.windows ==> FalsePositivesOf(r.falsePositives, p) == FalsePositivesOf(st1.falsePositives, p)
    ensures forall p :: p in st.windows ==> RecordsRows(st, r, p, parse, st.windows[p], FilesRows(files, p), threshold)
    ensures forall p :: p !in st.windows ==> FalsePositivesOf(r.falsePositives, p) == FalsePositivesOf(st.falsePositives, p)
  {
    forall p | p in st.windows ensures RecordsRows(st, r, p, parse, st.windows[p], FilesRows(files, p), threshold) {
      FilesStepAt(st, st1, r, files, threshold, parse, p);
    }
  }

  /** Classifies every result file in discovery order; the first failure
      stops the run. */
  function ClassifyFiles(st: State, files: seq<ResultFile>, threshold: real, parse: Parser): (r: Result<State>)
    decreases |files|
    ensures r.Ok? <==> forall i :: 0 <= i < |files| ==> FileConsistent(parse, st.windows, files[i])
    ensures r.Ok? ==> Extends(st, r.value)
    ensures r.Ok? && Sound(st) ==> Sound(r.value)
    ensures r.Ok? ==> forall p :: p in st.windows ==>
              RecordsRows(st, r.value, p, parse, st.windows[p], FilesRows(files, p), threshold)
    ensures r.Ok? ==> forall p :: p !in st.windows ==>
              FalsePositivesOf(r.value.falsePositives, p) == FalsePositivesOf(st.falsePositives, p)
    ensures r.Err? ==> FirstFileFailure(parse, st.windows, files, r.error)
  {
    if files == [] then Ok(st)
    else match ClassifyFile(st, files[0], threshold, parse)
      case Err(e) =>
        FilesFailAtHead(parse, st.windows, files, e);
        Err(e)
      case Ok(st1) =>
        var r := ClassifyFiles(st1, files[1..], threshold, parse);
        FilesConsistentShift(parse, st, st1, files);
        if r.Ok? then
          ExtendsTransitive(st, st1, r.value);
          FilesStep(st, st1, r.value, files, threshold, parse);
          r
        else
          FilesFailInTail(parse, st, st1, files, r.error);
          r
  }

  /** How many detections of `file` window `i` of `ws` is the first to
      contain, counted only when `file` belongs to series `p`. */
  function FileCreditsOf(parse: Parser, ws: seq<Window>, p: SeriesId, threshold: real, i: nat): ResultFile -> nat
  {
    (file: ResultFile) =>
      if SeriesPath(file.dir, file.name) == p then |CreditedTo(parse, ws, file.rows, threshold, i)| else 0
  }

  /** How many detections of `file` lie outside every window of `ws`,
      counted only when `file` belongs to series `p`. */
  function FileStraysOf(parse: Parser, ws: seq<Window>, p: SeriesId, threshold: real): ResultFile -> nat
  {
    (file: ResultFile) =>
      if SeriesPath(file.dir, file.name) == p then |Strays(parse, ws, file.rows, threshold)| else 0
  }

  /** Window `i` receives from the files of `p` the sum of what it receives
      from each of them. */
  lemma {:induction false} CreditedFilesTotal(parse: Parser, ws: seq<Window>, files: seq<ResultFile>, p: SeriesId, threshold: real, i: nat)
    ensures |CreditedTo(parse, ws, FilesRows(files, p), threshold, i)| == Total(files, FileCreditsOf(parse, ws, p, threshold, i))
    decreases |files|
  {
    if files != [] {
      var head := if SeriesPath(files[0].dir, files[0].name) == p then files[0].rows else [];
      CreditedToAppend(parse, ws, head, FilesRows(files[1..], p), threshold, i);
      CreditedFilesTotal(parse, ws, files[1..], p, threshold, i);
      TotalFront(files, FileCreditsOf(parse, ws, p, threshold, i));
    }
  }

  /** The false positives of `p` number the sum over its files. */
  lemma {:induction false} StraysFilesTotal(parse: Parser, ws: seq<Window>, files: seq<ResultFile>, p: SeriesId, threshold: real)
    ensures |Strays(parse, ws, FilesRows(files, p), threshold)| == Total(files, FileStraysOf(parse, ws, p, threshold))
    decreases |files|
  {
    if files != [] {
      var head := if SeriesPath(files[0].dir, files[0].name) == p then files[0].rows else [];
      StraysAppend(parse, ws, head, FilesRows(files[1..], p), threshold);
      StraysFilesTotal(parse, ws, files[1..], p, threshold);
      TotalFront(files, FileStraysOf(parse, ws, p, threshold));
    }
  }

  /** Recording the rows of the same files in two orders gives every window
      of `p` as many detections and `p` as many false positives. */
  lemma RecordsShape(st0: State, st: State, st': State, p: SeriesId, parse: Parser, ws: seq<Window>,
                     files: seq<ResultFile>, files': seq<ResultFile>, threshold: real)
    requires multiset(files) == multiset(files')
    requires RecordsRows(st0, st, p, parse, ws, FilesRows(files, p), threshold)
    requires RecordsRows(st0, st', p, parse, ws, FilesRows(files', p), threshold)
    ensures SameShape(WindowsOf(st.windows, p), WindowsOf(st'.windows, p))
    ensures |FalsePositivesOf(st.falsePositives, p)| == |FalsePositivesOf(st'.falsePositives, p)|
  {
    forall i | 0 <= i < |WindowsOf(st0.windows, p)|
      ensures |CreditedTo(parse, ws, FilesRows(files, p), threshold, i)| == |CreditedTo(parse, ws, FilesRows(files', p), threshold, i)|
    {
      CreditedFilesTotal(parse, ws, files, p, threshold, i);
      CreditedFilesTotal(parse, ws, files', p, threshold, i);
      TotalPermutation(files, files', FileCreditsOf(parse, ws, p, threshold, i));
    }
    StraysFilesTotal(parse, ws, files, p, threshold);
    StraysFilesTotal(parse, ws, files', p, threshold);
    TotalPermutation(files, files', FileStraysOf(parse, ws, p, threshold));
  }
}
