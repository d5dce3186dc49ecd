/** One scoring run: load the window table, classify every result file,
    reduce to the report totals and the missed-window ranking. */
module Analysis {
  import opened Outcomes
  import opened Timestamps
  import opened Windows
  import opened Classify
  import opened Totals
  import opened Ranking
  import opened Aggregation
  import opened SeriesPaths

  /** The reward weights of one scoring profile. */
  datatype CostMatrix = CostMatrix(tpWeight: real, fpWeight: real, fnWeight: real)

  /** The printed report: totals, their weighted ceilings, and the series
      with missed windows. */
  datatype Report = Report(
    truePositives: nat,
    detectedWindows: nat,
    undetectedWindows: nat,
    falsePositives: nat,
    maxFromDetected: real,
    maxFromUndetected: real,
    maxNegativeFromFp: real,
    offenders: seq<SeriesId>)

  /** A count times a weight, both exact. */
  function Weighted(n: nat, w: real): real
  {
    n as real * w
  }

  /** The detected-window ceiling and the undetected-window ceiling
      together: every window's true-positive weight plus the missed
      windows' false-negative weight. */
  lemma CeilingsAddUp(detected: nat, undetected: nat, windows: nat, weights: CostMatrix)
    requires detected + undetected == windows
    ensures Weighted(detected, weights.tpWeight) + (Weighted(undetected, weights.tpWeight) + Weighted(undetected, weights.fnWeight))
            == Weighted(windows, weights.tpWeight) + Weighted(undetected, weights.fnWeight)
  {
  }

  /** Detection rows over a list of result files. */
  function FileDetectionsOf(threshold: real): ResultFile -> nat
  {
    (file: ResultFile) => Detections(file.rows, threshold)
  }

  function FileDetections(files: seq<ResultFile>, threshold: real): nat
  {
    Total(files, FileDetectionsOf(threshold))
  }

  /** Labelled windows of one series in the label file, none for a series
      it does not list. */
  function RawWindowCountOf(raw: map<SeriesId, seq<RawWindow>>): SeriesId -> nat
  {
    p => if p in raw then |raw[p]| else 0
  }

  /** The classified state of a run, or the error that stops it. */
  function Scored(raw: map<SeriesId, seq<RawWindow>>, files: seq<ResultFile>, threshold: real, parse: Parser): (r: Result<State>)
    ensures (exists k :: k in raw && !ParsesAll(parse, raw[k])) ==> r == Err(MalformedTimestamp)
    ensures (forall k :: k in raw ==> ParsesAll(parse, raw[k])) ==>
      var wm := GetWindows(raw, parse).value;
      && (r.Ok? <==> forall i :: 0 <= i < |files| ==> FileConsistent(parse, wm, files[i]))
      && (r.Err? ==> FirstFileFailure(parse, wm, files, r.error))
      && (r.Ok? ==> forall p :: p in raw ==> RecordsRows(Initial(wm), r.value, p, parse, wm[p], FilesRows(files, p), threshold))
    ensures r.Ok? ==> r.value.windows.Keys == raw.Keys
    ensures r.Ok? ==> forall p :: p !in raw ==> FalsePositivesOf(r.value.falsePositives, p) == []
    ensures r.Ok? ==> Sound(r.value)
    ensures r.Ok? ==> forall p :: p in raw ==> SameBounds(GetWindows(raw, parse).value[p], r.value.windows[p])
  {
    match GetWindows(raw, parse)
    case Err(e) => Err(e)
    case Ok(wm) =>
      InitialSound(wm);
      ClassifyFiles(Initial(wm), files, threshold, parse)
  }

  /** A freshly loaded table is sound: it holds no detections and no
      false positives yet. */
  lemma InitialSound(wm: WindowMap)
    requires forall p, i :: p in wm && 0 <= i < |wm[p]| ==> wm[p][i].detections == []
    ensures Sound(Initial(wm))
  {
  }

  /** In a sound state, the false-positive total over the window table
      equals the sum over the false-positive lists themselves, in any
      iteration order of those lists. */
  lemma FalsePositiveSumsAgree(st: State, order: seq<SeriesId>, fpOrder: seq<SeriesId>)
    requires Sound(st)
    requires Enumerates(order, st.windows.Keys) && Enumerates(fpOrder, st.falsePositives.Keys)
    ensures Total(fpOrder, FpOf(st.falsePositives)) == Total(order, FpOf(st.falsePositives))
  {
    forall x ensures multiset(fpOrder)[x] <= multiset(order)[x] {
      EnumeratedOnce(order, st.windows.Keys, x);
      EnumeratedOnce(fpOrder, st.falsePositives.Keys, x);
    }
    forall x | multiset(fpOrder)[x] < multiset(order)[x] ensures FpOf(st.falsePositives)(x) == 0 {
      EnumeratedOnce(order, st.windows.Keys, x);
      EnumeratedOnce(fpOrder, st.falsePositives.Keys, x);
    }
    TotalOverSubset(order, fpOrder, FpOf(st.falsePositives));
  }

  /** The report a classified state yields, series visited in `order`. */
  function ReportOf(st: State, order: seq<SeriesId>, weights: CostMatrix): (r: Report)
    ensures r.detectedWindows + r.undetectedWindows == Total(order, WindowCountOf(st.windows))
    ensures r.detectedWindows <= r.truePositives
    ensures r.maxFromDetected + r.maxFromUndetected ==
            Weighted(Total(order, WindowCountOf(st.windows)), weights.tpWeight) + Weighted(r.undetectedWindows, weights.fnWeight)
    ensures forall p :: p in r.offenders <==> p in order && UndetectedCount(WindowsOf(st.windows, p)) > 0
    ensures Enumerates(order, st.windows.Keys) ==>
              forall i, j :: 0 <= i < j < |r.offenders| ==> r.offenders[i] != r.offenders[j]
  {
    WindowsPartition(st.windows, order);
    DetectedAtMostTp(st.windows, order);
    Offenders(st.windows, order);
    var detected := Total(order, DetectedOf(st.windows));
    var undetected := Total(order, UndetectedOf(st.windows));
    var fp := Total(order, FpOf(st.falsePositives));
    CeilingsAddUp(detected, undetected, Total(order, WindowCountOf(st.windows)), weights);
    Report(
      Total(order, TpOf(st.windows)),
      detected,
      undetected,
      fp,
      Weighted(detected, weights.tpWeight),
      Weighted(undetected, weights.tpWeight) + Weighted(undetected, weights.fnWeight),
      Weighted(fp, weights.fpWeight),
      Paths(Worst(Tallies(st.windows, order))))
  }

  /** The recorded total of a state splits into true and false positives. */
  lemma RecordedSplit(st: State, order: seq<SeriesId>)
    ensures Total(order, RecordedOf(st)) == Total(order, TpOf(st.windows)) + Total(order, FpOf(st.falsePositives))
  {
    TotalAdd(order, TpOf(st.windows), FpOf(st.falsePositives), RecordedOf(st));
  }

  /** A change confined to one series that records `d` more timestamps
      there adds `d` to the recorded total. */
  lemma OneSeriesRecords(st: State, st1: State, path: SeriesId, d: nat, order: seq<SeriesId>)
    requires Enumerates(order, st.windows.Keys) && path in st.windows
    requires OnlySeries(st, st1, path)
    requires SeriesRecorded(st1, path) == SeriesRecorded(st, path) + d
    ensures Total(order, RecordedOf(st1)) == Total(order, RecordedOf(st)) + d
  {
    forall x | x != path ensures RecordedOf(st1)(x) == RecordedOf(st)(x) {
      assert WindowsOf(st1.windows, x) == WindowsOf(st.windows, x);
    }
    EnumeratedOnce(order, st.windows.Keys, path);
    assert path in multiset(order);
    TotalPointUpdate(order, RecordedOf(st), RecordedOf(st1), path, d);
  }

  /** Classifying one file adds its detection rows to the recorded total
      of the whole corpus. */
  lemma ClassifyFileConservation(st: State, file: ResultFile, threshold: real, parse: Parser, order: seq<SeriesId>)
    requires Enumerates(order, st.windows.Keys)
    requires ClassifyFile(st, file, threshold, parse).Ok?
    ensures Total(order, RecordedOf(ClassifyFile(st, file, threshold, parse).value)) ==
            Total(order, RecordedOf(st)) + Detections(file.rows, threshold)
  {
    var path := SeriesPath(file.dir, file.name);
    OneSeriesRecords(st, ClassifyFile(st, file, threshold, parse).value, path, Detections(file.rows, threshold), order);
  }

  /** Classifying all files adds every detection row to the recorded total:
      each one becomes a true positive or a false positive, none is lost
      or counted twice. */
  lemma {:induction false} ClassifyFilesConservation(st: State, files: seq<ResultFile>, threshold: real, parse: Parser, order: seq<SeriesId>)
    requires Enumerates(order, st.windows.Keys)
    requires ClassifyFiles(st, files, threshold, parse).Ok?
    ensures Total(order, RecordedOf(ClassifyFiles(st, files, threshold, parse).value)) ==
            Total(order, RecordedOf(st)) + FileDetections(files, threshold)
    decreases |files|
  {
    if files != [] {
      var st1 := ClassifyFile(st, files[0], threshold, parse).value;
      ClassifyFileConservation(st, files[0], threshold, parse, order);
      ClassifyFilesConservation(st1, files[1..], threshold, parse, order);
      TotalFront(files, FileDetectionsOf(threshold));
    }
  }

  /** A freshly loaded table records nothing. */
  lemma InitialRecordsNothing(wm: WindowMap, order: seq<SeriesId>)
    requires forall p, i :: p in wm && 0 <= i < |wm[p]| ==> wm[p][i].detections == []
    ensures Total(order, RecordedOf(Initial(wm))) == 0
  {
    forall i | 0 <= i < |order| ensures RecordedOf(Initial(wm))(order[i]) == 0 {
      NoDetectionsAllUndetected(WindowsOf(wm, order[i]));
    }
    TotalOfZeros(order, RecordedOf(Initial(wm)));
  }

  /** Every report figure, ranking included, is the same whichever order
      the window table is visited in. */
  lemma ReportOrderIndependent(st: State, o1: seq<SeriesId>, o2: seq<SeriesId>, weights: CostMatrix)
    requires Enumerates(o1, st.windows.Keys) && Enumerates(o2, st.windows.Keys)
    ensures ReportOf(st, o1, weights) == ReportOf(st, o2, weights)
  {
    TotalPermutation(o1, o2, TpOf(st.windows));
    TotalPermutation(o1, o2, DetectedOf(st.windows));
    TotalPermutation(o1, o2, UndetectedOf(st.windows));
    TotalPermutation(o1, o2, FpOf(st.falsePositives));
    TalliesPermutation(st.windows, o1, o2);
    WorstPermutationInvariant(Tallies(st.windows, o1), Tallies(st.windows, o2));
    assert Paths(Worst(Tallies(st.windows, o1))) == Paths(Worst(Tallies(st.windows, o2)));
  }

  /** States of the same shape have the same totals. */
  lemma ShapeTotals(st: State, st': State, order: seq<SeriesId>)
    requires st.windows.Keys == st'.windows.Keys
    requires forall p :: p in st.windows ==> SameShape(st.windows[p], st'.windows[p])
    requires forall p :: |FalsePositivesOf(st.falsePositives, p)| == |FalsePositivesOf(st'.falsePositives, p)|
    ensures Total(order, TpOf(st.windows)) == Total(order, TpOf(st'.windows))
    ensures Total(order, DetectedOf(st.windows)) == Total(order, DetectedOf(st'.windows))
    ensures Total(order, UndetectedOf(st.windows)) == Total(order, UndetectedOf(st'.windows))
    ensures Total(order, FpOf(st.falsePositives)) == Total(order, FpOf(st'.falsePositives))
  {
    forall p
      ensures TpOf(st.windows)(p) == TpOf(st'.windows)(p)
      ensures DetectedOf(st.windows)(p) == DetectedOf(st'.windows)(p)
      ensures UndetectedOf(st.windows)(p) == UndetectedOf(st'.windows)(p)
    {
      if p in st.windows {
        SameShapeCounts(st.windows[p], st'.windows[p]);
      }
    }
    TotalPointwise(order, TpOf(st.windows), TpOf(st'.windows));
    TotalPointwise(order, DetectedOf(st.windows), DetectedOf(st'.windows));
    TotalPointwise(order, UndetectedOf(st.windows), UndetectedOf(st'.windows));
    TotalPointwise(order, FpOf(st.falsePositives), FpOf(st'.falsePositives));
  }

  /** Window tables of the same shape give the same ranking entries. */
  lemma ShapeTallies(wm: WindowMap, wm': WindowMap, order: seq<SeriesId>)
    requires wm.Keys == wm'.Keys
    requires forall p :: p in wm ==> SameShape(wm[p], wm'[p])
    ensures Tallies(wm, order) == Tallies(wm', order)
  {
    forall p ensures TallyOf(wm, p) == TallyOf(wm', p) {
      if p in wm {
        SameShapeCounts(wm[p], wm'[p]);
      }
    }
    MapSeqIndex(order, TallyFn(wm));
    MapSeqIndex(order, TallyFn(wm'));
  }

  /** The report sees only how many detections each window holds and how
      many false positives each series has. */
  lemma ReportOfShape(st: State, st': State, order: seq<SeriesId>, weights: CostMatrix)
    requires st.windows.Keys == st'.windows.Keys
    requires forall p :: p in st.windows ==> SameShape(st.windows[p], st'.windows[p])
    requires forall p :: |FalsePositivesOf(st.falsePositives, p)| == |FalsePositivesOf(st'.falsePositives, p)|
    ensures ReportOf(st, order, weights) == ReportOf(st', order, weights)
  {
    ShapeTotals(st, st', order);
    ShapeTallies(st.windows, st'.windows, order);
    var a, b := ReportOf(st, order, weights), ReportOf(st', order, weights);
    assert a.truePositives == b.truePositives && a.falsePositives == b.falsePositives;
    assert a.detectedWindows == b.detectedWindows && a.undetectedWindows == b.undetectedWindows;
    assert a.offenders == b.offenders;
  }

  /** The order in which the result files are discovered does not matter:
      two runs over the same files succeed together and then report the
      same figures and the same ranking. */
  lemma FileOrderIndependent(raw: map<SeriesId, seq<RawWindow>>, files: seq<ResultFile>, files': seq<ResultFile>,
                             threshold: real, parse: Parser, order: seq<SeriesId>, weights: CostMatrix)
    requires multiset(files) == multiset(files')
    ensures Scored(raw, files, threshold, parse).Ok? <==> Scored(raw, files', threshold, parse).Ok?
    ensures Scored(raw, files, threshold, parse).Ok? ==>
              ReportOf(Scored(raw, files, threshold, parse).value, order, weights) ==
              ReportOf(Scored(raw, files', threshold, parse).value, order, weights)
  {
    if forall k :: k in raw ==> ParsesAll(parse, raw[k]) {
      var wm := GetWindows(raw, parse).value;
      forall i | 0 <= i < |files'| ensures files'[i] in files {
        assert files'[i] in multiset(files');
      }
      forall i | 0 <= i < |files| ensures files[i] in files' {
        assert files[i] in multiset(files);
      }
      var r, r' := Scored(raw, files, threshold, parse), Scored(raw, files', threshold, parse);
      if r.Ok? && r'.Ok? {
        forall p ensures |FalsePositivesOf(r.value.falsePositives, p)| == |FalsePositivesOf(r'.value.falsePositives, p)|
          ensures p in r.value.windows ==> SameShape(r.value.windows[p], r'.value.windows[p])
        {
          if p in raw {
            RecordsShape(Initial(wm), r.value, r'.value, p, parse, wm[p], files, files', threshold);
          }
        }
        ReportOfShape(r.value, r'.value, order, weights);
      }
    }
  }

  /** Each reported tally is the tally of a visited series. */
  lemma WorstAreTallies(wm: WindowMap, order: seq<SeriesId>)
    ensures var w := Worst(Tallies(wm, order));
            forall i :: 0 <= i < |w| ==> w[i] == TallyOf(wm, w[i].path) && w[i].path in order
  {
    var w := Worst(Tallies(wm, order));
    forall i | 0 <= i < |w| ensures w[i] == TallyOf(wm, w[i].path) && w[i].path in order {
      assert w[i] in w;
      TallyMembership(wm, order, w[i]);
    }
  }

  /** The reported series are exactly the visited series with at least one
      undetected window. */
  lemma OffendersExact(wm: WindowMap, order: seq<SeriesId>, p: SeriesId)
    ensures p in Paths(Worst(Tallies(wm, order))) <==> p in order && UndetectedCount(WindowsOf(wm, p)) > 0
  {
    var w := Worst(Tallies(wm, order));
    var r := Paths(w);
    WorstAreTallies(wm, order);
    if p in r {
      var k :| 0 <= k < |r| && r[k] == p;
      assert w[k] in w;
    }
    if p in order && UndetectedCount(WindowsOf(wm, p)) > 0 {
      TallyMembership(wm, order, TallyOf(wm, p));
      assert TallyOf(wm, p) in w;
      var k :| 0 <= k < |w| && w[k] == TallyOf(wm, p);
      assert r[k] == p;
    }
  }

  /** A series' tally is reported at most once when the table is visited
      once per series. */
  lemma TallyOnce(wm: WindowMap, order: seq<SeriesId>, x: Tally)
    requires Enumerates(order, wm.Keys) && x == TallyOf(wm, x.path)
    ensures multiset(Worst(Tallies(wm, order)))[x] <= 1
  {
    EnumeratedOnce(order, wm.Keys, x.path);
    TallyCount(wm, order, x.path);
  }

  /** No series is reported twice when the table is visited once per series. */
  lemma OffendersDistinct(wm: WindowMap, order: seq<SeriesId>)
    requires Enumerates(order, wm.Keys)
    ensures var r := Paths(Worst(Tallies(wm, order)));
            forall i, j :: 0 <= i < j < |r| ==> r[i] != r[j]
  {
    var w := Worst(Tallies(wm, order));
    var r := Paths(w);
    WorstAreTallies(wm, order);
    forall i, j | 0 <= i < j < |r| ensures r[i] != r[j] {
      var x := w[i];
      if r[i] == r[j] {
        assert x == w[j];
        TwiceCounted(w, i, j);
        TallyOnce(wm, order, x);
        assert false;
      }
    }
  }

  /** The reported series: exactly those with missed windows, none twice. */
  lemma Offenders(wm: WindowMap, order: seq<SeriesId>)
    ensures var r := Paths(Worst(Tallies(wm, order)));
            && (forall p :: p in r <==> p in order && UndetectedCount(WindowsOf(wm, p)) > 0)
            && (Enumerates(order, wm.Keys) ==> forall i, j :: 0 <= i < j < |r| ==> r[i] != r[j])
  {
    forall p ensures p in Paths(Worst(Tallies(wm, order))) <==> p in order && UndetectedCount(WindowsOf(wm, p)) > 0 {
      OffendersExact(wm, order, p);
    }
    if Enumerates(order, wm.Keys) {
      OffendersDistinct(wm, order);
    }
  }

  /** The reported series ascend by (undetected windows, path): the series
      missing the fewest windows comes first. */
  lemma OffendersAscending(wm: WindowMap, order: seq<SeriesId>)
    ensures var r := Paths(Worst(Tallies(wm, order)));
            forall i, j :: 0 <= i < j < |r| ==> TallyLe(TallyOf(wm, r[i]), TallyOf(wm, r[j]))
  {
    WorstAreTallies(wm, order);
  }

  /** What the report of a successful run promises: every detection row
      counted once, as a true positive or a false positive; the labelled
      windows split into detected and undetected ones; and the two window
      ceilings adding up to every window's true-positive weight plus the
      missed windows' false-negative weight. */
  lemma ScoredReport(raw: map<SeriesId, seq<RawWindow>>, order: seq<SeriesId>, files: seq<ResultFile>,
                     threshold: real, weights: CostMatrix, parse: Parser)
    requires Enumerates(order, raw.Keys)
    requires Scored(raw, files, threshold, parse).Ok?
    ensures var rep := ReportOf(Scored(raw, files, threshold, parse).value, order, weights);
      && rep.truePositives + rep.falsePositives == FileDetections(files, threshold)
      && rep.detectedWindows + rep.undetectedWindows == Total(order, RawWindowCountOf(raw))
      && rep.detectedWindows <= rep.truePositives
      && rep.maxFromDetected + rep.maxFromUndetected ==
         Weighted(Total(order, RawWindowCountOf(raw)), weights.tpWeight) + Weighted(rep.undetectedWindows, weights.fnWeight)
  {
    var wm := GetWindows(raw, parse).value;
    var st := Scored(raw, files, threshold, parse).value;
    InitialRecordsNothing(wm, order);
    ClassifyFilesConservation(Initial(wm), files, threshold, parse, order);
    RecordedSplit(st, order);
    WindowsPartition(st.windows, order);
    DetectedAtMostTp(st.windows, order);
    forall p ensures WindowCountOf(st.windows)(p) == RawWindowCountOf(raw)(p) {
      if p in raw {
        assert SameBounds(wm[p], st.windows[p]);
      }
    }
    TotalPointwise(order, WindowCountOf(st.windows), RawWindowCountOf(raw));
    var rep := ReportOf(st, order, weights);
    CeilingsAddUp(rep.detectedWindows, rep.undetectedWindows, Total(order, RawWindowCountOf(raw)), weights);
  }

  /** The reduction of a classified state to its report: the totals, the
      weighted ceilings, and the ranking of series by missed windows. */
  method Summarise(st: State, order: seq<SeriesId>, weights: CostMatrix) returns (report: Report)
    ensures report.detectedWindows + report.undetectedWindows == Total(order, WindowCountOf(st.windows))
    ensures report.detectedWindows <= report.truePositives
    ensures forall p :: p in report.offenders <==> p in order && UndetectedCount(WindowsOf(st.windows, p)) > 0
    ensures Enumerates(order, st.windows.Keys) ==>
              forall i, j :: 0 <= i < j < |report.offenders| ==> report.offenders[i] != report.offenders[j]
    ensures report == ReportOf(st, order, weights)
  {
    var tp, detected, undetected, tallies := Aggregate(st.windows, order);
    var fp := CountFalsePositives(st.falsePositives, order);
    var offenders := Paths(Worst(tallies));
    report := Report(
      tp, detected, undetected, fp,
      Weighted(detected, weights.tpWeight),
      Weighted(undetected, weights.tpWeight) + Weighted(undetected, weights.fnWeight),
      Weighted(fp, weights.fpWeight),
      offenders);
    assert report.maxFromDetected == ReportOf(st, order, weights).maxFromDetected;
    assert report.maxFromUndetected == ReportOf(st, order, weights).maxFromUndetected;
    assert report.maxNegativeFromFp == ReportOf(st, order, weights).maxNegativeFromFp;
    assert report.offenders == ReportOf(st, order, weights).offenders;
    Offenders(st.windows, order);
  }

  /** The scoring run. Loading fails on an unparsable window timestamp;
      classification fails on an unknown series, an unparsable row
      timestamp or a label that disagrees with the windows; otherwise the
      report counts every detection row once, as a true positive or a
      false positive, and partitions the labelled windows into detected
      and undetected ones. */
  method Analyze(raw: map<SeriesId, seq<RawWindow>>, order: seq<SeriesId>, files: seq<ResultFile>,
                 threshold: real, weights: CostMatrix, parse: Parser)
    returns (r: Result<Report>)
    requires Enumerates(order, raw.Keys)
    ensures r.Ok? <==> Scored(raw, files, threshold, parse).Ok?
    ensures r.Err? ==> r == Err(Scored(raw, files, threshold, parse).error)
    ensures (exists k :: k in raw && !ParsesAll(parse, raw[k])) ==> r == Err(MalformedTimestamp)
    ensures r.Err? && (forall k :: k in raw ==> ParsesAll(parse, raw[k])) ==>
              FirstFileFailure(parse, GetWindows(raw, parse).value, files, r.error)
    ensures r.Ok? ==> r.value == ReportOf(Scored(raw, files, threshold, parse).value, order, weights)
    ensures r.Ok? ==> r.value.truePositives + r.value.falsePositives == FileDetections(files, threshold)
    ensures r.Ok? ==> r.value.detectedWindows + r.value.undetectedWindows == Total(order, RawWindowCountOf(raw))
    ensures r.Ok? ==> r.value.detectedWindows <= r.value.truePositives
    ensures r.Ok? ==> r.value.maxFromDetected + r.value.maxFromUndetected ==
                      Weighted(Total(order, RawWindowCountOf(raw)), weights.tpWeight)
                      + Weighted(r.value.undetectedWindows, weights.fnWeight)
    ensures r.Ok? ==> forall fpOrder :: Enumerates(fpOrder, Scored(raw, files, threshold, parse).value.falsePositives.Keys) ==>
                      r.value.falsePositives == Total(fpOrder, FpOf(Scored(raw, files, threshold, parse).value.falsePositives))
  {
    var loaded := GetWindows(raw, parse);
    if loaded.Err? {
      return Err(loaded.error);
    }
    var wm := loaded.value;
    var classified := ClassifyFiles(Initial(wm), files, threshold, parse);
    if classified.Err? {
      return Err(classified.error);
    }
    var report := Summarise(classified.value, order, weights);
    r := Ok(report);
    ScoredReport(raw, order, files, threshold, weights, parse);
    var st := classified.value;
    forall fpOrder | Enumerates(fpOrder, st.falsePositives.Keys)
      ensures report.falsePositives == Total(fpOrder, FpOf(st.falsePositives))
    {
      FalsePositiveSumsAgree(st, order, fpOrder);
    }
  }
}
