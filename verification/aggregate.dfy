/** Reduction of the classified corpus to the report totals, and the
    per-series tallies the ranking sorts. Series are visited in `order`,
    the iteration order of the window table. */
module Aggregation {
  import opened Windows
  import opened Classify
  import opened Totals
  import opened Ranking

  function TpOf(wm: WindowMap): SeriesId -> nat
  {
    p => DetectionCount(WindowsOf(wm, p))
  }

  function DetectedOf(wm: WindowMap): SeriesId -> nat
  {
    p => DetectedCount(WindowsOf(wm, p))
  }

  function UndetectedOf(wm: WindowMap): SeriesId -> nat
  {
    p => UndetectedCount(WindowsOf(wm, p))
  }

  function WindowCountOf(wm: WindowMap): SeriesId -> nat
  {
    p => |WindowsOf(wm, p)|
  }

  function FpOf(fps: FpMap): SeriesId -> nat
  {
    p => |FalsePositivesOf(fps, p)|
  }

  function RecordedOf(st: State): SeriesId -> nat
  {
    p => SeriesRecorded(st, p)
  }

  /** The ranking entry of one series. */
  function TallyOf(wm: WindowMap, p: SeriesId): Tally
  {
    Tally(UndetectedCount(WindowsOf(wm, p)), p)
  }

  function TallyFn(wm: WindowMap): SeriesId -> Tally
  {
    p => TallyOf(wm, p)
  }

  /** Ranking entries, one per visited series, in visiting order. */
  function Tallies(wm: WindowMap, order: seq<SeriesId>): seq<Tally>
  {
    MapSeq(order, TallyFn(wm))
  }

  /** The missed-window count of one tally. */
  function Missed(t: Tally): nat
  {
    t.missed
  }

  /** Missed windows summed over a tally list. */
  function MissedTotal(ts: seq<Tally>): nat
  {
    Total(ts, Missed)
  }

  /** The tally counters add up to the undetected windows of the visited series. */
  lemma {:induction false} MissedTotalIsUndetected(wm: WindowMap, order: seq<SeriesId>)
    ensures MissedTotal(Tallies(wm, order)) == Total(order, UndetectedOf(wm))
  {
    if order != [] {
      var n := |order| - 1;
      MissedTotalIsUndetected(wm, order[..n]);
    }
  }

  /** Every window of the visited series is counted exactly once, as
      detected or as undetected. */
  lemma WindowsPartition(wm: WindowMap, order: seq<SeriesId>)
    ensures Total(order, DetectedOf(wm)) + Total(order, UndetectedOf(wm)) == Total(order, WindowCountOf(wm))
  {
    forall p ensures WindowCountOf(wm)(p) == DetectedOf(wm)(p) + UndetectedOf(wm)(p) {
      DetectedPartition(WindowsOf(wm, p));
    }
    TotalAdd(order, DetectedOf(wm), UndetectedOf(wm), WindowCountOf(wm));
  }

  /** Detected windows never outnumber true positives. */
  lemma {:induction false} DetectedAtMostTp(wm: WindowMap, order: seq<SeriesId>)
    ensures Total(order, DetectedOf(wm)) <= Total(order, TpOf(wm))
  {
    if order != [] {
      DetectedAtMostTp(wm, order[..|order| - 1]);
      DetectedAtMostDetections(WindowsOf(wm, order[|order| - 1]));
    }
  }

  lemma TalliesPermutation(wm: WindowMap, o1: seq<SeriesId>, o2: seq<SeriesId>)
    requires multiset(o1) == multiset(o2)
    ensures multiset(Tallies(wm, o1)) == multiset(Tallies(wm, o2))
  {
    MapSeqPermutation(o1, o2, TallyFn(wm));
  }

  /** A series is among the tallies exactly when it is visited, and then
      with its own missed-window count. */
  lemma TallyMembership(wm: WindowMap, order: seq<SeriesId>, x: Tally)
    ensures x in Tallies(wm, order) <==> x.path in order && x == TallyOf(wm, x.path)
  {
    var ts := Tallies(wm, order);
    MapSeqIndex(order, TallyFn(wm));
    if x.path in order && x == TallyOf(wm, x.path) {
      var i :| 0 <= i < |order| && order[i] == x.path;
      assert ts[i] == x;
    }
  }

  /** A series' ranking entry occurs as often as the series is visited. */
  lemma TallyCount(wm: WindowMap, order: seq<SeriesId>, p: SeriesId)
    ensures multiset(Tallies(wm, order))[TallyOf(wm, p)] == multiset(order)[p]
  {
    MapSeqInjectiveCount(order, TallyFn(wm), p);
  }

  /** One pass over the windows of one series: its true positives, its
      detected windows and its undetected windows. */
  method AggregateSeries(ws: seq<Window>) returns (tp: nat, detected: nat, undetected: nat)
    ensures tp == DetectionCount(ws)
    ensures detected == DetectedCount(ws)
    ensures undetected == UndetectedCount(ws)
    ensures detected + undetected == |ws|
  {
    tp, detected, undetected := 0, 0, 0;
    var j := 0;
    while j < |ws|
      invariant 0 <= j <= |ws|
      invariant tp == DetectionCount(ws[..j])
      invariant detected == DetectedCount(ws[..j])
      invariant undetected == UndetectedCount(ws[..j])
    {
      assert ws[..j + 1][..j] == ws[..j];
      tp := tp + |ws[j].detections|;
      if |ws[j].detections| > 0 {
        detected := detected + 1;
      } else {
        undetected := undetected + 1;
      }
      j := j + 1;
    }
    assert ws[..j] == ws;
    DetectedPartition(ws);
  }

  /** One pass over the table in `order`, as the scoring loop does it:
      true positives, detected and undetected windows, and each series'
      missed-window tally. */
  method Aggregate(wm: WindowMap, order: seq<SeriesId>)
    returns (tp: nat, detected: nat, undetected: nat, tallies: seq<Tally>)
    ensures tp == Total(order, TpOf(wm))
    ensures detected == Total(order, DetectedOf(wm))
    ensures undetected == Total(order, UndetectedOf(wm))
    ensures tallies == Tallies(wm, order)
    ensures detected + undetected == Total(order, WindowCountOf(wm))
    ensures detected <= tp
    ensures MissedTotal(tallies) == undetected
  {
    tp, detected, undetected, tallies := 0, 0, 0, [];
    var i := 0;
    while i < |order|
      invariant 0 <= i <= |order|
      invariant tp == Total(order[..i], TpOf(wm))
      invariant detected == Total(order[..i], DetectedOf(wm))
      invariant undetected == Total(order[..i], UndetectedOf(wm))
      invariant tallies == Tallies(wm, order[..i])
    {
      var path := order[i];
      var seriesTp, seriesDetected, missed := AggregateSeries(WindowsOf(wm, path));
      tp, detected, undetected := tp + seriesTp, detected + seriesDetected, undetected + missed;
      assert order[..i + 1] == order[..i] + [path];
      TotalAppend(order[..i], path, TpOf(wm));
      TotalAppend(order[..i], path, DetectedOf(wm));
      TotalAppend(order[..i], path, UndetectedOf(wm));
      tallies := tallies + [Tally(missed, path)];
      i := i + 1;
    }
    assert order[..i] == order;
    WindowsPartition(wm, order);
    DetectedAtMostTp(wm, order);
    MissedTotalIsUndetected(wm, order);
  }

  /** One pass over the false-positive lists. Series without an entry
      contribute nothing. */
  method CountFalsePositives(fps: FpMap, order: seq<SeriesId>) returns (fp: nat)
    ensures fp == Total(order, FpOf(fps))
  {
    fp := 0;
    var i := 0;
    while i < |order|
      invariant 0 <= i <= |order|
      invariant fp == Total(order[..i], FpOf(fps))
    {
      assert order[..i + 1] == order[..i] + [order[i]];
      TotalAppend(order[..i], order[i], FpOf(fps));
      fp := fp + |FalsePositivesOf(fps, order[i])|;
      i := i + 1;
    }
    assert order[..i] == order;
  }
}
