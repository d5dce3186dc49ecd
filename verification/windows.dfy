/** The ground-truth window table: per series, its anomaly windows in the
    order the label file lists them, each with the detections found in it. */
module Windows {
  import opened Outcomes
  import opened Timestamps

  /** A series is named by its path relative to the data directory. */
  type SeriesId = string

  /** A closed interval `[start, end]` of timestamps. */
  datatype Bounds = Bounds(start: Timestamp, end: Timestamp)

  /** One window and the timestamps of the detections credited to it. */
  datatype Window = Window(bounds: Bounds, detections: seq<Timestamp>)

  type WindowMap = map<SeriesId, seq<Window>>

  /** A window as stored in the label file: start and end timestamp text. */
  type RawWindow = (string, string)

  /** Both ends of a window count as inside it. */
  predicate Contains(b: Bounds, t: Timestamp)
  {
    b.start <= t && t <= b.end
  }

  /** Some window of `ws` contains `t`. */
  predicate Covered(ws: seq<Window>, t: Timestamp)
  {
    exists j :: 0 <= j < |ws| && Contains(ws[j].bounds, t)
  }

  /** The windows of `p`, or none when `p` is not in the table. */
  function WindowsOf(wm: WindowMap, p: SeriesId): seq<Window>
  {
    if p in wm then wm[p] else []
  }

  /** First-match lookup: the position of the first window, in list order,
      whose closed interval contains `t`. */
  function InWindow(t: Timestamp, ws: seq<Window>): (r: Option<nat>)
    ensures r.Some? ==> r.value < |ws| && Contains(ws[r.value].bounds, t)
    ensures r.Some? ==> forall j :: 0 <= j < r.value ==> !Contains(ws[j].bounds, t)
    ensures r.None? <==> !Covered(ws, t)
  {
    if ws == [] then None
    else if Contains(ws[0].bounds, t) then Some(0)
    else match InWindow(t, ws[1..])
      case None => None
      case Some(k) => Some(k + 1)
  }

  /** Same windows, in the same order, with the same bounds; detections
      may differ. */
  predicate SameBounds(ws: seq<Window>, vs: seq<Window>)
  {
    |ws| == |vs| && forall i :: 0 <= i < |ws| ==> ws[i].bounds == vs[i].bounds
  }

  /** Membership depends on the bounds only, never on detections. */
  lemma CoveredSameBounds(ws: seq<Window>, vs: seq<Window>, t: Timestamp)
    requires SameBounds(ws, vs)
    ensures Covered(ws, t) <==> Covered(vs, t)
  {
    if Covered(ws, t) {
      var j :| 0 <= j < |ws| && Contains(ws[j].bounds, t);
      assert Contains(vs[j].bounds, t);
    }
    if Covered(vs, t) {
      var j :| 0 <= j < |vs| && Contains(vs[j].bounds, t);
      assert Contains(ws[j].bounds, t);
    }
  }

  /** First-match lookup gives the same position on windows that share bounds. */
  lemma {:induction false} InWindowSameBounds(ws: seq<Window>, vs: seq<Window>, t: Timestamp)
    requires SameBounds(ws, vs)
    ensures InWindow(t, ws) == InWindow(t, vs)
  {
    if ws != [] {
      assert SameBounds(ws[1..], vs[1..]);
      InWindowSameBounds(ws[1..], vs[1..], t);
    }
  }

  /** Every window text of a series parses. */
  predicate ParsesAll(parse: Parser, pairs: seq<RawWindow>)
  {
    forall i :: 0 <= i < |pairs| ==> Dt(parse, pairs[i].0).Some? && Dt(parse, pairs[i].1).Some?
  }

  /** The window built from the `i`-th label-file pair: parsed bounds and
      no detections yet. */
  predicate FreshFrom(parse: Parser, pair: RawWindow, w: Window)
  {
    && Dt(parse, pair.0) == Some(w.bounds.start)
    && Dt(parse, pair.1) == Some(w.bounds.end)
    && w.detections == []
  }

  /** One series' windows, parsed in the order given. */
  function ParseSeries(parse: Parser, pairs: seq<RawWindow>): (r: Option<seq<Window>>)
    ensures r.Some? <==> ParsesAll(parse, pairs)
    ensures r.Some? ==> |r.value| == |pairs|
    ensures r.Some? ==> forall i :: 0 <= i < |pairs| ==> FreshFrom(parse, pairs[i], r.value[i])
  {
    if pairs == [] then Some([])
    else
      match (Dt(parse, pairs[0].0), Dt(parse, pairs[0].1), ParseSeries(parse, pairs[1..]))
      case (Some(s), Some(e), Some(rest)) => Some([Window(Bounds(s, e), [])] + rest)
      case _ => None
  }

  /** The whole window table: every series keeps the number and order of
      its windows, every window starts with no detections, and a single
      unparsable timestamp fails the load. */
  function GetWindows(raw: map<SeriesId, seq<RawWindow>>, parse: Parser): (r: Result<WindowMap>)
    ensures r.Ok? <==> forall k :: k in raw ==> ParsesAll(parse, raw[k])
    ensures r.Err? ==> r.error == MalformedTimestamp
    ensures r.Ok? ==> r.value.Keys == raw.Keys
    ensures r.Ok? ==> forall k :: k in raw ==> |r.value[k]| == |raw[k]|
    ensures r.Ok? ==> forall k, i :: k in raw && 0 <= i < |raw[k]| ==> FreshFrom(parse, raw[k][i], r.value[k][i])
  {
    if forall k :: k in raw ==> ParseSeries(parse, raw[k]).Some? then
      Ok(map k | k in raw :: ParseSeries(parse, raw[k]).value)
    else
      Err(MalformedTimestamp)
  }

  /** Detections credited to the windows of one series (its share of the
      true-positive total). */
  function DetectionCount(ws: seq<Window>): nat
  {
    if ws == [] then 0
    else DetectionCount(ws[..|ws| - 1]) + |ws[|ws| - 1].detections|
  }

  /** Windows with at least one detection. */
  function DetectedCount(ws: seq<Window>): nat
  {
    if ws == [] then 0
    else DetectedCount(ws[..|ws| - 1]) + (if |ws[|ws| - 1].detections| > 0 then 1 else 0)
  }

  /** Windows with no detection. */
  function UndetectedCount(ws: seq<Window>): nat
  {
    if ws == [] then 0
    else UndetectedCount(ws[..|ws| - 1]) + (if |ws[|ws| - 1].detections| > 0 then 0 else 1)
  }

  /** Every window of a series is either detected or undetected. */
  lemma {:induction false} DetectedPartition(ws: seq<Window>)
    ensures DetectedCount(ws) + UndetectedCount(ws) == |ws|
  {
    if ws != [] {
      DetectedPartition(ws[..|ws| - 1]);
    }
  }

  /** A detected window holds at least one detection. */
  lemma {:induction false} DetectedAtMostDetections(ws: seq<Window>)
    ensures DetectedCount(ws) <= DetectionCount(ws)
  {
    if ws != [] {
      DetectedAtMostDetections(ws[..|ws| - 1]);
    }
  }

  /** A series with no detections anywhere has all its windows undetected. */
  lemma {:induction false} NoDetectionsAllUndetected(ws: seq<Window>)
    requires forall i :: 0 <= i < |ws| ==> ws[i].detections == []
    ensures DetectionCount(ws) == 0 && DetectedCount(ws) == 0 && UndetectedCount(ws) == |ws|
  {
    if ws != [] {
      NoDetectionsAllUndetected(ws[..|ws| - 1]);
    }
  }

  /** `ws` and `vs` have as many windows, and each pair of windows at
      the same position holds as many detections. */
  predicate SameShape(ws: seq<Window>, vs: seq<Window>)
  {
    |ws| == |vs| && forall i :: 0 <= i < |ws| ==> |ws[i].detections| == |vs[i].detections|
  }

  /** The three per-series counts see only how many detections each
      window holds. */
  lemma {:induction false} SameShapeCounts(ws: seq<Window>, vs: seq<Window>)
    requires SameShape(ws, vs)
    ensures DetectionCount(ws) == DetectionCount(vs)
    ensures DetectedCount(ws) == DetectedCount(vs)
    ensures UndetectedCount(ws) == UndetectedCount(vs)
  {
    if ws != [] {
      SameShapeCounts(ws[..|ws| - 1], vs[..|vs| - 1]);
    }
  }

  /** `ws` with one more detection `t` appended to window `i`. */
  function Credit(ws: seq<Window>, i: nat, t: Timestamp): (r: seq<Window>)
    requires i < |ws|
    ensures SameBounds(ws, r)
    ensures r[i].detections == ws[i].detections + [t]
    ensures forall j :: 0 <= j < |ws| && j != i ==> r[j] == ws[j]
    ensures DetectionCount(r) == DetectionCount(ws) + 1
  {
    CreditCount(ws, i, t);
    ws[i := ws[i].(detections := ws[i].detections + [t])]
  }

  lemma {:induction false} CreditCount(ws: seq<Window>, i: nat, t: Timestamp)
    requires i < |ws|
    ensures DetectionCount(ws[i := ws[i].(detections := ws[i].detections + [t])]) == DetectionCount(ws) + 1
  {
    var r := ws[i := ws[i].(detections := ws[i].detections + [t])];
    var n := |ws| - 1;
    if i < n {
      assert r[..n] == ws[..n][i := ws[i].(detections := ws[i].detections + [t])];
      CreditCount(ws[..n], i, t);
    } else {
      assert r[..n] == ws[..n];
    }
  }
}
