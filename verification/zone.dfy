/** The cash-counter zone detector of detect.py: an interactive session that
    collects polygon points from mouse clicks and key presses, the choice of
    zone and video source at start-up, and the per-person alert decided by
    where the person's feet are. */
module Zone {
  import opened Wrappers
  import opened Geometry

  // ---------------------------------------------------------------------
  // Zone calibration session
  // ---------------------------------------------------------------------

  /** What the session sees: a left click at a point, any other mouse
      event, or the raw code a key wait returned. */
  datatype UiEvent = Click(p: Point) | OtherMouse | Key(code: int)

  /** The key code masked to its low byte (`code & 0xFF`; Dafny's `%` is
      never negative, which matches the mask on negative codes too). */
  function KeyByte(code: int): (b: int)
    ensures 0 <= b < 256
    ensures (code - b) % 256 == 0
  {
    code % 256
  }

  predicate IsKey(e: UiEvent, c: char) {
    e.Key? && KeyByte(e.code) == c as int
  }

  /** A key that ends the session: `q` cancels, `c` completes. */
  predicate EndsSession(e: UiEvent) {
    IsKey(e, 'q') || IsKey(e, 'c')
  }

  /** Still collecting points; showing the closed polygon for two seconds
      after `c` with more than two points; completed with the collected
      points (and whether the closed preview was shown); or cancelled. */
  datatype Session =
    | Collecting(points: seq<Point>)
    | Previewing(points: seq<Point>)
    | Completed(points: seq<Point>, closedPreview: bool)
    | Cancelled

  /** The session has returned to its caller. */
  predicate Ended(s: Session) {
    s.Completed? || s.Cancelled?
  }

  /** One event. While collecting, a click appends its point, `r` empties
      the list, `q` cancels and `c` completes, through the two-second
      preview when more than two points were collected; other mouse events
      and keys, the no-key code 255 among them, change nothing. The preview
      wait still runs the mouse callback, so clicks keep being appended to
      the list that is returned, until the wait ends with a key or its
      timeout (which the wait reports as the no-key code). */
  function Handle(s: Session, e: UiEvent): (s': Session)
    ensures Ended(s) ==> s' == s
    ensures s.Collecting? && e.Click? ==> s' == Collecting(s.points + [e.p])
    ensures s.Collecting? && !e.Click? && !EndsSession(e) && !IsKey(e, 'r') ==> s' == s
    ensures s.Collecting? && IsKey(e, 'r') ==> s' == Collecting([])
    ensures s.Collecting? && IsKey(e, 'q') ==> s' == Cancelled
    ensures s.Collecting? && IsKey(e, 'c') && |s.points| <= 2 ==> s' == Completed(s.points, false)
    ensures s.Collecting? && IsKey(e, 'c') && |s.points| > 2 ==> s' == Previewing(s.points)
    ensures s.Previewing? && e.Click? ==> s' == Previewing(s.points + [e.p])
    ensures s.Previewing? && e.OtherMouse? ==> s' == s
    ensures s.Previewing? && e.Key? ==> s' == Completed(s.points, true)
  {
    match s
    case Completed(_, _) => s
    case Cancelled => s
    case Previewing(points) =>
      (match e
       case Click(p) => Previewing(points + [p])
       case OtherMouse => s
       case Key(_) => Completed(points, true))
    case Collecting(points) =>
      match e
      case Click(p) => Collecting(points + [p])
      case OtherMouse => s
      case Key(code) =>
        var k := KeyByte(code);
        if k == 'q' as int then Cancelled
        else if k == 'c' as int then
          (if |points| > 2 then Previewing(points) else Completed(points, false))
        else if k == 'r' as int then Collecting([])
        else s
  }

  /** The session after a sequence of events, starting with no points. */
  function Run(events: seq<UiEvent>): Session
    decreases |events|
  {
    if events == [] then Collecting([])
    else Handle(Run(events[..|events| - 1]), events[|events| - 1])
  }

  /** A session on a video source that cannot be opened is cancelled at
      once. */
  function CalibrateZone(sourceOpened: bool, events: seq<UiEvent>): (s: Session)
    ensures !sourceOpened ==> s == Cancelled
    ensures sourceOpened ==> s == Run(events)
  {
    if !sourceOpened then Cancelled else Run(events)
  }

  /** What the session hands back: the points on completion, nothing when
      cancelled, and nothing yet while it is still collecting or showing
      the preview. */
  function Returned(s: Session): (r: Option<seq<Point>>)
    ensures r.Some? <==> s.Completed?
    ensures r.Some? ==> r.value == s.points
  {
    match s
    case Completed(points, _) => Some(points)
    case _ => None
  }

  /** The clicked points, in click order. */
  function Clicks(events: seq<UiEvent>): seq<Point>
    decreases |events|
  {
    if events == [] then []
    else
      var e := events[|events| - 1];
      Clicks(events[..|events| - 1]) + (if e.Click? then [e.p] else [])
  }

  /** The index just after the last `r` key, or 0 without one. */
  function AfterLastReset(events: seq<UiEvent>): (r: nat)
    ensures r <= |events|
    ensures forall k :: r <= k < |events| ==> !IsKey(events[k], 'r')
    ensures r > 0 ==> IsKey(events[r - 1], 'r')
    decreases |events|
  {
    if events == [] then 0
    else if IsKey(events[|events| - 1], 'r') then |events|
    else AfterLastReset(events[..|events| - 1])
  }

  lemma {:induction false} ClicksAppend(events: seq<UiEvent>, e: UiEvent)
    ensures Clicks(events + [e]) == Clicks(events) + (if e.Click? then [e.p] else [])
  {
    assert (events + [e])[..|events|] == events;
  }

  /** While no ending key was pressed, the session holds exactly the points
      clicked since the last reset, in click order. */
  lemma {:induction false} CollectingHoldsClicksSinceReset(events: seq<UiEvent>)
    requires forall k :: 0 <= k < |events| ==> !EndsSession(events[k])
    ensures Run(events) == Collecting(Clicks(events[AfterLastReset(events)..]))
    decreases |events|
  {
    if events != [] {
      var n := |events| - 1;
      var prefix := events[..n];
      var e := events[n];
      assert events == prefix + [e];
      CollectingHoldsClicksSinceReset(prefix);
      if IsKey(e, 'r') {
        assert events[AfterLastReset(events)..] == [];
      } else {
        var a := AfterLastReset(prefix);
        assert AfterLastReset(events) == a;
        assert events[a..] == prefix[a..] + [e];
        ClicksAppend(prefix[a..], e);
        if e.Key? {
          var k := KeyByte(e.code);
          assert k != 'q' as int && k != 'c' as int && k != 'r' as int;
        }
      }
    }
  }

  /** Events after the session has returned are ignored. */
  lemma {:induction false} EndedSessionIgnoresRest(events: seq<UiEvent>, t: nat)
    requires t <= |events|
    requires Ended(Run(events[..t]))
    ensures Run(events) == Run(events[..t])
    decreases |events| - t
  {
    if t < |events| {
      var next := events[..t + 1];
      assert next[..t] == events[..t];
      EndedSessionIgnoresRest(events, t + 1);
    } else {
      assert events[..t] == events;
    }
  }

  /** The index of the first key event at or after `t`, or the length of
      the sequence when no key follows. */
  function NextKey(events: seq<UiEvent>, t: nat): (u: nat)
    requires t <= |events|
    ensures t <= u <= |events|
    ensures forall k :: t <= k < u ==> !events[k].Key?
    ensures u < |events| ==> events[u].Key?
    decreases |events| - t
  {
    if t == |events| || events[t].Key? then t else NextKey(events, t + 1)
  }

  /** One more event applied to a prefix. */
  lemma RunStep(events: seq<UiEvent>, n: nat)
    requires n < |events|
    ensures Run(events[..n + 1]) == Handle(Run(events[..n]), events[n])
  {
    var upTo := events[..n + 1];
    assert upTo[..n] == events[..n];
  }

  /** The clicks of a slice grown by one event. */
  lemma ClicksOfSliceExtend(events: seq<UiEvent>, t: nat, u: nat)
    requires t < u <= |events|
    ensures Clicks(events[t..u]) == Clicks(events[t..u - 1]) + (if events[u - 1].Click? then [events[u - 1].p] else [])
  {
    assert events[t..u] == events[t..u - 1] + [events[u - 1]];
    ClicksAppend(events[t..u - 1], events[u - 1]);
  }

  /** During the preview an event other than a key appends its point when
      it is a click. */
  lemma HandlePreviewNonKey(pts: seq<Point>, e: UiEvent)
    requires !e.Key?
    ensures Handle(Previewing(pts), e) == Previewing(pts + (if e.Click? then [e.p] else []))
  {
  }

  /** During the preview every click is appended to the points. */
  lemma {:induction false} PreviewCollectsClicks(events: seq<UiEvent>, pts: seq<Point>, t: nat, u: nat)
    requires t <= u <= |events|
    requires Run(events[..t]) == Previewing(pts)
    requires forall k :: t <= k < u ==> !events[k].Key?
    ensures Run(events[..u]) == Previewing(pts + Clicks(events[t..u]))
    decreases u - t
  {
    if u == t {
      assert events[t..u] == [];
    } else {
      var e := events[u - 1];
      var seen := events[t..u - 1];
      PreviewCollectsClicks(events, pts, t, u - 1);
      RunStep(events, u - 1);
      HandlePreviewNonKey(pts + Clicks(seen), e);
      ClicksOfSliceExtend(events, t, u);
    }
  }

  /** Just after the first ending key, the session is that key applied to
      the points clicked since the last reset before it. */
  lemma AtFirstEndingKey(events: seq<UiEvent>, t: nat)
    requires t < |events|
    requires forall k :: 0 <= k < t ==> !EndsSession(events[k])
    ensures Run(events[..t + 1]) == Handle(Collecting(Clicks(events[AfterLastReset(events[..t])..t])), events[t])
  {
    var before := events[..t];
    CollectingHoldsClicksSinceReset(before);
    var a := AfterLastReset(before);
    assert before[a..] == events[a..t];
    var upTo := events[..t + 1];
    assert upTo[..t] == before;
  }

  /** A key during the preview completes the session with the points
      shown, and nothing after it matters. */
  lemma KeyEndsPreview(events: seq<UiEvent>, all: seq<Point>, u: nat)
    requires u < |events| && events[u].Key?
    requires Run(events[..u]) == Previewing(all)
    ensures Run(events) == Completed(all, true)
  {
    RunStep(events, u);
    EndedSessionIgnoresRest(events, u + 1);
  }

  /** A preview started after the first `s` events ends at the next key
      with every point clicked meanwhile appended, or is still showing
      when the events run out. */
  lemma PreviewOutcome(events: seq<UiEvent>, pts: seq<Point>, s: nat)
    requires s <= |events| && Run(events[..s]) == Previewing(pts)
    ensures var u := NextKey(events, s);
            var all := pts + Clicks(events[s..u]);
            && (u < |events| ==> Run(events) == Completed(all, true))
            && (u == |events| ==> Run(events) == Previewing(all))
  {
    var u := NextKey(events, s);
    PreviewCollectsClicks(events, pts, s, u);
    if u < |events| {
      KeyEndsPreview(events, pts + Clicks(events[s..u]), u);
    } else {
      assert events[..u] == events;
    }
  }

  /** The first ending key decides the outcome. `q` cancels. `c` with at
      most two points clicked since the last reset before it completes with
      those points and no preview. `c` with more than two starts the
      preview, and the first key after it (or the wait's timeout) completes
      with those points followed by every point clicked during the
      preview, in click order. */
  lemma FirstEndingKeyDecides(events: seq<UiEvent>, t: nat)
    requires t < |events| && EndsSession(events[t])
    requires forall k :: 0 <= k < t ==> !EndsSession(events[k])
    ensures var points := Clicks(events[AfterLastReset(events[..t])..t]);
            var u := NextKey(events, t + 1);
            var all := points + Clicks(events[t + 1..u]);
            && (IsKey(events[t], 'q') ==> Run(events) == Cancelled)
            && (IsKey(events[t], 'c') && |points| <= 2 ==> Run(events) == Completed(points, false))
            && (IsKey(events[t], 'c') && |points| > 2 && u < |events| ==> Run(events) == Completed(all, true))
            && (IsKey(events[t], 'c') && |points| > 2 && u == |events| ==> Run(events) == Previewing(all))
  {
    AtFirstEndingKey(events, t);
    var points := Clicks(events[AfterLastReset(events[..t])..t]);
    if IsKey(events[t], 'c') && |points| > 2 {
      PreviewOutcome(events, points, t + 1);
    } else {
      EndedSessionIgnoresRest(events, t + 1);
    }
  }

  // ---------------------------------------------------------------------
  // Start-up: video source and zone
  // ---------------------------------------------------------------------

  predicate IsDigit(c: char) {
    '0' <= c <= '9'
  }

  predicate AllDigits(s: string) {
    |s| > 0 && forall i :: 0 <= i < |s| ==> IsDigit(s[i])
  }

  /** The decimal value of a digit string. */
  function DigitsValue(s: string): nat
    requires forall i :: 0 <= i < |s| ==> IsDigit(s[i])
    decreases |s|
  {
    if s == [] then 0
    else
      var last := s[|s| - 1];
      assert IsDigit(last);
      DigitsValue(s[..|s| - 1]) * 10 + (last as int - '0' as int)
  }

  /** The decimal digits of a natural number, without leading zeros. */
  function NatToDigits(n: nat): (s: string)
    ensures AllDigits(s)
    decreases n
  {
    var d := ['0' + (n % 10) as char];
    if n < 10 then d else NatToDigits(n / 10) + d
  }

  /** A camera index or a video file path. */
  datatype Source = Camera(index: nat) | VideoFile(path: string)

  /** The `--source` argument becomes a camera index exactly when it is a
      non-empty string of digits, and otherwise names a file. */
  function ParseSource(arg: string): (src: Source)
    ensures src.Camera? <==> AllDigits(arg)
    ensures src.VideoFile? ==> src.path == arg
  {
    if AllDigits(arg) then Camera(DigitsValue(arg)) else VideoFile(arg)
  }

  /** Every camera index written in decimal selects that camera. */
  lemma {:induction false} CameraIndexRoundTrip(n: nat)
    ensures ParseSource(NatToDigits(n)) == Camera(n)
    decreases n
  {
    var s := NatToDigits(n);
    var last := '0' + (n % 10) as char;
    assert last as int - '0' as int == n % 10;
    if n >= 10 {
      CameraIndexRoundTrip(n / 10);
      var high := NatToDigits(n / 10);
      assert s == high + [last];
      assert s[..|s| - 1] == high;
      assert DigitsValue(s) == DigitsValue(high) * 10 + n % 10;
    } else {
      assert s == [last];
      assert s[..|s| - 1] == [];
      assert DigitsValue(s) == DigitsValue([]) * 10 + n % 10;
    }
  }

  /** The placeholder zone used when none was calibrated. */
  const DefaultZone: seq<Point> := [Point(100, 100), Point(500, 100), Point(500, 400), Point(100, 400)]

  /** What the program does after parsing its arguments. */
  datatype Plan = Exit | Detect(source: Source, zone: Option<seq<Point>>)

  /** With `--calibrate`, a cancelled or empty calibration ends the
      program; otherwise detection runs on the parsed source with the
      calibrated points, or with no points when not calibrating.
      `calibrated` is what the calibration session returned. */
  function MainPlan(sourceArg: string, calibrate: bool, calibrated: Option<seq<Point>>): (plan: Plan)
    ensures plan.Exit? <==> calibrate && (calibrated.None? || calibrated.value == [])
    ensures plan.Detect? ==> plan.source == ParseSource(sourceArg)
    ensures plan.Detect? && !calibrate ==> plan.zone.None?
    ensures plan.Detect? && calibrate ==> plan.zone == calibrated
  {
    var source := ParseSource(sourceArg);
    if !calibrate then Detect(source, None)
    else if calibrated.None? || calibrated.value == [] then Exit
    else Detect(source, calibrated)
  }

  /** The zone detection uses: the given points, or the placeholder. */
  function ZoneFor(points: Option<seq<Point>>): (zone: seq<Point>)
    ensures points.None? ==> zone == DefaultZone
    ensures points.Some? ==> zone == points.value
  {
    if points.None? then DefaultZone else points.value
  }

  /** Detection uses the calibrated points when calibrating and the
      placeholder otherwise, and so never runs with an empty zone. */
  lemma DetectionZoneNotEmpty(sourceArg: string, calibrate: bool, calibrated: Option<seq<Point>>)
    ensures var plan := MainPlan(sourceArg, calibrate, calibrated);
            plan.Detect? ==>
              && ZoneFor(plan.zone) == (if calibrate then calibrated.value else DefaultZone)
              && |ZoneFor(plan.zone)| > 0
  {
  }

  /** With `--calibrate`, the start-up plan follows the session on the
      source. An unopened source or a first ending key `q` exits. A first
      ending key `c` runs detection on the parsed source with the points
      clicked since the last reset before it, followed by those clicked
      during the preview when there is one, and exits when there are no
      points. (A preview still showing when the events run out has not
      returned yet.) */
  lemma CalibratedStartup(sourceArg: string, sourceOpened: bool, events: seq<UiEvent>, t: nat)
    requires t < |events| && EndsSession(events[t])
    requires forall k :: 0 <= k < t ==> !EndsSession(events[k])
    ensures var plan := MainPlan(sourceArg, true, Returned(CalibrateZone(sourceOpened, events)));
            var points := Clicks(events[AfterLastReset(events[..t])..t]);
            var u := NextKey(events, t + 1);
            && (!sourceOpened || IsKey(events[t], 'q') ==> plan == Exit)
            && (sourceOpened && IsKey(events[t], 'c') && |points| <= 2 ==>
                  plan == (if points == [] then Exit else Detect(ParseSource(sourceArg), Some(points))))
            && (sourceOpened && IsKey(events[t], 'c') && |points| > 2 && u < |events| ==>
                  plan == Detect(ParseSource(sourceArg), Some(points + Clicks(events[t + 1..u]))))
  {
    FirstEndingKeyDecides(events, t);
  }

  // ---------------------------------------------------------------------
  // Per-person alert
  // ---------------------------------------------------------------------

  /** `int(s / 2)`: true division followed by truncation toward zero. */
  function TruncatedHalf(s: int): (r: int)
    ensures s >= 0 ==> 0 <= s - 2 * r <= 1
    ensures s < 0 ==> -1 <= s - 2 * r <= 0
  {
    if s >= 0 then s / 2 else -((-s) / 2)
  }

  /** The feet point: the horizontal middle of the box's bottom edge. */
  function Feet(b: Box): (p: Point)
    ensures p.y == b.y2
    ensures b.x1 + b.x2 >= 0 ==> p.x == (b.x1 + b.x2) / 2
    ensures b.x1 + b.x2 < 0 ==> p.x == -((-(b.x1 + b.x2)) / 2)
  {
    Point(TruncatedHalf(b.x1 + b.x2), b.y2)
  }

  const AlertLabel := "ALERT: Behind Counter"
  const PersonLabel := "Person"

  /** Labels each detected person box. `pointPolygonTest` stands for the
      library's point-in-polygon test: positive inside, zero on the edge,
      negative outside. A point on the edge raises the alert. */
  method LabelPersons(zone: seq<Point>, boxes: seq<Box>, pointPolygonTest: (seq<Point>, Point) -> int)
    returns (labels: seq<string>)
    ensures |labels| == |boxes|
    ensures forall i :: 0 <= i < |boxes| ==>
              (labels[i] == AlertLabel <==> pointPolygonTest(zone, Feet(boxes[i])) >= 0)
    ensures forall i :: 0 <= i < |boxes| ==> labels[i] == AlertLabel || labels[i] == PersonLabel
  {
    labels := [];
    var i := 0;
    while i < |boxes|
      invariant 0 <= i <= |boxes|
      invariant |labels| == i
      invariant forall k :: 0 <= k < i ==>
                  (labels[k] == AlertLabel <==> pointPolygonTest(zone, Feet(boxes[k])) >= 0)
      invariant forall k :: 0 <= k < i ==> labels[k] == AlertLabel || labels[k] == PersonLabel
    {
      var feet := Feet(boxes[i]);
      var isInside := pointPolygonTest(zone, feet);
      var shown := PersonLabel;
      if isInside >= 0 {
        shown := AlertLabel;
      }
      labels := labels + [shown];
      i := i + 1;
    }
  }
}
