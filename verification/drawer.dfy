/** The drawer monitor of services/drawer.py: a two-click region selection,
    the largest-contour fold that turns each frame into one motion area, and
    the OPEN/CLOSED state machine driven by two run-length counters. */
module Drawer {
  import opened Wrappers
  import opened Geometry

  // ---------------------------------------------------------------------
  // Region selection
  // ---------------------------------------------------------------------

  /** The mouse events the selection callback reacts to; every other event
      is `OtherEvent`. */
  datatype MouseEvent =
    | ButtonDown(x: int, y: int)
    | MouseMove(x: int, y: int)
    | ButtonUp(x: int, y: int)
    | OtherEvent

  /** The callback's globals: the collected corners and the dragging flag. */
  datatype Selector = Selector(coords: seq<Point>, drawing: bool)

  const InitialSelector := Selector([], false)

  /** One callback invocation. A mouse move only redraws the preview
      rectangle, so it leaves the selection as it is. */
  function SelectStep(s: Selector, e: MouseEvent): (s': Selector)
    ensures e.ButtonDown? ==> s'.coords == [Point(e.x, e.y)] && s'.drawing
    ensures e.ButtonUp? ==> s'.coords == s.coords + [Point(e.x, e.y)] && !s'.drawing
    ensures !e.ButtonDown? && !e.ButtonUp? ==> s' == s
  {
    match e
    case ButtonDown(x, y) => Selector([Point(x, y)], true)
    case ButtonUp(x, y) => Selector(s.coords + [Point(x, y)], false)
    case _ => s
  }

  /** The selection after a whole sequence of mouse events. */
  function SelectAll(events: seq<MouseEvent>): Selector
    decreases |events|
  {
    if events == [] then InitialSelector
    else SelectStep(SelectAll(events[..|events| - 1]), events[|events| - 1])
  }

  /** The points of the button-up events, in order. */
  function Releases(events: seq<MouseEvent>): seq<Point>
    decreases |events|
  {
    if events == [] then []
    else
      var e := events[|events| - 1];
      Releases(events[..|events| - 1]) + (if e.ButtonUp? then [Point(e.x, e.y)] else [])
  }

  /** The index of the last button-down event, if there is one. */
  function LastPress(events: seq<MouseEvent>): (r: Option<nat>)
    ensures r.Some? ==> r.value < |events| && events[r.value].ButtonDown?
    ensures r.Some? ==> forall k :: r.value < k < |events| ==> !events[k].ButtonDown?
    ensures r.None? ==> forall k :: 0 <= k < |events| ==> !events[k].ButtonDown?
    decreases |events|
  {
    if events == [] then None
    else if events[|events| - 1].ButtonDown? then Some(|events| - 1)
    else LastPress(events[..|events| - 1])
  }

  /** Reference description of the collected corners: the last press point
      followed by every release after it, or every release when the button
      was never pressed. */
  function ExpectedCorners(events: seq<MouseEvent>): seq<Point>
  {
    match LastPress(events)
    case None => Releases(events)
    case Some(i) => [Point(events[i].x, events[i].y)] + Releases(events[i + 1..])
  }

  lemma {:induction false} ReleasesAppend(events: seq<MouseEvent>, e: MouseEvent)
    ensures Releases(events + [e]) == Releases(events) + (if e.ButtonUp? then [Point(e.x, e.y)] else [])
  {
    assert (events + [e])[..|events|] == events;
  }

  /** A press always restarts the selection with exactly one point; each
      release appends one; the drag flag is up exactly between a press and
      the next release. */
  lemma {:induction false} SelectionFollowsEvents(events: seq<MouseEvent>)
    ensures SelectAll(events).coords == ExpectedCorners(events)
    ensures SelectAll(events).drawing <==>
              LastPress(events).Some? && Releases(events[LastPress(events).value + 1..]) == []
    decreases |events|
  {
    if events != [] {
      var n := |events| - 1;
      var prefix := events[..n];
      var e := events[n];
      assert events == prefix + [e];
      SelectionFollowsEvents(prefix);
      ReleasesAppend(prefix, e);
      if !e.ButtonDown? {
        match LastPress(prefix)
        case None =>
        case Some(i) =>
          assert events[i + 1..] == prefix[i + 1..] + [e];
          ReleasesAppend(prefix[i + 1..], e);
      } else {
        assert events[n + 1..] == [];
      }
    }
  }

  /** Normalises two collected corners into a box with ordered corners; any
      other number of corners means the region was not selected properly. */
  function NormaliseRegion(coords: seq<Point>): (r: Option<Box>)
    ensures r.Some? <==> |coords| == 2
    ensures r.Some? ==> r.value.x1 <= r.value.x2 && r.value.y1 <= r.value.y2
    ensures r.Some? ==>
              ((r.value.x1, r.value.x2) == (coords[0].x, coords[1].x)
               || (r.value.x1, r.value.x2) == (coords[1].x, coords[0].x))
    ensures r.Some? ==>
              ((r.value.y1, r.value.y2) == (coords[0].y, coords[1].y)
               || (r.value.y1, r.value.y2) == (coords[1].y, coords[0].y))
  {
    if |coords| != 2 then None
    else
      var a := coords[0];
      var b := coords[1];
      Some(Box(Min(a.x, b.x), Min(a.y, b.y), Max(a.x, b.x), Max(a.y, b.y)))
  }

  function Min(a: int, b: int): int { if a < b then a else b }

  function Max(a: int, b: int): int { if a < b then b else a }

  /** The region is accepted exactly when one release followed the last
      press, or, without any press, exactly two releases were seen. */
  lemma RegionAcceptedIffTwoCorners(events: seq<MouseEvent>)
    ensures NormaliseRegion(SelectAll(events).coords).Some? <==>
              match LastPress(events)
              case None => |Releases(events)| == 2
              case Some(i) => |Releases(events[i + 1..])| == 1
  {
    SelectionFollowsEvents(events);
  }

  // ---------------------------------------------------------------------
  // Per-frame motion area
  // ---------------------------------------------------------------------

  /** The largest contour area of a frame, starting from 0 as the source's
      running maximum does. */
  function MaxArea(areas: seq<int>): (r: int)
    ensures r >= 0
    ensures forall i :: 0 <= i < |areas| ==> areas[i] <= r
    ensures r == 0 || r in areas
    decreases |areas|
  {
    if areas == [] then 0
    else
      var prefix := areas[..|areas| - 1];
      var best := MaxArea(prefix);
      var a := areas[|areas| - 1];
      assert areas == prefix + [a];
      if a > best then a else best
  }

  // ---------------------------------------------------------------------
  // OPEN / CLOSED monitor
  // ---------------------------------------------------------------------

  const MinConsecutiveFrames: nat := 5
  const ContourAreaThreshold: int := 8000

  datatype DrawerState = Closed | Open

  /** The monitor's globals: the reported state and the two run-length
      counters of motion and quiet frames. */
  datatype Monitor = Monitor(state: DrawerState, openCounter: nat, closeCounter: nat)

  const Start := Monitor(Closed, 0, 0)

  /** A frame counts as motion when its largest area is strictly above the
      threshold; an area equal to the threshold is quiet. */
  predicate IsMotion(area: int) {
    area > ContourAreaThreshold
  }

  /** The monitor after a frame together with the state changes announced
      on that frame, in the order they were announced. */
  datatype StepResult = StepResult(monitor: Monitor, detected: seq<DrawerState>)

  /** One monitored frame: update the counters, then test the opening rule
      and, after it, the closing rule. */
  function Step(m: Monitor, area: int): (r: StepResult)
    ensures IsMotion(area) ==> r.monitor.openCounter == m.openCounter + 1 && r.monitor.closeCounter == 0
    ensures !IsMotion(area) ==> r.monitor.closeCounter == m.closeCounter + 1 && r.monitor.openCounter == 0
    ensures |r.detected| <= 1
    ensures r.detected == [] <==> r.monitor.state == m.state
    ensures r.detected != [] ==> r.detected == [r.monitor.state]
  {
    var counted :=
      if IsMotion(area) then m.(openCounter := m.openCounter + 1, closeCounter := 0)
      else m.(openCounter := 0, closeCounter := m.closeCounter + 1);
    var afterOpen :=
      if counted.openCounter >= MinConsecutiveFrames && counted.state == Closed
      then StepResult(counted.(state := Open), [Open])
      else StepResult(counted, []);
    if afterOpen.monitor.closeCounter >= MinConsecutiveFrames && afterOpen.monitor.state == Open
    then StepResult(afterOpen.monitor.(state := Closed), afterOpen.detected + [Closed])
    else afterOpen
  }

  /** What every monitor reachable from `Start` satisfies: at most one
      counter runs, and a counter that has reached the frame count has
      already moved the state its way. */
  predicate Reachable(m: Monitor) {
    && (m.openCounter == 0 || m.closeCounter == 0)
    && (m.state == Closed ==> m.openCounter < MinConsecutiveFrames)
    && (m.state == Open ==> m.closeCounter < MinConsecutiveFrames)
  }

  /** The monitor after a sequence of per-frame areas. */
  function Run(frames: seq<int>): (m: Monitor)
    ensures Reachable(m)
    ensures frames != [] ==> (m.openCounter == 0) != (m.closeCounter == 0)
    decreases |frames|
  {
    if frames == [] then Start
    else Step(Run(frames[..|frames| - 1]), frames[|frames| - 1]).monitor
  }

  /** Length of the trailing run of motion frames (`motion`) or of quiet
      frames (`!motion`). */
  function TrailingRun(frames: seq<int>, motion: bool): nat
    decreases |frames|
  {
    if frames == [] || IsMotion(frames[|frames| - 1]) != motion then 0
    else 1 + TrailingRun(frames[..|frames| - 1], motion)
  }

  /** The counters are exactly the trailing runs: any single quiet frame
      (an area of 8000 included) drops all motion progress, and vice versa. */
  lemma {:induction false} CountersAreRuns(frames: seq<int>)
    ensures Run(frames).openCounter == TrailingRun(frames, true)
    ensures Run(frames).closeCounter == TrailingRun(frames, false)
    decreases |frames|
  {
    if frames != [] {
      CountersAreRuns(frames[..|frames| - 1]);
    }
  }

  /** A trailing run of length `n` means the last `n` frames all agree. */
  lemma {:induction false} TrailingRunFrames(frames: seq<int>, motion: bool, n: nat)
    requires n <= TrailingRun(frames, motion)
    ensures n <= |frames|
    ensures forall k :: |frames| - n <= k < |frames| ==> IsMotion(frames[k]) == motion
    decreases |frames|
  {
    if n > 0 {
      var prefix := frames[..|frames| - 1];
      TrailingRunFrames(prefix, motion, n - 1);
      forall k | |frames| - n <= k < |frames|
        ensures IsMotion(frames[k]) == motion
      {
        if k < |frames| - 1 {
          assert frames[k] == prefix[k];
        }
      }
    }
  }

  /** Length of the run of the given kind that ends at frame `i`. */
  function RunEndingAt(frames: seq<int>, i: int, motion: bool): nat
    requires 0 <= i < |frames|
  {
    TrailingRun(frames[..i + 1], motion)
  }

  /** Runs ending at a frame do not depend on the frames after it. */
  lemma RunEndingAtPrefix(frames: seq<int>, n: nat, j: int)
    requires 0 <= j < n <= |frames|
    ensures RunEndingAt(frames[..n], j, true) == RunEndingAt(frames, j, true)
    ensures RunEndingAt(frames[..n], j, false) == RunEndingAt(frames, j, false)
  {
    assert frames[..n][..j + 1] == frames[..j + 1];
  }

  /** Frame `i` completed a run of five motion frames and no later frame
      completed a run of five quiet frames. */
  ghost predicate OpenedAt(frames: seq<int>, i: int) {
    && 0 <= i < |frames|
    && RunEndingAt(frames, i, true) >= MinConsecutiveFrames
    && forall j :: i < j < |frames| ==> RunEndingAt(frames, j, false) < MinConsecutiveFrames
  }

  /** Reference description of an OPEN drawer: some frame opened it and
      nothing closed it afterwards. */
  ghost predicate OpenByRuns(frames: seq<int>) {
    exists i :: OpenedAt(frames, i)
  }

  /** A witness on a prefix whose next frame completes no quiet run is a
      witness on the longer sequence, and conversely for witnesses before
      the last frame. */
  lemma OpenedAtExtend(frames: seq<int>, i: int)
    requires frames != []
    requires RunEndingAt(frames, |frames| - 1, false) < MinConsecutiveFrames
    requires 0 <= i < |frames| - 1
    ensures OpenedAt(frames[..|frames| - 1], i) <==> OpenedAt(frames, i)
  {
    var n := |frames| - 1;
    RunEndingAtPrefix(frames, n, i);
    forall j | i < j < n
      ensures RunEndingAt(frames[..n], j, false) == RunEndingAt(frames, j, false)
    {
      RunEndingAtPrefix(frames, n, j);
    }
  }

  /** The state the monitor reports is the one the run-length description
      predicts. */
  lemma {:induction false} OpenIffRuns(frames: seq<int>)
    ensures Run(frames).state == Open <==> OpenByRuns(frames)
    decreases |frames|
  {
    if frames != [] {
      var n := |frames| - 1;
      var prefix := frames[..n];
      OpenIffRuns(prefix);
      CountersAreRuns(frames);
      assert frames[..n + 1] == frames;
      assert RunEndingAt(frames, n, true) == Run(frames).openCounter;
      assert RunEndingAt(frames, n, false) == Run(frames).closeCounter;
      if Run(frames).openCounter >= MinConsecutiveFrames {
        assert OpenedAt(frames, n);
      } else if Run(frames).closeCounter >= MinConsecutiveFrames {
        assert Run(frames).state == Closed;
        forall i
          ensures !OpenedAt(frames, i)
        {
          if 0 <= i < n {
            assert !(RunEndingAt(frames, n, false) < MinConsecutiveFrames);
          }
        }
      } else {
        assert Run(frames).state == Run(prefix).state;
        if OpenByRuns(frames) {
          var i :| OpenedAt(frames, i);
          OpenedAtExtend(frames, i);
          assert OpenedAt(prefix, i);
        }
        if OpenByRuns(prefix) {
          var i :| OpenedAt(prefix, i);
          OpenedAtExtend(frames, i);
          assert OpenedAt(frames, i);
        }
      }
    }
  }

  /** Frames `s` to `s + 4` are all motion frames. */
  ghost predicate MotionWindow(frames: seq<int>, s: int) {
    && 0 <= s && s + MinConsecutiveFrames <= |frames|
    && forall k :: s <= k < s + MinConsecutiveFrames ==> IsMotion(frames[k])
  }

  /** OPEN is never reported unless five consecutive motion frames were
      seen; in particular never during the first four frames. */
  lemma NoOpenWithoutFiveMotionFrames(frames: seq<int>)
    ensures Run(frames).state == Open ==> exists s :: MotionWindow(frames, s)
    ensures |frames| < MinConsecutiveFrames ==> Run(frames).state == Closed
  {
    OpenIffRuns(frames);
    if Run(frames).state == Open {
      var i :| OpenedAt(frames, i);
      var upTo := frames[..i + 1];
      TrailingRunFrames(upTo, true, MinConsecutiveFrames);
      var s := i + 1 - MinConsecutiveFrames;
      forall k | s <= k < s + MinConsecutiveFrames
        ensures IsMotion(frames[k])
      {
        assert frames[k] == upTo[k];
      }
      assert MotionWindow(frames, s);
    }
  }

  /** CLOSED -> OPEN is announced exactly on the frame whose motion run
      reaches five, OPEN -> CLOSED exactly on the frame whose quiet run
      reaches five; continued motion while OPEN announces nothing. */
  lemma FiresExactlyWhenRunReachesFive(frames: seq<int>, area: int)
    ensures Step(Run(frames), area).detected == [Open] <==>
              Run(frames).state == Closed && TrailingRun(frames + [area], true) == MinConsecutiveFrames
    ensures Step(Run(frames), area).detected == [Closed] <==>
              Run(frames).state == Open && TrailingRun(frames + [area], false) == MinConsecutiveFrames
    ensures Run(frames).state == Open && IsMotion(area) ==> Step(Run(frames), area).detected == []
  {
    var all := frames + [area];
    assert all[..|all| - 1] == frames;
    CountersAreRuns(all);
  }

  /** The state shown on each frame of a sequence of per-frame areas. */
  function ShownStates(frames: seq<int>): (r: seq<DrawerState>)
    ensures |r| == |frames|
    decreases |frames|
  {
    if frames == [] then []
    else ShownStates(frames[..|frames| - 1]) + [Run(frames).state]
  }

  lemma {:induction false} ShownStateAt(frames: seq<int>, k: int)
    requires 0 <= k < |frames|
    ensures ShownStates(frames)[k] == Run(frames[..k + 1]).state
    decreases |frames|
  {
    var n := |frames| - 1;
    if k < n {
      ShownStateAt(frames[..n], k);
      assert frames[..n][..k + 1] == frames[..k + 1];
    } else {
      assert frames[..k + 1] == frames;
    }
  }

  /** The frame loop: the largest contour area of each frame drives the
      monitor, and the drawer state shown on each frame is recorded. */
  method MonitorDrawer(contours: seq<seq<int>>) returns (shown: seq<DrawerState>, areas: seq<int>)
    ensures |areas| == |contours| && |shown| == |contours|
    ensures forall i :: 0 <= i < |contours| ==> areas[i] == MaxArea(contours[i])
    ensures forall i :: 0 <= i < |contours| ==> (shown[i] == Open <==> OpenByRuns(areas[..i + 1]))
  {
    var m := Start;
    shown := [];
    areas := [];
    var i := 0;
    while i < |contours|
      invariant 0 <= i <= |contours|
      invariant |areas| == i
      invariant forall k :: 0 <= k < i ==> areas[k] == MaxArea(contours[k])
      invariant m == Run(areas)
      invariant shown == ShownStates(areas)
    {
      var area := MaxArea(contours[i]);
      m := Step(m, area).monitor;
      var previous := areas;
      areas := areas + [area];
      assert areas[..|areas| - 1] == previous;
      shown := shown + [m.state];
      i := i + 1;
    }
    forall k | 0 <= k < |contours|
      ensures shown[k] == Open <==> OpenByRuns(areas[..k + 1])
    {
      ShownStateAt(areas, k);
      OpenIffRuns(areas[..k + 1]);
    }
  }
}
