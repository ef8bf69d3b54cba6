/** The presence check of services/person.py: a person box is near the
    drawer box when their centres are less than 200 pixels apart, and a
    frame reports a person near the drawer when any detected person is. */
module Person {
  import opened Wrappers
  import opened Geometry
  import Json
  import Calibration

  const NearRadius: nat := 200

  /** Centre of a box, each coordinate the floor of the mean of the two
      corners (Python's `//`, which for the divisor 2 agrees with Dafny's
      Euclidean `/`). */
  function Center(b: Box): (c: Point)
    ensures 2 * c.x <= b.x1 + b.x2 <= 2 * c.x + 1
    ensures 2 * c.y <= b.y1 + b.y2 <= 2 * c.y + 1
  {
    Point((b.x1 + b.x2) / 2, (b.y1 + b.y2) / 2)
  }

  /** Squared Euclidean distance between the centres of two boxes. */
  function SquaredDistance(a: Box, b: Box): nat {
    var ca := Center(a);
    var cb := Center(b);
    (ca.x - cb.x) * (ca.x - cb.x) + (ca.y - cb.y) * (ca.y - cb.y)
  }

  /** Integer square root: the largest `r` with `r * r <= n`. */
  function Isqrt(n: nat): (r: nat)
    ensures r * r <= n < (r + 1) * (r + 1)
    decreases n
  {
    if n == 0 then 0
    else
      var s := Isqrt(n - 1);
      if (s + 1) * (s + 1) <= n then
        assert n < (s + 2) * (s + 2) by {
          assert (s + 2) * (s + 2) == (s + 1) * (s + 1) + 2 * s + 3;
        }
        s + 1
      else s
  }

  lemma SquareMonotone(a: nat, b: nat)
    requires a <= b
    ensures a * a <= b * b
  {
    assert a * a <= a * b;
    assert a * b <= b * b;
  }

  /** An integer compares with the integer radius the way its square root
      does. */
  lemma SqrtBelowRadius(d: nat)
    ensures Isqrt(d) < NearRadius <==> d < NearRadius * NearRadius
  {
    var r := Isqrt(d);
    if r < NearRadius {
      SquareMonotone(r + 1, NearRadius);
    } else {
      SquareMonotone(NearRadius, r);
    }
  }

  /** The centre distance, a real number in the source, is below the radius
      exactly when its integer part is, since the radius is an integer; the
      comparison is made exactly on the squared distance. */
  function IsNear(person: Box, drawer: Box): (near: bool)
    ensures near <==> Isqrt(SquaredDistance(person, drawer)) < NearRadius
  {
    var d := SquaredDistance(person, drawer);
    SqrtBelowRadius(d);
    d < NearRadius * NearRadius
  }

  lemma IsNearSymmetric(a: Box, b: Box)
    ensures IsNear(a, b) == IsNear(b, a)
  {
    assert SquaredDistance(a, b) == SquaredDistance(b, a);
  }

  /** Every box is near itself: the distance is zero. */
  lemma IsNearItself(b: Box)
    ensures IsNear(b, b)
  {
  }

  /** A centre distance of exactly the radius is not near. */
  lemma RadiusIsNotNear(a: Box, b: Box)
    ensures SquaredDistance(a, b) == NearRadius * NearRadius ==> !IsNear(a, b)
  {
  }

  /** One detection: the detector's class name and its box. */
  datatype Detection = Detection(className: string, box: Box)

  predicate NearPerson(d: Detection, drawer: Box) {
    d.className == "person" && IsNear(d.box, drawer)
  }

  /** The per-frame flag: reset to false, then set by any person near the
      drawer; detections of other classes are ignored. */
  method PersonNear(detections: seq<Detection>, drawer: Box) returns (near: bool)
    ensures near <==> exists i :: 0 <= i < |detections| && NearPerson(detections[i], drawer)
  {
    near := false;
    var i := 0;
    while i < |detections|
      invariant 0 <= i <= |detections|
      invariant near <==> exists k :: 0 <= k < i && NearPerson(detections[k], drawer)
    {
      var d := detections[i];
      if d.className == "person" {
        if IsNear(d.box, drawer) {
          near := true;
        }
      }
      i := i + 1;
    }
  }

  const NearStatus := "Person Near Drawer"
  const NobodyStatus := "No One Near Drawer"

  /** The status line drawn on a frame. */
  method FrameStatus(detections: seq<Detection>, drawer: Box) returns (status: string)
    ensures status == NearStatus <==> exists i :: 0 <= i < |detections| && NearPerson(detections[i], drawer)
    ensures status == NobodyStatus <==> !exists i :: 0 <= i < |detections| && NearPerson(detections[i], drawer)
  {
    var near := PersonNear(detections, drawer);
    if near {
      status := NearStatus;
    } else {
      status := NobodyStatus;
    }
  }

  /** The four keys of a drawer box. */
  const CornerKeys: seq<string> := ["x1", "y1", "x2", "y2"]

  /** The drawer box read from the top level of a flat document: it loads
      exactly when all four corners are integers there, and then holds
      them. */
  function LoadDrawerBox(doc: Json.Value): (r: Option<Box>)
    ensures r.Some? <==> forall k :: k in CornerKeys ==> Json.IntMember(doc, k).Some?
    ensures r.Some? ==>
              && Json.IntMember(doc, "x1") == Some(r.value.x1)
              && Json.IntMember(doc, "y1") == Some(r.value.y1)
              && Json.IntMember(doc, "x2") == Some(r.value.x2)
              && Json.IntMember(doc, "y2") == Some(r.value.y2)
  {
    match (Json.IntMember(doc, "x1"), Json.IntMember(doc, "y1"),
           Json.IntMember(doc, "x2"), Json.IntMember(doc, "y2"))
    case (Some(x1), Some(y1), Some(x2), Some(y2)) => Some(Box(x1, y1, x2, y2))
    case _ => None
  }

  /** The drawer box as person.py reads it: the four corners of an object
      nested under the key "drawer". Any missing key raises, here `None`. */
  function LoadNestedDrawerBox(doc: Json.Value): (r: Option<Box>)
    ensures r.Some? <==> Json.Member(doc, "drawer").Some? && LoadDrawerBox(Json.Member(doc, "drawer").value).Some?
    ensures r.Some? ==> r == LoadDrawerBox(Json.Member(doc, "drawer").value)
  {
    match Json.Member(doc, "drawer")
    case None => None
    case Some(inner) => LoadDrawerBox(inner)
  }

  /** The nested read accepts a record wrapped under "drawer". */
  lemma NestedRecordLoads(c: Calibration.Coordinates)
    ensures LoadNestedDrawerBox(Json.Object(map["drawer" := Calibration.ToDocument(c)]))
            == Some(Box(c.x1, c.y1, c.x2, c.y2))
  {
  }

  /** The coordinate file the calibration service writes is flat, so the
      nested read fails on every record it can save. */
  lemma SavedRecordNotLoadable(st: Calibration.Store)
    ensures var saved := Calibration.SaveCoordinates(st);
            saved.ok ==> LoadNestedDrawerBox(saved.store.coordinateFile.value) == None
  {
    if st.pending.Some? {
      assert "drawer" !in Calibration.ToDocument(st.pending.value).fields;
    }
  }

  /** Every record the calibration service saves loads back, through the
      flat read, as the box with its two corners. */
  lemma SavedRecordLoads(st: Calibration.Store)
    ensures var saved := Calibration.SaveCoordinates(st);
            saved.ok ==>
              var c := st.pending.value;
              LoadDrawerBox(saved.store.coordinateFile.value) == Some(Box(c.x1, c.y1, c.x2, c.y2))
  {
  }

  /** The frame loop over a loaded drawer box: one status line per frame. */
  method StatusLines(drawer: Box, frames: seq<seq<Detection>>) returns (statuses: seq<string>)
    ensures |statuses| == |frames|
    ensures forall f :: 0 <= f < |frames| ==>
              (statuses[f] == NearStatus <==>
                 exists i :: 0 <= i < |frames[f]| && NearPerson(frames[f][i], drawer))
  {
    statuses := [];
    var f := 0;
    while f < |frames|
      invariant 0 <= f <= |frames|
      invariant |statuses| == f
      invariant forall g :: 0 <= g < f ==>
                  (statuses[g] == NearStatus <==>
                     exists i :: 0 <= i < |frames[g]| && NearPerson(frames[g][i], drawer))
    {
      var status := FrameStatus(frames[f], drawer);
      statuses := statuses + [status];
      f := f + 1;
    }
  }

  /** person.py as written: load the drawer box with the nested read, then
      give each frame's detections a status line. An unreadable coordinate
      file stops the program before any frame. */
  method MonitorPresence(doc: Json.Value, frames: seq<seq<Detection>>) returns (r: Option<seq<string>>)
    ensures r.None? <==> LoadNestedDrawerBox(doc).None?
    ensures r.Some? ==> |r.value| == |frames|
    ensures r.Some? ==> forall f :: 0 <= f < |frames| ==>
              (r.value[f] == NearStatus <==>
                 exists i :: 0 <= i < |frames[f]| && NearPerson(frames[f][i], LoadNestedDrawerBox(doc).value))
  {
    var loaded := LoadNestedDrawerBox(doc);
    if loaded.None? {
      return None;
    }
    var statuses := StatusLines(loaded.value, frames);
    return Some(statuses);
  }

  /** The same loop with the corrected flat read, which loads the file the
      calibration service saves. */
  method MonitorSavedPresence(doc: Json.Value, frames: seq<seq<Detection>>) returns (r: Option<seq<string>>)
    ensures r.None? <==> LoadDrawerBox(doc).None?
    ensures r.Some? ==> |r.value| == |frames|
    ensures r.Some? ==> forall f :: 0 <= f < |frames| ==>
              (r.value[f] == NearStatus <==>
                 exists i :: 0 <= i < |frames[f]| && NearPerson(frames[f][i], LoadDrawerBox(doc).value))
  {
    var loaded := LoadDrawerBox(doc);
    if loaded.None? {
      return None;
    }
    var statuses := StatusLines(loaded.value, frames);
    return Some(statuses);
  }
}
