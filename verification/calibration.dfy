/** The browser calibration service of services/calibration.py: a frame
    uploaded as a data URL is stored, the operator's rectangle selection on
    it becomes a pending coordinate record, and saving writes that record to
    the coordinate file. The three module-level pieces of state (the frame
    file, the pending record and the coordinate file) are one `Store` value
    threaded through the operations. */
module Calibration {
  import opened Wrappers
  import Json

  /** The record written to the coordinate file. */
  datatype Coordinates = Coordinates(x1: int, y1: int, x2: int, y2: int, width: int, height: int)

  /** The `(x, y, w, h)` tuple the interactive rectangle selector returns. */
  datatype Roi = Roi(x: int, y: int, w: int, h: int)

  /** The frame file's (still encoded) payload, the pending selection, and
      the coordinate file's document, each absent until first written. */
  datatype Store = Store(frameFile: Option<string>, pending: Option<Coordinates>, coordinateFile: Option<Json.Value>)

  const InitialStore := Store(None, None, None)

  /** The unpacking of a data URL with no comma fails. */
  datatype CalibrationError = NotEnoughValuesToUnpack

  /** Splits at the first comma only: the header never holds a comma and
      the payload is everything after it, commas included. */
  function SplitAtFirstComma(s: string): (r: Option<(string, string)>)
    ensures r.Some? <==> ',' in s
    ensures r.Some? ==> r.value.0 + [','] + r.value.1 == s && ',' !in r.value.0
    decreases |s|
  {
    if s == [] then None
    else if s[0] == ',' then
      assert s == [] + [','] + s[1..];
      Some(([], s[1..]))
    else
      match SplitAtFirstComma(s[1..])
      case None => None
      case Some((header, payload)) =>
        assert s == [s[0]] + s[1..];
        Some(([s[0]] + header, payload))
  }

  /** Stores the payload of a `data:...;base64,<payload>` string as the
      frame file; a string without a comma raises before anything is
      written. */
  function SaveFrameFromBase64(st: Store, data: string): (r: Result<Store, CalibrationError>)
    ensures r.Failure? <==> ',' !in data
    ensures r.Success? ==> r.value.pending == st.pending && r.value.coordinateFile == st.coordinateFile
    ensures r.Success? ==>
              r.value.frameFile.Some? &&
              exists header :: ',' !in header && header + [','] + r.value.frameFile.value == data
  {
    match SplitAtFirstComma(data)
    case None => Failure(NotEnoughValuesToUnpack)
    case Some((header, payload)) => Success(st.(frameFile := Some(payload)))
  }

  /** Builds the coordinate record from a selection tuple. */
  function ToCoordinates(roi: Roi): Coordinates {
    Coordinates(roi.x, roi.y, roi.x + roi.w, roi.y + roi.h, roi.w, roi.h)
  }

  /** The selection a record describes. */
  function ToRoi(c: Coordinates): Roi {
    Roi(c.x1, c.y1, c.width, c.height)
  }

  /** A record built from a selection: the far corner is the near corner
      plus the size, and the size is not zero in either direction. */
  predicate WellFormed(c: Coordinates) {
    && c.x2 == c.x1 + c.width
    && c.y2 == c.y1 + c.height
    && c.width != 0 && c.height != 0
  }

  /** Result of a calibration attempt: the new store and the accepted
      record, if any. */
  datatype Attempt = Attempt(store: Store, accepted: Option<Coordinates>)

  /** Runs the rectangle selector on the stored frame. Without a frame file,
      or when the selection has zero width or height, nothing is accepted
      and the store, pending selection included, is left as it was. */
  function StartCalibrationFromFrame(st: Store, roi: Roi): (r: Attempt)
    ensures r.accepted.None? <==> st.frameFile.None? || roi.w == 0 || roi.h == 0
    ensures r.accepted.None? ==> r.store == st
    ensures r.accepted.Some? ==>
              && WellFormed(r.accepted.value)
              && ToRoi(r.accepted.value) == roi
              && r.store == st.(pending := r.accepted)
  {
    if st.frameFile.None? then Attempt(st, None)
    else if roi.w == 0 || roi.h == 0 then Attempt(st, None)
    else
      var c := ToCoordinates(roi);
      Attempt(st.(pending := Some(c)), Some(c))
  }

  /** The flat JSON object the coordinate file holds. */
  function ToDocument(c: Coordinates): Json.Value {
    Json.Object(map[
      "x1" := Json.Int(c.x1), "y1" := Json.Int(c.y1),
      "x2" := Json.Int(c.x2), "y2" := Json.Int(c.y2),
      "width" := Json.Int(c.width), "height" := Json.Int(c.height)])
  }

  /** Reads a coordinate record back from a flat document. */
  function FromDocument(doc: Json.Value): Option<Coordinates> {
    match (Json.IntMember(doc, "x1"), Json.IntMember(doc, "y1"), Json.IntMember(doc, "x2"),
           Json.IntMember(doc, "y2"), Json.IntMember(doc, "width"), Json.IntMember(doc, "height"))
    case (Some(x1), Some(y1), Some(x2), Some(y2), Some(w), Some(h)) => Some(Coordinates(x1, y1, x2, y2, w, h))
    case _ => None
  }

  lemma DocumentRoundTrip(c: Coordinates)
    ensures FromDocument(ToDocument(c)) == Some(c)
  {
  }

  /** Result of a save request: the new store and whether it wrote. */
  datatype Saved = Saved(store: Store, ok: bool)

  /** Writes the pending record to the coordinate file; without one it
      reports failure and writes nothing. The pending record stays. */
  function SaveCoordinates(st: Store): (r: Saved)
    ensures !r.ok <==> st.pending.None?
    ensures !r.ok ==> r.store == st
    ensures r.ok ==>
              && r.store.pending == st.pending
              && r.store.frameFile == st.frameFile
              && r.store.coordinateFile.Some?
              && r.store.coordinateFile == Some(ToDocument(st.pending.value))
              && FromDocument(r.store.coordinateFile.value) == st.pending
  {
    match st.pending
    case None => Saved(st, false)
    case Some(c) =>
      DocumentRoundTrip(c);
      Saved(st.(coordinateFile := Some(ToDocument(c))), true)
  }

  /** Saving again without a new selection writes the same record and
      leaves the store as the first save left it. */
  lemma SaveTwiceWritesSameRecord(st: Store)
    ensures SaveCoordinates(SaveCoordinates(st).store) == SaveCoordinates(st)
  {
  }

  /** Upload, select and save: the coordinate file then describes exactly
      the rectangle the operator selected. */
  lemma {:induction false} CalibrateThenSave(st: Store, data: string, roi: Roi)
    requires ',' in data
    requires roi.w != 0 && roi.h != 0
    ensures var uploaded := SaveFrameFromBase64(st, data).value;
            var attempt := StartCalibrationFromFrame(uploaded, roi);
            var saved := SaveCoordinates(attempt.store);
            && saved.ok
            && FromDocument(saved.store.coordinateFile.value) == Some(ToCoordinates(roi))
            && ToRoi(ToCoordinates(roi)) == roi
  {
    var uploaded := SaveFrameFromBase64(st, data).value;
    assert uploaded.frameFile.Some?;
  }
}
