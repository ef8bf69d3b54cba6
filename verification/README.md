# fourstack surveillance prototype: verified model of its sequential logic

The prototype watches a camera view of a cash counter. It has three jobs:

- flag a cash drawer as OPEN or CLOSED from frame-to-frame motion;
- flag a person standing near the drawer or inside a counter zone;
- let an operator calibrate the drawer rectangle or the zone polygon.

Everything visual (video capture, blurring and differencing, contour finding, object detection, window display) belongs to OpenCV and a YOLO model. This project models the decisions the Python code takes with those libraries' outputs, and proves what those decisions guarantee.

| file | module | models |
|---|---|---|
| `drawer.dfy` | `Drawer` | `services/drawer.py`: two-click region selection and its min/max normalisation, the largest-contour fold, the OPEN/CLOSED run-length state machine and its frame loop |
| `calibration.dfy` | `Calibration` | `services/calibration.py`: upload of a data-URL frame, rectangle acceptance into a pending slot, saving the pending record |
| `person.dfy` | `Person` | `services/person.py`: centre distance test, per-frame presence flag and status line, loading of the drawer box |
| `zone.dfy` | `Zone` | `detect.py`: click/key calibration session, source-argument parsing and start-up plan, default zone, feet point and alert label |
| `images.dfy` | `Images` | `services/encode_images.py`: case-insensitive extension filter and the sorted, insertion-ordered result dictionary |
| `strings.dfy` | `Strings` | ASCII lower-casing, suffix test, Python's string order and a sort that follows it |
| `json.dfy`, `geometry.dfy`, `wrappers.dfy` | `Json`, `Geometry`, `Wrappers` | the calibration document, points and boxes, `Option`/`Result` |

Every operation is a pure function or a method over immutable values. The module-level globals of the Python files become explicit values: the selector, the monitor, the calibration `Store` and the zone `Session`. Each of these is threaded through a step function that is folded over a sequence of events or frames. Library results are inputs to the model:

- the rectangle from the ROI selector;
- the contour areas of each frame;
- the detector's boxes and class names;
- the sign returned by the point-in-polygon test, passed in as a function;
- the directory listing;
- the base64 encoder, also passed in as a function.

The drawer monitor is modelled exactly as the code has it. It is not a generic debounced monitor with separate enter and exit settings. There is one motion threshold: an area strictly above 8000 counts as motion, and exactly 8000 is quiet. There is one frame count, 5. There are no separate enter and exit thresholds, and a transition does not reset the counters. There is no configuration step and no `InvalidConfig` error either.

## Model

| member | source | states |
|---|---|---|
| Drawer.SelectStep | services/drawer.py:11-25 | a button-down restarts the selection with exactly its own point and raises the drag flag; a button-up appends its point and lowers the flag; a mouse move changes nothing |
| Drawer.SelectionFollowsEvents | services/drawer.py:11-25 | after any event sequence the corners are the last press point followed by every later release (or all releases if never pressed), and the drag flag is up exactly when no release followed the last press |
| Drawer.NormaliseRegion | services/drawer.py:54-62 | a region exists iff exactly two corners were collected; then x1 <= x2 and y1 <= y2, and each pair is the two original coordinates, possibly swapped |
| Drawer.RegionAcceptedIffTwoCorners | services/drawer.py:54-56 | the selection is accepted iff exactly one release followed the last press, or, with no press at all, exactly two releases occurred |
| Drawer.MaxArea | services/drawer.py:100-104 | the running maximum is >= 0 and >= every contour area, and is either 0 or one of the areas |
| Drawer.Step | services/drawer.py:106-121 | a motion frame (area > 8000) increments the motion counter and zeroes the quiet counter, any other frame the reverse; at most one state change is announced per frame, and one is announced iff the state changed, naming the new state |
| Drawer.Run | services/drawer.py:70-121 | every monitor reachable from CLOSED with zero counters has at most one counter running (exactly one after any frame), and a CLOSED (OPEN) monitor's motion (quiet) counter is below 5 |
| Drawer.CountersAreRuns | services/drawer.py:106-112 | the motion counter equals the length of the trailing run of frames with area > 8000, the quiet counter that of the trailing run of other frames, so one quiet frame discards all motion progress |
| Drawer.OpenIffRuns | services/drawer.py:106-121 | the drawer is OPEN iff some frame completed five consecutive motion frames and no later frame completed five consecutive quiet frames |
| Drawer.NoOpenWithoutFiveMotionFrames | services/drawer.py:70-75 | OPEN is only ever reported after five consecutive motion frames, so never in the first four frames |
| Drawer.FiresExactlyWhenRunReachesFive | services/drawer.py:114-121 | CLOSED->OPEN is announced exactly on the frame whose motion run reaches 5, OPEN->CLOSED exactly on the frame whose quiet run reaches 5, and continued motion while OPEN announces nothing |
| Drawer.MonitorDrawer | services/drawer.py:84-121 | the frame loop feeds each frame's largest contour area to the monitor, and the state shown on frame i is OPEN iff the run-length description holds of the areas up to frame i |
| Calibration.SplitAtFirstComma | services/calibration.py:17 | the data URL splits iff it contains a comma; the header then holds no comma and header, comma and payload rebuild the input, so the split is at the first comma only |
| Calibration.SaveFrameFromBase64 | services/calibration.py:12-23 | input without a comma fails; otherwise the frame file receives exactly the text after the first comma and the pending record and coordinate file are untouched |
| Calibration.StartCalibrationFromFrame | services/calibration.py:26-62 | nothing is accepted iff the frame file is missing or the width or height is 0, and then the store, pending selection included, is unchanged; an accepted record has x2 = x + w, y2 = y + h, width w, height h, describes the selected rectangle and becomes the pending record |
| Calibration.DocumentRoundTrip | services/calibration.py:71-72 | the flat document written for a record reads back as that record |
| Calibration.SaveCoordinates | services/calibration.py:65-74 | saving fails and writes nothing iff no selection is pending; a successful save writes exactly the flat document of the pending record, which reads back as that record, and keeps the pending record |
| Calibration.SaveTwiceWritesSameRecord | services/calibration.py:65-74 | saving again without a new selection writes the same record and leaves the same store |
| Calibration.CalibrateThenSave | services/calibration.py:12-74 | upload, a non-empty selection and save leave a coordinate file that reads back as exactly the selected rectangle |
| Person.Center | services/person.py:26-27 | each centre coordinate is the floor of the mean of the two corners |
| Person.IsNear | services/person.py:21-34 | a person box is near iff the integer part of the centre distance is below 200, which is the same as the real distance being below 200 (the code compares squared distance with 40000) |
| Person.IsNearSymmetric | services/person.py:21-34 | nearness does not depend on the order of the two boxes |
| Person.IsNearItself | services/person.py:26-34 | every box is near itself |
| Person.RadiusIsNotNear | services/person.py:29-34 | a centre distance of exactly 200 is not near |
| Person.PersonNear | services/person.py:46-61 | the per-frame flag, reset to false each frame, is true iff some detection with class name "person" is near the drawer; other classes are ignored |
| Person.FrameStatus | services/person.py:70-75 | the status is "Person Near Drawer" iff some person is near, and "No One Near Drawer" otherwise |
| Person.LoadDrawerBox | services/person.py:13-18 | the corrected read of the saved file: a box loads iff `x1`, `y1`, `x2` and `y2` are all integers at the top level of the document, and then holds exactly those four values |
| Person.LoadNestedDrawerBox | services/person.py:13-18 | the read as written: a box loads iff the document has a `"drawer"` member whose four corners are integers, and then holds them |
| Person.NestedRecordLoads | services/person.py:13-18 | the read as written accepts a record wrapped under `"drawer"` |
| Person.SavedRecordNotLoadable | services/person.py:13-18 | the nested read `data["drawer"]["x1"]` fails on every document a successful save writes |
| Person.SavedRecordLoads | services/person.py:13-18 | the corrected flat read loads every document a successful save writes as the box with the saved corners |
| Person.StatusLines | services/person.py:39-78 | one status line per frame, "Person Near Drawer" iff a person on that frame is near the box |
| Person.MonitorPresence | services/person.py:9-83 | as written: the program stops before any frame iff the nested read of the coordinate file fails; otherwise each frame gets one status line, "Person Near Drawer" iff a person on that frame is near the loaded box |
| Person.MonitorSavedPresence | services/person.py:9-83 | the same program with the corrected flat read: it stops iff the flat read fails, and otherwise reports on every frame as above |
| Zone.Handle | detect.py:9-76 | while collecting, a left click appends its point at the end, `r` empties the list, `q` cancels, other mouse events and keys (the no-key code 255 among them) change nothing; `c` completes with the current points when there are at most two, and otherwise starts the closed preview, during which clicks are still appended until a key or the wait's timeout completes the session with the closed preview; a returned session ignores further events |
| Zone.CollectingHoldsClicksSinceReset | detect.py:74-76 | until an ending key, the session holds exactly the points clicked since the last `r`, in click order |
| Zone.PreviewCollectsClicks | detect.py:64-69 | during the two-second preview every click is appended to the list that is returned, in click order |
| Zone.FirstEndingKeyDecides | detect.py:9-73 | the first `q` returns nothing; the first `c` returns the points clicked since the last reset before it, directly when there are at most two, and otherwise followed by every point clicked during the preview up to the next key or timeout |
| Zone.KeyByte | detect.py:55 | the masked key is the low byte of the key code, also for the negative no-key code |
| Zone.ParseSource | detect.py:172-173 | the source is a camera index iff the argument is a non-empty string of digits; otherwise it is the argument itself as a file path |
| Zone.CameraIndexRoundTrip | detect.py:172-173 | every camera index written in decimal selects that camera |
| Zone.CalibratedStartup | detect.py:171-186 | with `--calibrate`, an unopened source or a first ending key `q` exits; a first ending key `c` runs detection on the parsed source with the points the session returns (those since the last reset, followed by those clicked during the preview), and exits when there are none |
| Zone.DetectionZoneNotEmpty | detect.py:97-103 | detection uses the calibrated points when calibrating and [[100,100],[500,100],[500,400],[100,400]] otherwise, so its zone is never empty |
| Zone.TruncatedHalf | detect.py:131 | `int(s / 2)` truncates toward zero: for s >= 0 it is the floor of s/2, for s < 0 the ceiling |
| Zone.Feet | detect.py:131-132 | the feet point lies on the bottom edge, and for a non-negative corner sum its x is (x1 + x2) div 2 |
| Zone.LabelPersons | detect.py:135-142 | one label per person box; "ALERT: Behind Counter" iff the polygon test at the feet point is >= 0, so a point on the boundary raises the alert, and "Person" otherwise |
| Images.ImageNameBySuffix | services/encode_images.py:20 | a name passes the filter iff its last characters, each lower-cased, spell .png, .jpg, .jpeg, .bmp or .gif |
| Images.ImageNameIgnoresCase | services/encode_images.py:20 | names with the same lower-cased form are filtered alike |
| Images.ImageNameExamples | services/encode_images.py:20 | "A.PNG" is an image name; "x.jpeg.txt" is not |
| Images.JoinShape | services/encode_images.py:21 | the joined path is the folder, then one `/` unless the folder is empty or already ends with one, then the file name |
| Images.Put | services/encode_images.py:22 | dictionary assignment appends a new key at the end, and re-assigning an existing key its current value changes nothing |
| Images.PutUpdatesInPlace | services/encode_images.py:22 | assignment to a present key keeps the length and every other entry and gives that key the new value in its place |
| Images.ProcessFolder | services/encode_images.py:14-23 | a non-directory fails with FileNotFound before anything is encoded; otherwise the keys are exactly the bare names in the listing whose lower-cased form ends in .png, .jpg, .jpeg, .bmp or .gif, in strictly increasing name order, each mapped to the encoding of the file joined onto the folder |
| Strings.Sort | services/encode_images.py:19 | sorting yields an ordered permutation of the listing |

## Left out

- Video capture, frame reading, Gaussian blur, frame differencing, thresholding, dilation, contour finding and contour areas are OpenCV calls. Their outputs (the per-frame contour areas) are inputs. A failed frame read ends the area sequence.
- Window display, rectangles, text and the polyline and circle overlays are not modelled. Each `waitKey` is an event carrying the code it returned, so a timeout is the no-key code; the waits' durations are not modelled. The two-second closed preview is a session state that ends at the next key event.
- YOLO model loading and inference are not modelled. Detections are given as class names and integer boxes, so the `int()` truncation of the detector's float box corners is not modelled. A model-load failure is not modelled either.
- `cv2.pointPolygonTest` is a function parameter; its geometry is not modelled. `cv2.selectROI` and the interactive rectangle drag are represented by the returned `(x, y, w, h)`.
- Contour areas are integers. A float area strictly between 8000 and 8001 counts as motion in the source but cannot be expressed here.
- Person.IsNear: the real square root is replaced by an exact integer comparison. Its contract speaks of the floor of the distance, which is equivalent for the integer radius 200.
- Zone.Feet: `(x1 + x2) / 2` is taken as exact; float rounding for sums beyond 2^53 is not modelled.
- Base64 encoding and decoding, JSON serialisation and all file reads and writes are not modelled. The frame file holds the still-encoded payload, so an invalid base64 payload, which raises in the source, is accepted here. The coordinate file holds a `Json.Value`.
- `services/decode_images.py` is decode-and-display or decode-and-write I/O and is not part of this model.
- `save_encodings` in `services/encode_images.py` and the module's `__main__` printing are JSON/console I/O and are not modelled.
- `app.py` (Flask routes mapping results to HTTP statuses), `static/js/calibration.js` (browser UI) and `services/play_alert.py` (sound and console input) are not part of this model.
- Strings.Lower and Zone.ParseSource are ASCII-only. Python's `str.lower` and `str.isdigit` also cover non-ASCII characters. No non-ASCII character lower-cases to a character of an image extension, so the filter is unaffected. A non-ASCII digit string would make the source raise at `int()` or pick another camera; that is not modelled.
- Zone.MainPlan takes the calibration result as an input instead of running the session itself. A session that never sees `c` or `q` keeps running forever in the source.
- Zone.CalibratedStartup: says nothing about an event sequence that ends while the closed preview is still showing. The source's wait always returns within two seconds, so such a sequence stops before `calibrate_zone` has returned anything.
- The calibration session restarts from an empty point list. In the source, the module-level list would keep points from an earlier call in the same process, but the program calls it only once.
- The drawer selection loop runs until ESC; here its end is the end of the event sequence. The ROI cropping of each frame is not modelled.

## Findings

| source | as written | input that shows it | evidently intended | confidence | as-written member | corrected member |
|---|---|---|---|---|---|---|
| services/person.py:13-18 | reads the drawer box from `data["drawer"]["x1"]` and friends, but `save_coordinates` (services/calibration.py:71-72) writes the same file as a flat object `{x1, y1, x2, y2, width, height}` | any saved record, e.g. `{"x1": 10, "y1": 20, "x2": 110, "y2": 220, "width": 100, "height": 200}`: the lookup of `"drawer"` raises KeyError | read `x1`, `y1`, `x2`, `y2` from the top level of the saved document, so that a save followed by a load round-trips | medium, not executed | Person.SavedRecordNotLoadable | Person.SavedRecordLoads |

`Person.LoadNestedDrawerBox` models the nested read as written, and `Person.MonitorPresence` is the program as written on top of it. `Person.LoadDrawerBox` is the corrected flat read, and `Person.MonitorSavedPresence` is the program with it.
