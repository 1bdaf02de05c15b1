# Crowd monitor: frame loop and unique-people count

This project models the core of the AI Crowd Monitor, a Streamlit script that runs a
person detector over an uploaded video. For every frame it reads, the script does four things:

- it counts the detections of class 0 ("person") as the people in that frame;
- it takes the integer centroid `((x1+x2)//2, (y1+y2)//2)` of each person box;
- it adds the 20-pixel grid cell `(cx//20, cy//20)` of that centroid to a run-wide set,
  whose size it shows as "Total Unique";
- it draws each person's box and centroid on the frame and writes the frame to the output video.

The loop stops at the first failed read.

The model has four modules:

- `Detections` (detections.dfy) holds the per-box arithmetic as pure functions: the class
  filter, `Centroid`, `CellOfPoint`/`Cell`, `PersonCount`, and the marks drawn for each person (`MarksOf`).
- `Dedup` (dedup.dfy) holds the deduplication specification. `CellsOf` is the set of cells one
  frame contributes, and `CellsOfFrames` is the unique set after a sequence of frames. The
  module also proves the properties of the unique count: membership, monotonicity, the bound
  by persons seen, order independence, that other classes are ignored, and idempotent re-observation.
- `Pipeline` (pipeline.dfy) holds the imperative loop. The class `Run` has the fields of the
  script's per-upload state: `unique` for `total_people` and `frameCount` for `frame_count`.
  `Run.ProcessFrame` is the body of `for box in results.boxes`, written as a `while` loop with
  invariants. It is proved against the specification functions `PersonCount`, `CellsOf` and
  `MarksOf`. `Analyse` is the `while cap.isOpened()` loop over a sequence of reads. It is proved
  against the specification functions `Consumed`, `DetsOf`, `Outputs` and `Snapshots`.
- `Scenarios` (scenarios.dfy) holds concrete runs: an empty frame, two centroids in one cell,
  two centroids in two cells, and one person seen in ten frames.

The parts that are not modelled are replaced as follows:

- The video reader and the detector are replaced by their results. Each read is either
  `Frame(image, dets)`, an opaque frame with the detector's boxes for it, or `Failed`.
- Frames are values of a type parameter.
- An output frame is `Annotated(frame, marks)`, where `marks` lists the rectangles and centroid
  dots that are drawn.
- After each frame, the loop's figures are recorded as a `Snapshot(peopleInFrame, unique, frames)`.
  `peopleInFrame` and `unique` are the "People in Frame" and "Total Unique" KPI boxes
  (app_updated.py:142, 144). `frames` is `frame_count`, which is never displayed itself; it feeds
  the FPS and the progress bar. The "Average FPS" box is not part of the snapshot.

Dafny's `/` with a positive divisor rounds down, like Python's `//`, for negative operands as
well. The contracts of `Centroid` and `CellOfPoint` state this floor behaviour directly.

Two features of the script shape the model:

- Boxes of other classes are filtered inside the box loop (app_updated.py:131-132), and the
  model filters in the same place.
- The script has no per-frame failure handling, no abort or cancel state and no parallel
  stages. An exception from the detector (app_updated.py:127) ends the script, and the model
  has none of these either.

## Model

| member | source | states |
|---|---|---|
| `Detections.Centroid` | app_updated.py:135 | the centroid is the floor of the box's midpoint: `2*cx <= x1+x2 < 2*cx+2`, and the same for y |
| `Detections.CellOfPoint` | app_updated.py:136 | the cell is the floor of the point divided by 20: `20*gx <= px < 20*gx+20`, and the same for y |
| `Detections.CellOfPointIff` | app_updated.py:136 | a point maps to a cell exactly when that cell's 20×20 square contains the point (both directions) |
| `Detections.PersonCount` | app_updated.py:128-133 | the people counted in a frame never exceed its number of boxes |
| `Detections.PersonCountExtremes` | app_updated.py:130-133 | the count is 0 exactly when no box has class 0, and it equals the box count exactly when every box has class 0 |
| `Detections.PersonCountIsCardinality` | app_updated.py:128-133 | `people_in_frame` equals the number of positions in the frame whose box has class 0 |
| `Detections.MarksOfLength` | app_updated.py:130-138 | one rectangle-and-dot mark is drawn per person detection |
| `Detections.MarksOfAt` | app_updated.py:130-138 | every class-0 box is marked: the person at position `i` gets the mark right after those of the persons before it, with its own box and centroid |
| `Detections.MarksOfPersons` | app_updated.py:130-138 | every mark drawn is the box and centroid of some class-0 detection of the frame |
| `Dedup.CellsOfMembership` | app_updated.py:130-136 | a cell is added by a frame exactly when some class-0 box of the frame has its centroid in that cell |
| `Dedup.CellsOfFramesMembership` | app_updated.py:116-136 | a cell is in the unique set exactly when some frame processed so far contributed it |
| `Dedup.CellsOfBound` | app_updated.py:130-136 | a frame contributes at most as many cells as it has person detections |
| `Dedup.FrameGrowthBound` | app_updated.py:130-136 | adding a frame's cells keeps the old set and grows its size by at most `people_in_frame` |
| `Dedup.CellsOfAppend` | app_updated.py:130-136 | the cells of two runs of boxes processed one after the other are the union of the cells of each |
| `Dedup.NonPersonIgnored` | app_updated.py:131-132 | removing a box whose class is not 0 does not change the cells a frame contributes |
| `Dedup.CellsOfOrderIndependent` | app_updated.py:130-136 | two frames holding the same boxes, as a multiset, contribute the same cells, in any order |
| `Dedup.CellsOfFramesOrderIndependent` | app_updated.py:121-136 | reordering the boxes within each frame leaves the unique set unchanged |
| `Dedup.CellsOfFramesAppend` | app_updated.py:121-136 | the unique set after frames `a` and then `b` is the union of the sets each produces |
| `Dedup.UniqueMonotone` | app_updated.py:116-136 | the unique set, and therefore its size, never shrinks when more frames are processed |
| `Dedup.PrefixMonotone` | app_updated.py:121-144 | the unique count after a shorter prefix of the video is at most the count after a longer prefix |
| `Dedup.UniqueBound` | app_updated.py:116-136 | the unique count never exceeds the total number of person detections seen |
| `Dedup.Reobservation` | app_updated.py:121-136 | processing again a frame that was already seen leaves the unique set unchanged |
| `Dedup.FrameIncluded` | app_updated.py:121-136 | every cell of every processed frame is in the unique set |
| `Dedup.RepeatedSighting` | app_updated.py:121-136 | any number of frames, each holding the same single person, give a unique set of exactly that person's cell |
| `Pipeline.Run.constructor` | app_updated.py:116-117 | a run starts with an empty set, a frame count of 0 and no frames seen |
| `Pipeline.Run.ProcessFrame` | app_updated.py:126-138 | the frame count goes up by 1, the set gains exactly the frame's person cells, the old set is kept, the size grows by at most the returned `people_in_frame`, that count equals `PersonCount`, and the marks equal `MarksOf` |
| `Pipeline.Consumed` | app_updated.py:121-124 | the frames the loop consumes are a prefix of the reads, every one of them a frame, followed by a failed read or the end |
| `Pipeline.ConsumedUnique` | app_updated.py:121-124 | that prefix is exactly the reads up to, and not including, the first failure |
| `Pipeline.DetsOfAt` | app_updated.py:121-127 | the detections handled at step `k` are those of the `k`-th frame read |
| `Pipeline.OutputsAt` | app_updated.py:137-147 | output frame `k` is input frame `k` with exactly its person marks drawn, so no frame is dropped, duplicated or reordered |
| `Pipeline.SnapshotsAt` | app_updated.py:126-144 | the figures after frame `k` are: the people in that frame, the size of the unique set over frames `0..k`, and `k+1` frames |
| `Pipeline.SnapshotsMonotone` | app_updated.py:136-144 | the unique count shown after a later frame is never smaller than the count shown after an earlier one |
| `Pipeline.SnapshotsBounded` | app_updated.py:130-144 | the unique count shown never exceeds the person detections in the frames read so far |
| `Pipeline.Analyse` | app_updated.py:116-155 | the loop writes `Outputs` of the consumed frames, publishes `Snapshots` of their detections, and reports the size of their unique set at the end |
| `Scenarios.EmptyFrame` | app_updated.py:128-147 | a frame with no detections is written back with nothing drawn, and shows 0 people and 0 unique |
| `Scenarios.SameCell` | app_updated.py:130-144 | centroids (100,100) and (105,102) give 2 people in the frame and 1 unique |
| `Scenarios.DifferentCells` | app_updated.py:130-144 | centroids (100,100) and (140,140) give 2 people in the frame and 2 unique |
| `Scenarios.TenFramesOnePerson` | app_updated.py:121-144 | ten frames of one fixed person each show 1 person and 1 unique |

## Left out

- Streamlit presentation is not modelled, because it only renders values the model already computes. This covers the page setup, CSS, headers, the upload widget, the KPI markdown, the live image, the progress bar, the success message and the download button (app_updated.py:9-80, 89-91, 108-114, 142-146, 154-161). The KPI figures are kept as `Snapshot` values.
- Loading the YOLO model and running it (app_updated.py:83-87, 127) are foreign code. Each frame's detections are given as input instead.
- The `int(...)` conversions of the tensor class id and the box coordinates (app_updated.py:131, 134) are float-to-int library calls. Class ids and coordinates are integers in the model. The confidence is never read, so it is not modelled.
- OpenCV capture and writer setup and release (app_updated.py:98-105, 150-151) are not modelled. `cap.isOpened()` becoming false is treated the same as a failed read.
- Pixel drawing by `cv2.rectangle` and `cv2.circle` (app_updated.py:137-138) is not modelled. An output frame records which rectangles and dots are drawn, but not their colours or raster effect.
- The average FPS (app_updated.py:118, 140) is not modelled, because it uses wall-clock time and float division. The script does not guard against zero elapsed time.
- The progress fraction `frame_count / total_frames` (app_updated.py:148) is not modelled, because it is float division. When the video reports 0 frames it raises a division by zero, and nothing clamps it to [0, 1].
- Temporary-file creation and the output path (app_updated.py:94-96, 102, 157) are file-system plumbing and are not modelled.
- Pipeline.Analyse: its ensures describe only runs in which the video reports a `total_frames` of at least the number of frames read. The progress update (app_updated.py:148) runs after `out.write` of every frame. When `total_frames` is 0 it raises a division by zero right after the first frame is written. When `total_frames` is negative or smaller than the number of frames read, the fraction falls outside [0, 1], which `st.progress` rejects. In both cases the loop stops without a failed read, and the release and final report (app_updated.py:150-155) never run.
