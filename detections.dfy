/**
 The per-box arithmetic of the crowd monitor's main loop: which detections are
 people, where a box's centroid lies, which 20-pixel grid cell that centroid
 falls in, and what is drawn for each person on the output frame.
 */
module Detections {

  /** The detector's class id for "person"; every other class is skipped. */
  const PersonClass: int := 0

  /** Side, in pixels, of the square grid cells that stand in for identities. */
  const CellSize: int := 20

  /** One box reported by the detector, in pixel coordinates (confidence is never read). */
  datatype Detection = Detection(cls: int, x1: int, y1: int, x2: int, y2: int)

  /** A pixel position or a grid cell, as the pair (x, y). */
  type Point = (int, int)

  /** What the loop draws for one person: the box outline and a dot at its centroid. */
  datatype Mark = Mark(x1: int, y1: int, x2: int, y2: int, centre: Point)

  predicate IsPerson(d: Detection)
  {
    d.cls == PersonClass
  }

  /** Integer centre of the box, rounded down (Python's `//`, also for negative sums). */
  function Centroid(d: Detection): (c: Point)
    ensures 2 * c.0 <= d.x1 + d.x2 < 2 * c.0 + 2
    ensures 2 * c.1 <= d.y1 + d.y2 < 2 * c.1 + 2
  {
    ((d.x1 + d.x2) / 2, (d.y1 + d.y2) / 2)
  }

  /** The grid cell holding a point: floor division of each coordinate by CellSize. */
  function CellOfPoint(p: Point): (cell: Point)
    ensures CellSize * cell.0 <= p.0 < CellSize * cell.0 + CellSize
    ensures CellSize * cell.1 <= p.1 < CellSize * cell.1 + CellSize
  {
    (p.0 / CellSize, p.1 / CellSize)
  }

  /** The cell a detection is deduplicated by: the cell of its centroid. */
  function Cell(d: Detection): Point
  {
    CellOfPoint(Centroid(d))
  }

  /** A point lies in `cell` exactly when the cell's square of pixels contains it. */
  lemma CellOfPointIff(p: Point, cell: Point)
    ensures CellOfPoint(p) == cell <==>
              (CellSize * cell.0 <= p.0 < CellSize * cell.0 + CellSize &&
               CellSize * cell.1 <= p.1 < CellSize * cell.1 + CellSize)
  {
  }

  /** Number of detections of the person class, counted the way the loop counts them. */
  function PersonCount(dets: seq<Detection>): (n: nat)
    ensures n <= |dets|
  {
    if dets == [] then 0
    else PersonCount(dets[..|dets| - 1]) + (if IsPerson(dets[|dets| - 1]) then 1 else 0)
  }

  /** No person counted exactly when no box is a person; all counted exactly when every box is. */
  lemma {:induction false} PersonCountExtremes(dets: seq<Detection>)
    ensures PersonCount(dets) == 0 <==> forall i :: 0 <= i < |dets| ==> !IsPerson(dets[i])
    ensures PersonCount(dets) == |dets| <==> forall i :: 0 <= i < |dets| ==> IsPerson(dets[i])
  {
    if dets != [] {
      var n := |dets| - 1;
      PersonCountExtremes(dets[..n]);
      assert forall i :: 0 <= i < n ==> dets[..n][i] == dets[i];
    }
  }

  /** Positions of the person detections in a frame. */
  function PersonIndices(dets: seq<Detection>): set<nat>
  {
    set i: nat | i < |dets| && IsPerson(dets[i])
  }

  /** The loop's count is the number of positions holding a person detection. */
  lemma {:induction false} PersonCountIsCardinality(dets: seq<Detection>)
    ensures PersonCount(dets) == |PersonIndices(dets)|
  {
    if dets != [] {
      var n := |dets| - 1;
      PersonCountIsCardinality(dets[..n]);
      var before := PersonIndices(dets[..n]);
      assert PersonIndices(dets) == before + (if IsPerson(dets[n]) then {n} else {});
      assert n !in before;
    }
  }

  function MarkOf(d: Detection): Mark
  {
    Mark(d.x1, d.y1, d.x2, d.y2, Centroid(d))
  }

  /** The marks drawn on a frame: one per person detection, in detection order. */
  function MarksOf(dets: seq<Detection>): seq<Mark>
  {
    if dets == [] then []
    else
      var d := dets[|dets| - 1];
      MarksOf(dets[..|dets| - 1]) + (if IsPerson(d) then [MarkOf(d)] else [])
  }

  /** One mark is drawn per person in the frame. */
  lemma {:induction false} MarksOfLength(dets: seq<Detection>)
    ensures |MarksOf(dets)| == PersonCount(dets)
  {
    if dets != [] {
      MarksOfLength(dets[..|dets| - 1]);
    }
  }

  /**
   Every person detection is marked, in order: the person at position `i` gets
   the mark after those of the persons before it.
   */
  lemma {:induction false} MarksOfAt(dets: seq<Detection>, i: nat)
    requires i < |dets| && IsPerson(dets[i])
    ensures PersonCount(dets[..i]) < |MarksOf(dets)|
    ensures MarksOf(dets)[PersonCount(dets[..i])] == MarkOf(dets[i])
  {
    var n := |dets| - 1;
    MarksOfLength(dets);
    MarksOfLength(dets[..n]);
    if i < n {
      MarksOfAt(dets[..n], i);
      assert dets[..n][..i] == dets[..i];
    } else {
      assert dets[..i] == dets[..n];
    }
  }

  /** Every mark drawn is the box and centroid of some person detection of the frame. */
  lemma {:induction false} MarksOfPersons(dets: seq<Detection>, k: nat)
    requires k < |MarksOf(dets)|
    ensures exists i :: 0 <= i < |dets| && IsPerson(dets[i]) && MarksOf(dets)[k] == MarkOf(dets[i])
  {
    var n := |dets| - 1;
    if k < |MarksOf(dets[..n])| {
      MarksOfPersons(dets[..n], k);
      var i :| 0 <= i < n && IsPerson(dets[..n][i]) && MarksOf(dets[..n])[k] == MarkOf(dets[..n][i]);
      assert dets[i] == dets[..n][i];
    } else {
      assert IsPerson(dets[n]) && MarksOf(dets)[k] == MarkOf(dets[n]);
    }
  }
}
