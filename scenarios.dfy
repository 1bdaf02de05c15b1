/**
 Concrete runs of the model: an empty frame, two people sharing a cell, two
 people in different cells, and one person seen in ten consecutive frames.
 */
module Scenarios {
  import opened Detections
  import opened Dedup
  import opened Pipeline

  /** A frame without detections is written back with nothing drawn, and counts no one. */
  lemma EmptyFrame<F>(image: F)
    ensures Outputs([Frame(image, [])]) == [Annotated(image, [])]
    ensures Snapshots([[]]) == [Snapshot(0, 0, 1)]
  {
  }

  /** Centroids (100,100) and (105,102) share cell (5,5): two people in frame, one unique. */
  lemma SameCell()
    ensures Snapshots([[Detection(0, 90, 90, 110, 110), Detection(0, 100, 100, 110, 104)]])
              == [Snapshot(2, 1, 1)]
  {
    var d1, d2 := Detection(0, 90, 90, 110, 110), Detection(0, 100, 100, 110, 104);
    assert Centroid(d1) == (100, 100) && Centroid(d2) == (105, 102);
    assert Cell(d1) == (5, 5) && Cell(d2) == (5, 5);
    assert [d1, d2][..1] == [d1];
    assert [d1][..0] == [];
    assert CellsOf([d1]) == {(5, 5)};
    assert CellsOf([d1, d2]) == {(5, 5)};
    var frames := [[d1, d2]];
    assert frames[..0] == [];
    assert CellsOfFrames(frames) == {(5, 5)};
  }

  /** Centroids (100,100) and (140,140) fall in cells (5,5) and (7,7): two unique people. */
  lemma DifferentCells()
    ensures Snapshots([[Detection(0, 90, 90, 110, 110), Detection(0, 130, 130, 150, 150)]])
              == [Snapshot(2, 2, 1)]
  {
    var d1, d3 := Detection(0, 90, 90, 110, 110), Detection(0, 130, 130, 150, 150);
    assert Centroid(d1) == (100, 100) && Centroid(d3) == (140, 140);
    assert Cell(d1) == (5, 5) && Cell(d3) == (7, 7);
    assert [d1, d3][..1] == [d1];
    assert [d1][..0] == [];
    assert CellsOf([d1]) == {(5, 5)};
    assert CellsOf([d1, d3]) == {(5, 5), (7, 7)};
    var frames := [[d1, d3]];
    assert frames[..0] == [];
    assert CellsOfFrames(frames) == {(5, 5), (7, 7)};
  }

  /** One person at a fixed place for ten frames: one in every frame, one unique at the end. */
  lemma TenFramesOnePerson(d: Detection)
    requires IsPerson(d)
    ensures var frames := seq(10, _ => [d]);
            forall k :: 0 <= k < 10 ==> Snapshots(frames)[k] == Snapshot(1, 1, k + 1)
  {
    var frames := seq(10, _ => [d]);
    assert [d][..0] == [];
    assert PersonCount([d]) == 1;
    forall k | 0 <= k < 10 ensures Snapshots(frames)[k] == Snapshot(1, 1, k + 1) {
      SnapshotsAt(frames, k);
      RepeatedSighting(d, frames[..k + 1]);
    }
  }
}
