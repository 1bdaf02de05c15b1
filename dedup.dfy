/**
 The spatial deduplication behind the "Total Unique" figure: every person
 detection contributes the grid cell of its centroid to one run-wide set, and
 the size of that set is reported as the number of unique people. These are
 the specification functions the imperative loop is proved against, and the
 properties of the unique count that follow from them.
 */
module Dedup {
  import opened Detections

  /** The cells one frame adds: those of its person detections, and no others. */
  function CellsOf(dets: seq<Detection>): set<Point>
  {
    if dets == [] then {}
    else
      var d := dets[|dets| - 1];
      CellsOf(dets[..|dets| - 1]) + (if IsPerson(d) then {Cell(d)} else {})
  }

  /** The unique set after a sequence of frames: the cells of every person seen in any of them. */
  function CellsOfFrames(frames: seq<seq<Detection>>): set<Point>
  {
    if frames == [] then {}
    else CellsOfFrames(frames[..|frames| - 1]) + CellsOf(frames[|frames| - 1])
  }

  /** Total number of person detections over a sequence of frames. */
  function PersonsSeen(frames: seq<seq<Detection>>): nat
  {
    if frames == [] then 0
    else PersonsSeen(frames[..|frames| - 1]) + PersonCount(frames[|frames| - 1])
  }

  /** A cell is in a frame's set exactly when some person detection of the frame has it. */
  lemma {:induction false} CellsOfMembership(dets: seq<Detection>, c: Point)
    ensures c in CellsOf(dets) <==>
              exists i :: 0 <= i < |dets| && IsPerson(dets[i]) && Cell(dets[i]) == c
  {
    if dets != [] {
      var n := |dets| - 1;
      CellsOfMembership(dets[..n], c);
      if c in CellsOf(dets[..n]) {
        var i :| 0 <= i < n && IsPerson(dets[..n][i]) && Cell(dets[..n][i]) == c;
        assert dets[i] == dets[..n][i];
      }
      if exists i :: 0 <= i < |dets| && IsPerson(dets[i]) && Cell(dets[i]) == c {
        var i :| 0 <= i < |dets| && IsPerson(dets[i]) && Cell(dets[i]) == c;
        if i < n {
          assert dets[..n][i] == dets[i];
        }
      }
    }
  }

  /** A cell is in the unique set exactly when some frame processed contributed it. */
  lemma {:induction false} CellsOfFramesMembership(frames: seq<seq<Detection>>, c: Point)
    ensures c in CellsOfFrames(frames) <==> exists k :: 0 <= k < |frames| && c in CellsOf(frames[k])
  {
    if frames != [] {
      var n := |frames| - 1;
      CellsOfFramesMembership(frames[..n], c);
      if c in CellsOfFrames(frames[..n]) {
        var k :| 0 <= k < n && c in CellsOf(frames[..n][k]);
        assert frames[k] == frames[..n][k];
      }
      if exists k :: 0 <= k < |frames| && c in CellsOf(frames[k]) {
        var k :| 0 <= k < |frames| && c in CellsOf(frames[k]);
        if k < n {
          assert frames[..n][k] == frames[k];
        }
      }
    }
  }

  /** A frame adds at most one cell per person in it. */
  lemma {:induction false} CellsOfBound(dets: seq<Detection>)
    ensures |CellsOf(dets)| <= PersonCount(dets)
  {
    if dets != [] {
      CellsOfBound(dets[..|dets| - 1]);
    }
  }

  /** Within one frame the unique count grows by at most the number of people in it. */
  lemma FrameGrowthBound(unique: set<Point>, dets: seq<Detection>)
    ensures unique <= unique + CellsOf(dets)
    ensures |unique| <= |unique + CellsOf(dets)| <= |unique| + PersonCount(dets)
  {
    CellsOfBound(dets);
    assert unique + CellsOf(dets) == unique + (CellsOf(dets) - unique);
  }

  /** The cells of two runs of detections together are the cells of each, joined. */
  lemma {:induction false} CellsOfAppend(a: seq<Detection>, b: seq<Detection>)
    ensures CellsOf(a + b) == CellsOf(a) + CellsOf(b)
  {
    if b == [] {
      assert a + b == a;
    } else {
      var n := |b| - 1;
      CellsOfAppend(a, b[..n]);
      assert (a + b)[..|a + b| - 1] == a + b[..n];
    }
  }

  /** Boxes of any other class never reach the set: dropping one changes nothing. */
  lemma NonPersonIgnored(before: seq<Detection>, d: Detection, after: seq<Detection>)
    requires !IsPerson(d)
    ensures CellsOf(before + [d] + after) == CellsOf(before + after)
  {
    CellsOfAppend(before + [d], after);
    CellsOfAppend(before, [d]);
    CellsOfAppend(before, after);
    assert [d][..0] == [];
  }

  /** The cells of a frame depend only on which detections it holds, not on their order. */
  lemma CellsOfOrderIndependent(a: seq<Detection>, b: seq<Detection>)
    requires multiset(a) == multiset(b)
    ensures CellsOf(a) == CellsOf(b)
  {
    forall c | c in CellsOf(a) ensures c in CellsOf(b) {
      CellsOfMembership(a, c);
      CellsOfMembership(b, c);
      var i :| 0 <= i < |a| && IsPerson(a[i]) && Cell(a[i]) == c;
      assert a[i] in multiset(b);
      var j :| 0 <= j < |b| && b[j] == a[i];
    }
    forall c | c in CellsOf(b) ensures c in CellsOf(a) {
      CellsOfMembership(a, c);
      CellsOfMembership(b, c);
      var j :| 0 <= j < |b| && IsPerson(b[j]) && Cell(b[j]) == c;
      assert b[j] in multiset(a);
      var i :| 0 <= i < |a| && a[i] == b[j];
    }
  }

  /** Reordering the boxes inside each frame leaves the final unique set the same. */
  lemma {:induction false} CellsOfFramesOrderIndependent(fs: seq<seq<Detection>>, gs: seq<seq<Detection>>)
    requires |fs| == |gs|
    requires forall k :: 0 <= k < |fs| ==> multiset(fs[k]) == multiset(gs[k])
    ensures CellsOfFrames(fs) == CellsOfFrames(gs)
  {
    if fs != [] {
      var n := |fs| - 1;
      CellsOfFramesOrderIndependent(fs[..n], gs[..n]);
      CellsOfOrderIndependent(fs[n], gs[n]);
    }
  }

  /** Processing more frames after some joins their cells to the set those left. */
  lemma {:induction false} CellsOfFramesAppend(frames: seq<seq<Detection>>, more: seq<seq<Detection>>)
    ensures CellsOfFrames(frames + more) == CellsOfFrames(frames) + CellsOfFrames(more)
  {
    if more == [] {
      assert frames + more == frames;
    } else {
      var n := |more| - 1;
      CellsOfFramesAppend(frames, more[..n]);
      assert (frames + more)[..|frames + more| - 1] == frames + more[..n];
    }
  }

  /** The unique set never shrinks as more frames are processed. */
  lemma UniqueMonotone(frames: seq<seq<Detection>>, more: seq<seq<Detection>>)
    ensures CellsOfFrames(frames) <= CellsOfFrames(frames + more)
    ensures |CellsOfFrames(frames)| <= |CellsOfFrames(frames + more)|
  {
    CellsOfFramesAppend(frames, more);
    UnionCardinality(CellsOfFrames(frames), CellsOfFrames(more));
  }

  /** The unique count after a shorter prefix of the frames is at most that after a longer one. */
  lemma PrefixMonotone(frames: seq<seq<Detection>>, j: nat, k: nat)
    requires j <= k <= |frames|
    ensures |CellsOfFrames(frames[..j])| <= |CellsOfFrames(frames[..k])|
  {
    assert frames[..k] == frames[..j] + frames[j..k];
    UniqueMonotone(frames[..j], frames[j..k]);
  }

  lemma UnionCardinality(a: set<Point>, b: set<Point>)
    ensures |a| <= |a + b|
  {
    assert a + b == a + (b - a);
  }

  /** The unique count never exceeds the number of person detections seen so far. */
  lemma {:induction false} UniqueBound(frames: seq<seq<Detection>>)
    ensures |CellsOfFrames(frames)| <= PersonsSeen(frames)
  {
    if frames != [] {
      var n := |frames| - 1;
      UniqueBound(frames[..n]);
      FrameGrowthBound(CellsOfFrames(frames[..n]), frames[n]);
    }
  }

  /** Seeing again a frame already processed adds no cell: re-observation is idempotent. */
  lemma Reobservation(frames: seq<seq<Detection>>, k: nat)
    requires k < |frames|
    ensures CellsOfFrames(frames + [frames[k]]) == CellsOfFrames(frames)
  {
  }

  /** Every frame processed has all its cells in the unique set. */
  lemma FrameIncluded(frames: seq<seq<Detection>>, k: nat)
    requires k < |frames|
    ensures CellsOf(frames[k]) <= CellsOfFrames(frames)
  {
  }

  /** Any number of frames holding only the same person leave exactly one cell. */
  lemma {:induction false} RepeatedSighting(d: Detection, frames: seq<seq<Detection>>)
    requires IsPerson(d)
    requires frames != []
    requires forall k :: 0 <= k < |frames| ==> frames[k] == [d]
    ensures CellsOfFrames(frames) == {Cell(d)}
  {
    assert [d][0] == d;
    assert CellsOf([d]) == {Cell(d)};
    if |frames| > 1 {
      RepeatedSighting(d, frames[..|frames| - 1]);
    }
  }
}
