/**
 The main loop of the crowd monitor: read frames until the first failed read,
 and for each frame count its people, add their cells to the run's unique set,
 mark them on the frame, write the frame out and publish the figures.
 The detector and the video reader are external: each successful read arrives
 together with the detector's boxes for that frame, and frames are opaque
 values of a type parameter.
 */
module Pipeline {
  import opened Detections
  import opened Dedup

  /** The outcome of one read from the video: a frame with its detections, or a failed read. */
  datatype Read<F> = Frame(image: F, dets: seq<Detection>) | Failed

  /** An output frame: the input frame with the given marks drawn on it. */
  datatype Annotated<F> = Annotated(base: F, marks: seq<Mark>)

  /** The figures shown after a frame: people in that frame, unique people so far, frames read. */
  datatype Snapshot = Snapshot(peopleInFrame: nat, unique: nat, frames: nat)

  /**
   The per-run state: the set of grid cells seen (`total_people`) and the
   frame counter. `seen` is the ghost history of the frames processed.
   */
  class Run {
    var unique: set<Point>
    var frameCount: nat
    ghost var seen: seq<seq<Detection>>

    ghost predicate Valid()
      reads this
    {
      unique == CellsOfFrames(seen) && frameCount == |seen|
    }

    constructor ()
      ensures Valid()
      ensures unique == {} && frameCount == 0 && seen == []
    {
      unique := {};
      frameCount := 0;
      seen := [];
    }

    /**
     One pass of the loop body over a frame's detections: count the frame,
     then for each box of the person class count it, add its cell and mark it.
     */
    method ProcessFrame(dets: seq<Detection>) returns (peopleInFrame: nat, marks: seq<Mark>)
      requires Valid()
      modifies this
      ensures Valid()
      ensures seen == old(seen) + [dets]
      ensures frameCount == old(frameCount) + 1
      ensures unique == old(unique) + CellsOf(dets)
      ensures old(unique) <= unique
      ensures |unique| <= |old(unique)| + peopleInFrame
      ensures peopleInFrame == PersonCount(dets)
      ensures marks == MarksOf(dets)
    {
      frameCount := frameCount + 1;
      peopleInFrame := 0;
      marks := [];
      var i := 0;
      while i < |dets|
        invariant 0 <= i <= |dets|
        invariant frameCount == old(frameCount) + 1 && seen == old(seen)
        invariant peopleInFrame == PersonCount(dets[..i])
        invariant unique == old(unique) + CellsOf(dets[..i])
        invariant marks == MarksOf(dets[..i])
      {
        var d := dets[i];
        assert dets[..i + 1][..i] == dets[..i];
        if d.cls != PersonClass {
          i := i + 1;
          continue;
        }
        peopleInFrame := peopleInFrame + 1;
        var c := Centroid(d);
        unique := unique + {CellOfPoint(c)};
        marks := marks + [Mark(d.x1, d.y1, d.x2, d.y2, c)];
        i := i + 1;
      }
      assert dets[..i] == dets;
      FrameGrowthBound(old(unique), dets);
      assert (seen + [dets])[..|seen|] == seen;
      seen := seen + [dets];
    }
  }

  /** Every read in `frames` delivered a frame. */
  predicate AllFrames<F>(frames: seq<Read<F>>)
  {
    forall k :: 0 <= k < |frames| ==> frames[k].Frame?
  }

  /** The reads the loop consumes as frames: all of them up to, not including, the first failure. */
  function Consumed<F>(input: seq<Read<F>>): (frames: seq<Read<F>>)
    ensures |frames| <= |input| && frames == input[..|frames|]
    ensures AllFrames(frames)
    ensures |frames| < |input| ==> input[|frames|].Failed?
  {
    if input == [] || input[0].Failed? then []
    else [input[0]] + Consumed(input[1..])
  }

  /** The detections of a run of frames, frame by frame. */
  function DetsOf<F>(frames: seq<Read<F>>): (dets: seq<seq<Detection>>)
    requires AllFrames(frames)
    ensures |dets| == |frames|
  {
    if frames == [] then []
    else DetsOf(frames[..|frames| - 1]) + [frames[|frames| - 1].dets]
  }

  /** The video written for a run of frames: each frame with its people marked, in order. */
  function Outputs<F>(frames: seq<Read<F>>): (out: seq<Annotated<F>>)
    requires AllFrames(frames)
    ensures |out| == |frames|
  {
    if frames == [] then []
    else
      var last := frames[|frames| - 1];
      Outputs(frames[..|frames| - 1]) + [Annotated(last.image, MarksOf(last.dets))]
  }

  /** `f` of every non-empty prefix of `xs`, shortest first. */
  function Scan<T, U>(xs: seq<T>, f: seq<T> -> U): (ys: seq<U>)
    ensures |ys| == |xs|
  {
    if xs == [] then [] else Scan(xs[..|xs| - 1], f) + [f(xs)]
  }

  /** Entry `k` of a scan is `f` of the first k + 1 elements. */
  lemma {:induction false} ScanAt<T, U>(xs: seq<T>, f: seq<T> -> U, k: nat)
    requires k < |xs|
    ensures Scan(xs, f)[k] == f(xs[..k + 1])
  {
    var n := |xs| - 1;
    if k < n {
      ScanAt(xs[..n], f, k);
      assert xs[..n][..k + 1] == xs[..k + 1];
    } else {
      assert xs[..k + 1] == xs;
    }
  }

  lemma ScanSnoc<T, U>(xs: seq<T>, x: T, f: seq<T> -> U)
    ensures Scan(xs + [x], f) == Scan(xs, f) + [f(xs + [x])]
  {
  }

  /** The figures after the last of `frames`: its person count, the unique count so far, the frame count. */
  function Latest(frames: seq<seq<Detection>>): Snapshot
  {
    if frames == [] then Snapshot(0, 0, 0)
    else Snapshot(PersonCount(frames[|frames| - 1]), |CellsOfFrames(frames)|, |frames|)
  }

  /** The figures published after each frame of a run, in order. */
  function Snapshots(frames: seq<seq<Detection>>): seq<Snapshot>
  {
    Scan(frames, Latest)
  }

  lemma DetsOfSnoc<F>(frames: seq<Read<F>>, r: Read<F>)
    requires AllFrames(frames) && r.Frame?
    ensures AllFrames(frames + [r])
    ensures DetsOf(frames + [r]) == DetsOf(frames) + [r.dets]
  {
  }

  lemma OutputsSnoc<F>(frames: seq<Read<F>>, r: Read<F>)
    requires AllFrames(frames) && r.Frame?
    ensures AllFrames(frames + [r])
    ensures Outputs(frames + [r]) == Outputs(frames) + [Annotated(r.image, MarksOf(r.dets))]
  {
  }

  /** The consumed prefix is fixed by the reads: a frame-only prefix followed by a failure or the end is it. */
  lemma {:induction false} ConsumedUnique<F>(input: seq<Read<F>>, n: nat)
    requires n <= |input| && AllFrames(input[..n])
    requires n < |input| ==> input[n].Failed?
    ensures Consumed(input) == input[..n]
  {
    if n > 0 {
      assert input[1..][..n - 1] == input[1..n];
      ConsumedUnique(input[1..], n - 1);
      assert input[..n] == [input[0]] + input[1..n];
    }
  }

  /** Output frame `k` is input frame `k` with exactly its person boxes marked. */
  lemma {:induction false} OutputsAt<F>(frames: seq<Read<F>>, k: nat)
    requires AllFrames(frames) && k < |frames|
    ensures Outputs(frames)[k] == Annotated(frames[k].image, MarksOf(frames[k].dets))
  {
    var n := |frames| - 1;
    if k < n {
      assert AllFrames(frames[..n]);
      OutputsAt(frames[..n], k);
    }
  }

  /** Detections `k` of the run are those of frame `k`. */
  lemma {:induction false} DetsOfAt<F>(frames: seq<Read<F>>, k: nat)
    requires AllFrames(frames) && k < |frames|
    ensures DetsOf(frames)[k] == frames[k].dets
  {
    var n := |frames| - 1;
    if k < n {
      assert AllFrames(frames[..n]);
      DetsOfAt(frames[..n], k);
    }
  }

  /** The figures after frame `k`: its own person count, the unique count over frames 0..k, and k + 1 frames. */
  lemma SnapshotsAt(frames: seq<seq<Detection>>, k: nat)
    requires k < |frames|
    ensures Snapshots(frames)[k] == Snapshot(PersonCount(frames[k]), |CellsOfFrames(frames[..k + 1])|, k + 1)
  {
    ScanAt(frames, Latest, k);
  }

  /** The unique count published never goes down over a run. */
  lemma SnapshotsMonotone(frames: seq<seq<Detection>>, j: nat, k: nat)
    requires j <= k < |frames|
    ensures Snapshots(frames)[j].unique <= Snapshots(frames)[k].unique
  {
    SnapshotsAt(frames, j);
    SnapshotsAt(frames, k);
    PrefixMonotone(frames, j + 1, k + 1);
  }

  /** The unique count published after frame `k` never exceeds the people detected in frames 0..k. */
  lemma SnapshotsBounded(frames: seq<seq<Detection>>, k: nat)
    requires k < |frames|
    ensures Snapshots(frames)[k].unique <= PersonsSeen(frames[..k + 1])
  {
    SnapshotsAt(frames, k);
    UniqueBound(frames[..k + 1]);
  }

  /**
   The whole loop: returns the frames written, the figures published after
   each one and the unique count reported at the end.
   */
  method Analyse<F>(input: seq<Read<F>>) returns (written: seq<Annotated<F>>, stats: seq<Snapshot>, uniqueCount: nat)
    ensures written == Outputs(Consumed(input))
    ensures stats == Snapshots(DetsOf(Consumed(input)))
    ensures uniqueCount == |CellsOfFrames(DetsOf(Consumed(input)))|
  {
    var run := new Run();
    written, stats := [], [];
    var i := 0;
    while i < |input| && input[i].Frame?
      invariant 0 <= i <= |input| && AllFrames(input[..i])
      invariant fresh(run)
      invariant run.Valid()
      invariant run.seen == DetsOf(input[..i])
      invariant written == Outputs(input[..i])
      invariant stats == Snapshots(run.seen)
    {
      ghost var done := input[..i];
      assert input[..i + 1] == done + [input[i]];
      DetsOfSnoc(done, input[i]);
      OutputsSnoc(done, input[i]);
      ghost var before := run.seen;
      var people, marks := run.ProcessFrame(input[i].dets);
      ScanSnoc(before, input[i].dets, Latest);
      written := written + [Annotated(input[i].image, marks)];
      stats := stats + [Snapshot(people, |run.unique|, run.frameCount)];
      i := i + 1;
    }
    ConsumedUnique(input, i);
    uniqueCount := |run.unique|;
  }
}
