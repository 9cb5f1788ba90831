/** The export reads `poseBuffer[i]` for every image index i, but a frame
    whose pose is invalid adds an image and no pose. A run that meets even
    one such frame and still fills the image buffer therefore reads past
    the end of the pose buffer. Padding invalid poses with the zero matrix
    keeps the two buffers the same length and the export in bounds. */
module Findings {
  import opened Matrices
  import opened Device
  import opened Layout
  import opened Storage
  import opened Capture
  import opened Dataset
  import opened Program

  /** A frame numbered `sequence` whose pose is flagged invalid. */
  function InvalidFrame(sequence: nat): Poll {
    Answer(FrameHeader(sequence, false, RunningOk, Zero34()), Image([]))
  }

  /** `n` distinct frames, each seen once by the header-only poll and once by
      the full poll, all with invalid poses. */
  function InvalidBurst(first: nat, n: nat): (script: seq<Poll>)
    ensures |script| == 2 * n
  {
    seq(2 * n, i requires 0 <= i < 2 * n => InvalidFrame(first + i / 2))
  }

  /** The burst's script drops its first frame when the two polls of that
      frame are consumed. */
  lemma InvalidBurstTail(first: nat, n: nat)
    requires n > 0
    ensures InvalidBurst(first, n)[2..] == InvalidBurst(first + 1, n - 1)
  {
    var script := InvalidBurst(first, n);
    var rest := InvalidBurst(first + 1, n - 1);
    forall i | 0 <= i < |rest|
      ensures script[2..][i] == rest[i]
    {
      assert script[2..][i] == script[i + 2];
      assert (i + 2) / 2 == i / 2 + 1;
    }
  }

  /** Each frame of a burst is new to the loop. */
  lemma {:induction false} InvalidBurstIsFresh(first: nat, n: nat, last: nat)
    requires last < first
    ensures FreshPairs(InvalidBurst(first, n), last, n)
    decreases n
  {
    if n > 0 {
      var script := InvalidBurst(first, n);
      assert script[0] == InvalidFrame(first) && script[1] == InvalidFrame(first);
      InvalidBurstTail(first, n);
      InvalidBurstIsFresh(first + 1, n - 1, first);
    }
  }

  /** Every frame stored from a burst carries an invalid pose. */
  lemma {:induction false} CapturedFromBurstAreInvalid(acc: seq<Acceptance>, first: nat, n: nat)
    requires CapturedPairs(acc, InvalidBurst(first, n))
    ensures forall i | 0 <= i < |acc| :: !GoodPose(acc[i].header)
    decreases |acc|
  {
    if acc != [] {
      var script := InvalidBurst(first, n);
      assert script[1] == InvalidFrame(first);
      InvalidBurstTail(first, n);
      CapturedFromBurstAreInvalid(acc[1..], first + 1, n - 1);
      assert forall i | 1 <= i < |acc| :: acc[i] == acc[1..][i - 1];
    }
  }

  /** From the start, a burst of `Target` frames fills the buffer and every
      stored frame has an invalid pose. */
  lemma BurstFillsBuffer(layout: Inferred, policy: PosePolicy)
    ensures var t := Run(Start(layout), layout, policy, InvalidBurst(1, Target));
      && t.final.status.Done?
      && |t.accepted| == Target
      && forall i | 0 <= i < Target :: !GoodPose(t.accepted[i].header)
  {
    var script := InvalidBurst(1, Target);
    InvalidBurstIsFresh(1, Target, 0);
    RunCapturesFreshPairs(Start(layout), layout, policy, script, Target);
    CapturedFromBurstAreInvalid(Run(Start(layout), layout, policy, script).accepted, 1, Target);
  }

  /** As written: one hundred frames with invalid poses fill the image
      buffer while the pose buffer stays empty, and the export then indexes
      past the end of the pose buffer. */
  lemma InvalidPosesOverrunExport(g: Geometry, k: Intrinsics)
    requires InferLayout(g).Ok? && ImageHolds(g, InferLayout(g).channels)
    ensures Execute(g, k, SkipInvalid, InvalidBurst(1, Target)).Undefined?
    ensures Execute(g, k, SkipInvalid, InvalidBurst(1, Target)).hazard == PoseBufferOverrun
  {
    var layout := InferLayout(g);
    var s0 := Start(layout);
    var script := InvalidBurst(1, Target);
    BurstFillsBuffer(layout, SkipInvalid);
    var t := Run(s0, layout, SkipInvalid, script);
    CaptureEnds(layout, SkipInvalid, script);
    assert !GoodPose(t.accepted[0].header);
    ExecuteFinishes(g, k, SkipInvalid, script);
  }

  /** Padding stores the zero matrix for a frame without a good pose. */
  lemma PaddedInvalidPosesAreZero(acc: seq<Acceptance>, w: seq<Write>)
    requires PairsFrames(ZeroInvalid, acc, w)
    requires forall i | 0 <= i < |acc| :: !GoodPose(acc[i].header)
    ensures forall i | 0 <= i < |acc| :: w[3 + 2 * i] == Node(PoseKey(i), MatrixValue(Zero34()))
  {
  }

  /** Corrected: with invalid poses padded by the zero matrix, the same run
      exits normally and exports a zero pose for every frame. */
  lemma ZeroPaddedPosesExport(g: Geometry, k: Intrinsics)
    requires InferLayout(g).Ok? && ImageHolds(g, InferLayout(g).channels)
    ensures var r := Execute(g, k, ZeroInvalid, InvalidBurst(1, Target));
      && r.Exited? && r.code == 0
      && forall i | 0 <= i < Target :: r.writes[3 + 2 * i] == Node(PoseKey(i), MatrixValue(Zero34()))
  {
    var layout := InferLayout(g);
    var script := InvalidBurst(1, Target);
    var r := Execute(g, k, ZeroInvalid, script);
    var t := Run(Start(layout), layout, ZeroInvalid, script);
    BurstFillsBuffer(layout, ZeroInvalid);
    CaptureEnds(layout, ZeroInvalid, script);
    ExecuteFinishes(g, k, ZeroInvalid, script);
    assert r.Exited? && r.code == 0;
    ExportIsCoIndexed(g, k, ZeroInvalid, script);
    PaddedInvalidPosesAreZero(t.accepted, r.writes);
    assert forall i | 0 <= i < Target :: r.writes[3 + 2 * i] == Node(PoseKey(i), MatrixValue(Zero34()));
  }
}
