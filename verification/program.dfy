/** `main` from the end of device setup on: the layout test, the capture
    loop, and the export. */
module Program {
  import opened Layout
  import opened Device
  import opened Storage
  import opened Capture
  import opened Dataset

  /** How the program can end other than by returning, from the first
      point at which it does:
      LayoutDivisionByZero: the layout test divides by a zero pixel count.
      EmptyImage: the layout was refused, so `image` was never allocated;
        the first full poll of a new frame is handed a null buffer of
        `bufferSize` bytes, and if it answers, `cv::cvtColor` is given an
        empty matrix.
      ImageOverflow: the full poll is told it may write `bufferSize` bytes
        into an image that holds fewer.
      PoseBufferOverrun: the export indexes past the end of the pose buffer. */
  datatype Hazard = LayoutDivisionByZero | EmptyImage | ImageOverflow | PoseBufferOverrun

  /** How a run of the program ends. Blocked: the device stopped answering
      (the script ran out) while capture was still going on. */
  datatype Outcome =
    | Exited(code: int, log: seq<string>, writes: seq<Write>)
    | Undefined(hazard: Hazard, log: seq<string>)
    | Blocked(session: Session)

  /** What follows the loop, given the session it ended in: an error
      return, or the export. */
  function Finish(s: Session, k: Intrinsics): (r: Outcome)
    ensures s.status.Failed? ==> r == Exited(s.status.code, s.log, [])
    ensures s.status.Done? ==> (r.Exited? <==> |s.images| <= |s.poses|)
    ensures s.status.Done? && r.Exited? ==> r.code == 0 && r.writes == Export(s.images, s.poses, k)
    ensures r.Undefined? ==> r.hazard == PoseBufferOverrun && |s.poses| < |s.images|
  {
    match s.status
    case Failed(code) => Exited(code, s.log, [])
    case Capturing => Blocked(s)
    case Done =>
      if |s.poses| < |s.images| then Undefined(PoseBufferOverrun, s.log)
      else Exited(0, s.log, Export(s.images, s.poses, k))
  }

  /** How the program ends once the loop from program start has ended. */
  lemma FinishOfCapture(layout: Inferred, policy: PosePolicy, script: seq<Poll>, k: Intrinsics)
    ensures var t := Run(Start(layout), layout, policy, script);
      var r := Finish(t.final, k);
      && (r.Exited? ==>
            || (r.code == 1 && r.writes == [])
            || (r.code == 0 && t.accepted != [] && |r.writes| == 2 + 2 * Target
                && r.writes[0] == Node(FrameCountKey, IntValue(Target))))
      && (r.Undefined? ==> r.hazard == PoseBufferOverrun && policy.SkipInvalid?)
      && (r.Blocked? ==> r.session.status.Capturing? && |r.session.images| < Target)
  {
    var t := Run(Start(layout), layout, policy, script);
    CaptureEnds(layout, policy, script);
    var r := Finish(t.final, k);
    if r.Exited? && t.final.status.Done? {
      assert |t.final.images| == Target == |t.accepted|;
    }
  }

  /** The program after device setup. A hazard met at the first accepted
      frame ends the run there, with the lines printed up to that point: the
      setup diagnostic and the one the loop printed for that frame. */
  function Execute(g: Geometry, k: Intrinsics, policy: PosePolicy, script: seq<Poll>): (r: Outcome)
    ensures r == Undefined(LayoutDivisionByZero, []) <==> InferLayout(g) == Err(DivisionByZero)
    // a normal export needs a supported layout whose image holds a frame
    ensures r.Exited? && r.code == 0 ==>
      InferLayout(g).Ok? && ImageHolds(g, InferLayout(g).channels)
    ensures r.Undefined? && r.hazard == EmptyImage ==>
      InferLayout(g).Err? && r.log == [FrameSizeMessage, FrameSizeMessage]
    ensures r.Undefined? && r.hazard == ImageOverflow ==>
      InferLayout(g).Ok? && !ImageHolds(g, InferLayout(g).channels)
    ensures r.Undefined? && r.hazard == PoseBufferOverrun ==> policy.SkipInvalid?
    ensures r.Exited? ==>
      || (r.code == 1 && r.writes == [])
      || (r.code == 0 && |r.writes| == 2 + 2 * Target && r.writes[0] == Node(FrameCountKey, IntValue(Target)))
    ensures r.Blocked? ==> r.session.status.Capturing? && |r.session.images| < Target
  {
    var layout := InferLayout(g);
    if layout == Err(DivisionByZero) then Undefined(LayoutDivisionByZero, [])
    else
      var t := Run(Start(layout), layout, policy, script);
      var printed := Start(layout).log + LayoutMessages(layout);
      if t.accepted != [] && layout.Err? then Undefined(EmptyImage, printed)
      else if t.accepted != [] && !ImageHolds(g, layout.channels) then Undefined(ImageOverflow, printed)
      else
        FinishOfCapture(layout, policy, script, k);
        Finish(t.final, k)
  }

  /** With a supported layout whose image holds a frame, the program's end
      is decided by the session the loop ends in. */
  lemma ExecuteFinishes(g: Geometry, k: Intrinsics, policy: PosePolicy, script: seq<Poll>)
    requires InferLayout(g).Ok? && ImageHolds(g, InferLayout(g).channels)
    ensures var layout := InferLayout(g);
      Execute(g, k, policy, script) == Finish(Run(Start(layout), layout, policy, script).final, k)
  {
  }

  /** The writes `w` after the two fixed nodes hold, for every accepted
      frame i, image file i with that frame's image and pose node i with
      that frame's pose; with invalid poses skipped, every pose was good. */
  ghost predicate PairsFrames(policy: PosePolicy, acc: seq<Acceptance>, w: seq<Write>) {
    && |w| == 2 + 2 * |acc|
    && (policy.SkipInvalid? ==> forall i | 0 <= i < |acc| :: GoodPose(acc[i].header))
    && forall i | 0 <= i < |acc| ::
         && w[2 + 2 * i] == ImageFile(ImageName(i), acc[i].image)
         && w[3 + 2 * i] == Node(PoseKey(i), MatrixValue(PairedPose(acc[i].header).matrix))
  }

  /** Exporting buffers built from accepted frames pairs image i with the
      pose of frame i. */
  lemma ExportPairsFrames(policy: PosePolicy, acc: seq<Acceptance>, k: Intrinsics)
    requires |ImagesOf(acc)| <= |PosesOf(policy, acc)|
    ensures PairsFrames(policy, acc, Export(ImagesOf(acc), PosesOf(policy, acc), k))
  {
    if policy.SkipInvalid? {
      SkippedPosesShorten(acc);
    }
    PosesOfPaired(policy, acc);
  }

  /** Whenever the program exits normally, 100 frames were stored, image
      file i and pose node i come from the same stored frame, and the pose is
      that frame's transform (or the zero matrix, for a padded invalid pose).
      With invalid poses skipped, a normal exit means every frame had a good
      pose. */
  lemma ExportIsCoIndexed(g: Geometry, k: Intrinsics, policy: PosePolicy, script: seq<Poll>)
    ensures var r := Execute(g, k, policy, script);
      var layout := InferLayout(g);
      var t := Run(Start(layout), layout, policy, script);
      r.Exited? && r.code == 0 ==> |t.accepted| == Target && PairsFrames(policy, t.accepted, r.writes)
  {
    var r := Execute(g, k, policy, script);
    if r.Exited? && r.code == 0 {
      var layout := InferLayout(g);
      var s0 := Start(layout);
      var t := Run(s0, layout, policy, script);
      CaptureEnds(layout, policy, script);
      var images, poses := ImagesOf(t.accepted), PosesOf(policy, t.accepted);
      assert t.final.images == images by {
        assert t.final.images == s0.images + images;
      }
      assert t.final.poses == poses by {
        assert t.final.poses == s0.poses + poses;
      }
      assert r == Finish(t.final, k);
      assert t.final.status.Done? && |images| <= |poses|;
      ExportPairsFrames(policy, t.accepted, k);
      assert |t.accepted| == Target && PairsFrames(policy, t.accepted, r.writes);
    }
  }
}
