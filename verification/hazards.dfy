/** Concrete runs that meet the hazards of the setup's layout test: a
    refused layout leaves the image unallocated, and a layout accepted by the
    truncating division can leave the image smaller than the frame buffer. */
module Hazards {
  import opened Device
  import opened Layout
  import opened Capture
  import opened Dataset
  import opened Program
  import opened Scenarios

  /** One new frame, answering both polls. */
  function OneFrame(): seq<Poll> {
    [Frame(1), Frame(1)]
  }

  lemma OneFrameIsAccepted(layout: Inferred, policy: PosePolicy)
    ensures |Run(Start(layout), layout, policy, OneFrame()).accepted| == 1
  {
    RunAccepts(Start(layout), layout, policy, OneFrame());
  }

  /** Ten bytes for one pixel: the layout is refused, "Error in Frame Size"
      is printed at setup and again in the loop, and the first new frame
      reaches the full poll with no image allocated. */
  lemma RefusedLayoutMeetsEmptyImage(k: Intrinsics, policy: PosePolicy)
    ensures Execute(Geometry(1, 1, 10), k, policy, OneFrame())
         == Undefined(EmptyImage, [FrameSizeMessage, FrameSizeMessage])
  {
    var g := Geometry(1, 1, 10);
    ExactBufferSelectsLayout(g, 10);
    OneFrameIsAccepted(InferLayout(g), policy);
  }

  /** Nine bytes for two pixels: the quotient 4 selects four channels, the
      image holds 8 bytes, and the full poll may write 9. */
  lemma SpareByteOverflowsImage(k: Intrinsics, policy: PosePolicy)
    ensures Execute(Geometry(2, 1, 9), k, policy, OneFrame()) == Undefined(ImageOverflow, [])
  {
    var g := Geometry(2, 1, 9);
    OneSpareByteStillFour(g);
    OneFrameIsAccepted(InferLayout(g), policy);
  }
}
