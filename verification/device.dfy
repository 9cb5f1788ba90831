/** What one call of the tracked camera's frame-buffer poll hands back. */
module Device {
  import opened Matrices

  /** The SDK's tracking result of the standing device pose. */
  datatype TrackingResult =
    | Uninitialized
    | CalibratingInProgress
    | CalibratingOutOfRange
    | RunningOk
    | RunningOutOfRange
    | FallbackRotationOnly

  /** The part of the frame header the capture loop reads: the frame
      sequence number and the standing tracked-device pose. The source's
      counter is 32 bits wide, but it is only ever compared for equality. */
  datatype FrameHeader = FrameHeader(
    sequence: nat,
    poseIsValid: bool,
    tracking: TrackingResult,
    deviceToAbsolute: Mat34)

  /** Pixels delivered by a full poll; treated as an opaque value. */
  datatype Image = Image(pixels: seq<bv8>)

  /** One poll of the device: an error code other than "none", or a header
      together with the frame's pixels (ignored by a header-only poll). */
  datatype Poll =
    | CameraError
    | Answer(header: FrameHeader, image: Image)

  /** The pose is stored only when it is flagged valid and tracking runs OK. */
  predicate GoodPose(h: FrameHeader) {
    h.poseIsValid && h.tracking == RunningOk
  }
}
