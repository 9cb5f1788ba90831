# Tracked-camera calibration capture, modelled in Dafny

The program connects to a head-mounted display's tracked camera and collects
100 camera frames, each with the device pose reported in that frame's header.
Each frame is stored only when the header-only poll reports a sequence
number different from the one stored before it; the stored frames are
pairwise distinct when the device's sequence numbers never decrease
(`Capture.MonotoneDeviceStoresIncreasing`). It then writes a calibration dataset: the frame count and the
camera matrix go into an XML `FileStorage` record, then for every frame `i`
an image file `<i>.png` and a pose node `Pose_Matrix_<i>`.

This project models the part of `main` that has logic of its own:

- the channel-layout test on the reported frame geometry, done with 32-bit
  unsigned arithmetic (`Layout`);
- the capture loop (`Capture`). It is a step function `Iterate` over an
  immutable `Session` and a scripted sequence of device answers (`Poll`).
  Every call of the frame-buffer poll consumes one script entry, whether it
  is a header-only poll or a full poll. `Run` iterates until the loop stops
  or fails, or until the script runs out;
- the camera matrix and the ordered list of writes of the export
  (`Dataset`, `Storage`, `Decimal` for the decimal rendering of indices);
- how a run ends, as one function of geometry, intrinsics and script
  (`Program.Execute`). A division by zero in the layout test, a full poll
  into an unallocated or too small image, or a read past the end of the
  pose buffer, is reported as `Undefined`;
- the key layout of `saveCameraParams` (`CameraParams`). The program never
  calls this function.

`Findings` and `Scenarios` hold concrete device scripts that show two
behaviours: what the deduplication lets through, and what an invalid pose
does to the export.

The loop's handling of an invalid pose is a parameter, `PosePolicy`:

- `SkipInvalid` is the code as written. A frame whose pose is not valid, or
  whose tracking result is not `Running_OK`, adds an image and no pose.
- `ZeroInvalid` is the corrected behaviour. It stores a zero matrix for such
  a frame, so that pose `i` always belongs to image `i`.

The export at main.cpp:226-233 writes `imgBuffer[i]` and `poseBuffer[i]`
under the same index `i`, so pose `i` is meant to belong to image `i`. With
`SkipInvalid` that pairing breaks after the first invalid pose, and the
export reads past the end of the pose buffer (see "## Findings").

The layout test at main.cpp:113-124, repeated at 159-170, prints "Error in
Frame Size" when the quotient is neither 3 nor 4, and carries on. `image` is
then never allocated, so the first new frame's full poll (line 173) is handed
a null buffer, and if it answers, `cv::cvtColor` (line 180) is given an empty
matrix. The model prints the message at setup and for every frame whose
header-only poll was new (`LayoutMessages`, `Iterate`), and `Execute` ends
the run at the first accepted frame with the hazard `EmptyImage`. A second
hazard sits in the same lines: the division truncates, so a buffer of
`4 * area + 1` bytes still selects four channels, while the full poll is
told it may write all `bufferSize` bytes into an image of `4 * area`.
`Execute` reports that as `ImageOverflow` (`Layout.ImageHolds`).

Two further points about the loop:

- Deduplication compares the header-only poll's sequence number with the
  number the previous full poll stored, not with the number the previous
  header-only poll saw. Two consecutive stored frames can therefore carry
  the same number (`Scenarios.ConsecutiveRepeatStored`). That needs a
  device whose number goes back (7, then 6); with a non-decreasing device
  the stored numbers strictly increase.
- A first frame numbered 0 is dropped, because the remembered number starts
  at 0.

## Model

| member | source | states |
|---|---|---|
| Layout.InferLayout | main.cpp:113-124 | Division by zero exactly when the uint32 product height*width is 0, from a zero dimension or a wrap to 0. Four channels exactly when 4*area <= bufferSize < 5*area. Three channels exactly when 3*area <= bufferSize < 4*area. Any other quotient q is refused, with q*area <= bufferSize < (q+1)*area |
| Layout.ExactBufferSelectsLayout | main.cpp:113-120 | A buffer of exactly 4 or 3 bytes per pixel selects 4 or 3 channels; any other whole ratio c is refused with quotient c |
| Layout.OneSpareByteStillFour | main.cpp:113-116 | Because the division truncates, area*4+1 bytes still give four channels once area > 1; with one pixel the quotient is 5 and the layout is refused. Without wrap-around, the four-channel image then holds fewer bytes than the buffer |
| Layout.ImageHoldsExactly | main.cpp:113-120 | Without wrap-around, the image allocated for the selected layout holds the frame buffer exactly when the buffer has exactly 3 or 4 bytes per pixel, with nothing to spare |
| Layout.WrappedProductDividesByZero | main.cpp:113 | A 65536 x 65536 frame wraps the uint32 product to 0, so the layout test divides by zero |
| Capture.Start | main.cpp:46-53 | The loop starts with remembered sequence 0, empty image and pose buffers, and no diagnostic exactly when the layout test succeeded |
| Capture.Iterate | main.cpp:133-212 | One loop pass. It stops (Done) exactly when 100 images are held, and then changes nothing else. It discards exactly when the header-only sequence repeats the remembered one, and then leaves the session unchanged. It fails with code 1 and "No Tracked Camera Found" exactly when either poll errs, and stores nothing. It accepts exactly when both polls answer and the first is new: the full-poll image is appended, the full-poll sequence is remembered, and a pose is kept by the policy. It consumes a prefix of the script, and none only when it stops or the script is empty |
| Capture.Run | main.cpp:133-212 | The final buffers are the starting buffers followed by the images of the accepted frames, in order, and by the poses the policy keeps for them. The remembered sequence is that of the last accepted full poll |
| Capture.RunAccepts | main.cpp:145-184 | When both polls answer and the first is new, the run stores that frame first and then continues on the rest of the script |
| Capture.RunStopsWhenFull | main.cpp:136-137 | With 100 images held, the run ends at once in Done without reading the device |
| Capture.PosesOfPaired | main.cpp:186-206 | When invalid poses are padded, or when every pose was good, pose i is the transform of frame i (or zero for an invalid one) and the two buffers have equal length |
| Capture.SkippedPosesShorten | main.cpp:186-206 | With invalid poses skipped, the pose buffer is as long as the image buffer exactly when every accepted frame had a valid, Running_OK pose |
| Capture.RunIsGated | main.cpp:154-184 | Each accepted frame's header-only sequence differs from the sequence the previous accepted full poll stored; the first differs from the starting value |
| Capture.RunKeepsValid | main.cpp:136-137 | At most 100 images, no more poses than images, Done exactly when 100 images are held, and a failure always has code 1 and fewer than 100 images |
| Capture.RunCapturesFreshPairs | main.cpp:145-184 | A device whose frames each answer both polls and differ from the one before fills the buffer with exactly those frames, in order, and the loop ends in Done |
| Capture.MonotoneDeviceStoresIncreasing | main.cpp:154-184 | If the device's sequence numbers never decrease, the stored full-poll sequence numbers strictly increase from the starting value, so no frame is stored twice |
| Capture.CaptureEnds | main.cpp:133-212 | From program start: one image per accepted frame, at most 100; Done exactly when 100 are held; failure code 1; the poses never outnumber the images. When skipping, the buffers have equal length exactly when all poses were good; when padding, always |
| Capture.CaptureSequences | main.cpp:154-184 | From program start: a first frame numbered 0 is never stored, and each accepted frame passed the comparison with the previous one. With a monotone device the stored sequence numbers are nonzero and pairwise distinct |
| Scenarios.NonAdjacentRepeatsStored | main.cpp:154-184 | A device alternating between frames 1 and 2 has every frame stored: the buffer fills with 1, 2, 1, 2, ..., so repeats that are not adjacent get through |
| Scenarios.ConsecutiveRepeatStored | main.cpp:146-184 | Header-only polls 5 and 7 with full polls 6 and 6 store two consecutive frames both numbered 6: only the header-only number is compared |
| Hazards.RefusedLayoutMeetsEmptyImage | main.cpp:113-180 | Ten bytes for one pixel: the layout is refused, the message is printed at setup and in the loop, and the first new frame reaches the full poll with no image allocated |
| Hazards.SpareByteOverflowsImage | main.cpp:113-173 | Nine bytes for two pixels select four channels, and the full poll may write 9 bytes into an 8-byte image |
| Decimal.NatToString | main.cpp:229 | The decimal rendering of an index is nonempty, all digits, with no leading zero, and one character long exactly below 10 |
| Decimal.ValueOfNatToString | main.cpp:229 | Reading the rendered digits back gives the index |
| Dataset.CameraMatrix | main.cpp:214-220 | The identity, with fx and fy on the diagonal and cx and cy in the last column |
| Dataset.Export | main.cpp:222-234 | Defined only when there are at least as many poses as images. It writes 2 + 2n items: the frame count n, the camera matrix, then for every i the image file "<i>.png" with image i followed by the node "Pose_Matrix_<i>" with pose i |
| Dataset.PoseKeyInjective | main.cpp:232 | Different indices give different pose keys |
| Dataset.ImageNameInjective | main.cpp:229 | Different indices give different image file names |
| Dataset.ExportNamesDistinct | main.cpp:222-234 | No two nodes of the export share a key and no two image files share a name |
| CameraParams.SaveCameraParams | main.cpp:18-35 | If the file does not open, false and nothing is written. Otherwise: width and height first; camera matrix, distortion coefficients and average error last; and an "aspectRatio" node holding the aspect ratio, third, exactly when the CALIB_FIX_ASPECT_RATIO bit of the flags is set; five nodes without it, six with it |
| Program.Execute | main.cpp:113-237 | The run is undefined through division by zero exactly when the layout test divides by zero. A normal exit needs a supported layout whose image holds the frame buffer. An empty-image hazard comes only from a refused layout, after "Error in Frame Size" was printed at setup and in the loop; an image overflow only from a supported layout whose image is smaller than the buffer. A pose-buffer overrun can only happen when invalid poses are skipped. An exit either has code 1 and no writes, or code 0 with 202 writes starting with a frame count of 100. A run the device leaves waiting has fewer than 100 images |
| Program.ExportIsCoIndexed | main.cpp:182-234 | On a normal exit, 100 frames were stored. Image file i and pose node i both come from stored frame i, and the pose is that frame's transform (or zero, for a padded invalid pose). When skipping, a normal exit means every pose was good |
| Findings.InvalidPosesOverrunExport | main.cpp:186-233 | As written: with a supported layout whose image holds a frame, 100 distinct frames with invalid poses, skipped, end in a read past the end of the pose buffer |
| Findings.ZeroPaddedPosesExport | main.cpp:186-233 | Corrected: with the same layout, the same 100 frames with zero-padded poses end in a normal exit, and every pose node holds the zero matrix |

## Left out

- Runtime and device setup, lines 55-131 of main.cpp: initialisation, property and firmware queries, frame-bounds and intrinsics queries, acquiring the streaming handle. These are foreign SDK calls. Their results appear only as parameters: the geometry, the intrinsics, and the poll script. Their error returns are not modelled.
- The handle check at main.cpp:139-143. It cannot fire after the check at line 127, because neither the handle nor the interface pointer changes afterwards.
- Colour conversion, text overlays and the preview window, at main.cpp:180 and 187-209. Images are opaque values. The buffer stores a clone taken before any overlay is drawn.
- File I/O, the hard-coded paths, and `FileStorage` serialisation. Only the ordered list of writes is modelled.
- The 32-bit float entries of the pose and camera matrices. Entries are reals that are copied, never computed.
- The uint32 wrap-around of the remembered sequence number. It is only ever compared for equality, so `nat` is used.
- What happens after an `EmptyImage` or `ImageOverflow` hazard: whether the SDK rejects the null or short buffer, writes past it, or OpenCV throws. `Execute` stops at the first accepted frame with `Undefined`; `Capture.Run` on its own still stores the image the script supplies.
- The conversion of width and height to `int` in `image.create`. `Layout.ImageHolds` uses the plain product, so dimensions of 2^31 or more are not modelled.
- A device that stops answering. The script running out stands for it: `Run` ends with the session as it is, and `Execute` reports `Blocked`.
- Capture.Run: states only how the buffers and the remembered sequence relate to the accepted frames, not the diagnostic log. Iterate states the log.

## Findings

| source | as written | input that shows it | evidently intended | confidence | as-written member | corrected member |
|---|---|---|---|---|---|---|
| main.cpp:186-233 | A frame with an invalid pose adds an image but no pose, and the export then reads `poseBuffer[i]` for every image index `i` | 100 distinct frames, each answering both polls with `bPoseIsValid == false`: the image buffer fills and the pose buffer stays empty, so the first pose read is out of bounds | Store a zero matrix for an invalid pose, so that pose `i` belongs to image `i` and the export stays in bounds | high; not executed | Findings.InvalidPosesOverrunExport | Findings.ZeroPaddedPosesExport |
